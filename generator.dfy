/** The drivers that write the type, function, enum and extension units. Each output
    file is modelled by the text it ends up holding; a driver opens it empty and only
    ever appends to it. */
module Generator {
  import opened Text
  import opened Registry
  import opened Dedup
  import opened Backend
  import Templates

  // ---------------------------------------------------------------------------------
  // Which registry items a walk keeps

  /** The commands of `fs` that the core profile does not remove, in order. */
  function KeptFunctions(fs: seq<Function>, removed: set<Item>): seq<Function> {
    if fs == [] then []
    else
      var init, f := fs[..|fs| - 1], fs[|fs| - 1];
      KeptFunctions(init, removed) + (if FuncItem(f) in removed then [] else [f])
  }

  /** The enums of `es` a feature walk may declare: not in the `SpecialNumbers` group
      (written separately) and not removed. */
  function KeptEnums(es: seq<Enum>, removed: set<Item>): seq<Enum> {
    if es == [] then []
    else
      var init, e := es[..|es| - 1], es[|es| - 1];
      KeptEnums(init, removed) + (if e.group == "SpecialNumbers" || EnumItem(e) in removed then [] else [e])
  }

  /** The commands the feature walk declares: kept ones, each object once, first
      occurrence first. */
  function FeaturePrototypes(features: seq<Feature>, removed: set<Item>): seq<Function> {
    DistinctBy(Identity, KeptFunctions(FeatureFunctions(features), removed), {})
  }

  /** The enums the feature walk declares, likewise. */
  function FeatureConstants(features: seq<Feature>, removed: set<Item>): seq<Enum> {
    DistinctBy(Identity, KeptEnums(FeatureEnums(features), removed), {})
  }

  /** The names of the enums and commands the caller hands to the extension driver; the
      extension unit declares none of them. */
  function Seed(enums: seq<Enum>, functions: seq<Function>): set<string> {
    Keys(EnumName, enums) + Keys(FunctionName, functions)
  }

  /** Enums the extension unit declares for the last extension of `exts`, given the
      names seen before the walk started. */
  function BlockConstants(exts: seq<Extension>, seen: set<string>): seq<Enum>
    requires exts != []
  {
    DistinctBy(EnumName, exts[|exts| - 1].enums, seen + Keys(EnumName, ExtensionEnums(exts[..|exts| - 1])))
  }

  /** The commands the extension unit declares: first of each name, skipping names
      that are seeded or that any extension enum carries. */
  function ExtensionPrototypes(exts: seq<Extension>, seed: set<string>): seq<Function> {
    DistinctBy(FunctionName, ExtensionFunctions(exts), seed + Keys(EnumName, ExtensionEnums(exts)))
  }

  // ---------------------------------------------------------------------------------
  // Text of the sections of the units

  function Flags(d: Dialect, features: seq<Feature>): string {
    if features == [] then ""
    else Flags(d, features[..|features| - 1]) + d.WriteBoolean(features[|features| - 1].name)
  }

  function PrototypeDecls(d: Dialect, fs: seq<Function>): string {
    if fs == [] then ""
    else PrototypeDecls(d, fs[..|fs| - 1]) + d.WriteFuncPrototype(fs[|fs| - 1])
  }

  function StorageDecls(d: Dialect, fs: seq<Function>): string {
    if fs == [] then ""
    else StorageDecls(d, fs[..|fs| - 1]) + d.WriteFunc(fs[|fs| - 1])
  }

  /** Enum declarations with the default type `uint`. */
  function EnumDecls(d: Dialect, es: seq<Enum>): string {
    if es == [] then ""
    else EnumDecls(d, es[..|es| - 1]) + d.WriteEnum(es[|es| - 1].name, es[|es| - 1].value, "uint")
  }

  /** The nine constants of the `SpecialNumbers` group, written by hand: name, value, type. */
  const SpecialNumberTable: seq<(string, string, string)> := [
    ("GL_FALSE", "0", "ubyte"),
    ("GL_TRUE", "1", "ubyte"),
    ("GL_NO_ERROR", "0", "uint"),
    ("GL_NONE", "0", "uint"),
    ("GL_ZERO", "0", "uint"),
    ("GL_ONE", "1", "uint"),
    ("GL_INVALID_INDEX", "0xFFFFFFFF", "uint"),
    ("GL_TIMEOUT_IGNORED", "0xFFFFFFFFFFFFFFFF", "ulong"),
    ("GL_TIMEOUT_IGNORED_APPLE", "0xFFFFFFFFFFFFFFFF", "ulong")
  ]

  function SpecialEnumDecls(d: Dialect, table: seq<(string, string, string)>): string {
    if table == [] then ""
    else
      var (name, value, ty) := table[|table| - 1];
      SpecialEnumDecls(d, table[..|table| - 1]) + d.WriteEnum(name, value, ty)
  }

  /** Per extension: its flag, the enums it newly declares, a blank line. */
  function ExtensionBlocks(d: Dialect, exts: seq<Extension>, seen: set<string>): string {
    if exts == [] then ""
    else
      ExtensionBlocks(d, exts[..|exts| - 1], seen) + d.WriteBoolean(exts[|exts| - 1].name)
        + EnumDecls(d, BlockConstants(exts, seen)) + "\n"
  }

  /** The alias line of one entry of the type table: GL name, then its D spelling. */
  function AliasLine(entry: (string, string)): string {
    "alias " + entry.0 + " = " + entry.1 + ";\n"
  }

  function AliasLines(table: seq<(string, string)>): string {
    if table == [] then ""
    else AliasLines(table[..|table| - 1]) + AliasLine(table[|table| - 1])
  }

  /** Fixed declarations after the alias table: opaque structs and debug callbacks. */
  const TypesTrailer: string :=
    "struct __GLsync {}\nalias GLsync = __GLsync*;\n\n"
    + "struct _cl_context {}\nstruct _cl_event {}\n\n"
    + "extern(System) alias GLDEBUGPROC = void function(GLenum, GLenum, "
    + "GLuint, GLenum, GLsizei, in GLchar*, GLvoid*);\n"
    + "alias GLDEBUGPROCARB = GLDEBUGPROC;\n"
    + "alias GLDEBUGPROCKHR = GLDEBUGPROC;\n"
    + "extern(System) alias GLDEBUGPROCAMD = void function(GLuint, GLenum, "
    + "GLenum, GLsizei, in GLchar*, GLvoid*);\n\n"

  // ---------------------------------------------------------------------------------
  // Drivers

  /** The types unit: one alias per table entry, in table order, then the fixed trailer. */
  method GenerateTypes(d: Dialect) returns (text: string)
    ensures text == d.WriteModule(d.TypesUnit()) + AliasLines(Templates.TypeTable) + TypesTrailer
  {
    var table := Templates.TypeTable;
    text := d.WriteModule(d.TypesUnit());
    var i := 0;
    while i < |table|
      invariant 0 <= i <= |table|
      invariant text == d.WriteModule(d.TypesUnit()) + AliasLines(table[..i])
    {
      assert table[..i + 1][..i] == table[..i];
      AppendAssoc(d.WriteModule(d.TypesUnit()), AliasLines(table[..i]), AliasLine(table[i]));
      text := text + AliasLine(table[i]);
      i := i + 1;
    }
    assert table[..i] == table;
    text := text + TypesTrailer;
  }

  /** The storage block's body: one slot per command of `write`, in whatever order the
      set is walked. */
  method EmitStorage(d: Dialect, write: set<Function>) returns (text: string, ghost order: seq<Function>)
    ensures NoDuplicates(order)
    ensures forall f :: f in order <==> f in write
    ensures text == StorageDecls(d, order)
  {
    text, order := "", [];
    var rest := write;
    while rest != {}
      invariant rest <= write
      invariant forall f :: f in order <==> f in write && f !in rest
      invariant NoDuplicates(order)
      invariant text == StorageDecls(d, order)
      decreases |rest|
    {
      var f :| f in rest;
      text := text + d.WriteFunc(f);
      assert (order + [f])[..|order|] == order;
      order := order + [f];
      rest := rest - {f};
    }
  }

  /** The function unit and the enum unit of the features. */
  method GenerateFeatures(d: Dialect, profile: string, features: seq<Feature>)
    returns (funcs: string, enums: string, ghost storageOrder: seq<Function>)
    ensures funcs == d.WriteModule(d.FuncsUnit()) + d.WriteImports([d.TypesUnit()], true)
      + Flags(d, features) + d.WriteExtern()
      + PrototypeDecls(d, FeaturePrototypes(features, Removed(profile, features)))
      + d.WriteExternEnd() + d.WriteShared() + StorageDecls(d, storageOrder) + d.WriteSharedEnd()
    ensures NoDuplicates(storageOrder)
    ensures forall f :: f in storageOrder <==> f in FeaturePrototypes(features, Removed(profile, features))
    ensures enums == d.WriteModule(d.EnumsUnit()) + SpecialEnumDecls(d, SpecialNumberTable)
      + EnumDecls(d, FeatureConstants(features, Removed(profile, features)))
  {
    var removed := Removed(profile, features);
    funcs := d.WriteModule(d.FuncsUnit()) + d.WriteImports([d.TypesUnit()], true);
    enums := d.WriteModule(d.EnumsUnit()) + SpecialEnumDecls(d, SpecialNumberTable);
    var flags := WriteFlags(d, features);
    funcs := funcs + flags;
    funcs := funcs + d.WriteExtern();
    var prototypes, constants, write := DeclareFeatures(d, features, removed);
    funcs := funcs + prototypes;
    enums := enums + constants;
    funcs := funcs + d.WriteExternEnd();
    funcs := funcs + d.WriteShared();
    var storage;
    storage, storageOrder := EmitStorage(d, write);
    KeysMembers(Identity, FeaturePrototypes(features, removed));
    funcs := funcs + storage;
    funcs := funcs + d.WriteSharedEnd();
  }

  /** One flag per feature, in order. */
  method WriteFlags(d: Dialect, features: seq<Feature>) returns (text: string)
    ensures text == Flags(d, features)
  {
    text := "";
    var i := 0;
    while i < |features|
      invariant 0 <= i <= |features|
      invariant text == Flags(d, features[..i])
    {
      FlagsStep(d, features, i);
      text := text + d.WriteBoolean(features[i].name);
      i := i + 1;
    }
    assert features[..i] == features;
  }

  /** The declaration walk over all features: the prototypes, the enum constants and the
      set of commands queued for storage. */
  method DeclareFeatures(d: Dialect, features: seq<Feature>, removed: set<Item>)
    returns (funcs: string, enums: string, write: set<Function>)
    ensures funcs == PrototypeDecls(d, FeaturePrototypes(features, removed))
    ensures enums == EnumDecls(d, FeatureConstants(features, removed))
    ensures write == Keys(Identity, FeaturePrototypes(features, removed))
  {
    funcs, enums, write := "", "", {};
    var writtenFuncs: set<Function> := {};
    var writtenEnums: set<Enum> := {};
    var i := 0;
    while i < |features|
      invariant 0 <= i <= |features|
      invariant writtenFuncs == Keys(Identity, KeptFunctions(FeatureFunctions(features[..i]), removed))
      invariant write == Keys(Identity, FeaturePrototypes(features[..i], removed))
      invariant funcs == PrototypeDecls(d, FeaturePrototypes(features[..i], removed))
      invariant writtenEnums == Keys(Identity, KeptEnums(FeatureEnums(features[..i]), removed))
      invariant enums == EnumDecls(d, FeatureConstants(features[..i], removed))
    {
      var feature := features[i];
      ghost var keptFuncs := KeptFunctions(FeatureFunctions(features[..i]), removed);
      ghost var keptEnums := KeptEnums(FeatureEnums(features[..i]), removed);
      ghost var newFuncs := KeptFunctions(feature.functions, removed);
      ghost var newEnums := KeptEnums(feature.enums, removed);
      ghost var prototypes := FeaturePrototypes(features[..i], removed);
      ghost var constants := FeatureConstants(features[..i], removed);
      var funcText, enumText;
      funcText, writtenFuncs, write := WalkFeatureFunctions(d, feature.functions, removed, writtenFuncs, write);
      enumText, writtenEnums := WalkFeatureEnums(d, feature.enums, removed, writtenEnums);
      FeatureStep(features, i, removed);
      KeysOfAppend(Identity, keptFuncs, newFuncs);
      KeysOfAppend(Identity, keptEnums, newEnums);
      KeysOfAppend(Identity, prototypes, DistinctBy(Identity, newFuncs, Keys(Identity, keptFuncs)));
      PrototypeDeclsAppend(d, prototypes, DistinctBy(Identity, newFuncs, Keys(Identity, keptFuncs)));
      EnumDeclsAppend(d, constants, DistinctBy(Identity, newEnums, Keys(Identity, keptEnums)));
      funcs := funcs + funcText;
      enums := enums + enumText;
      i := i + 1;
    }
    assert features[..i] == features;
  }

  /** The feature walk over one feature's commands: each kept command not yet written
      is declared and queued for storage, and every kept command counts as written. */
  method WalkFeatureFunctions(d: Dialect, fs: seq<Function>, removed: set<Item>, written0: set<Function>, write0: set<Function>)
    returns (text: string, written: set<Function>, write: set<Function>)
    ensures written == written0 + Keys(Identity, KeptFunctions(fs, removed))
    ensures text == PrototypeDecls(d, DistinctBy(Identity, KeptFunctions(fs, removed), written0))
    ensures write == write0 + Keys(Identity, DistinctBy(Identity, KeptFunctions(fs, removed), written0))
  {
    text, written, write := "", written0, write0;
    var j := 0;
    while j < |fs|
      invariant 0 <= j <= |fs|
      invariant written == written0 + Keys(Identity, KeptFunctions(fs[..j], removed))
      invariant text == PrototypeDecls(d, DistinctBy(Identity, KeptFunctions(fs[..j], removed), written0))
      invariant write == write0 + Keys(Identity, DistinctBy(Identity, KeptFunctions(fs[..j], removed), written0))
    {
      var func := fs[j];
      ghost var kept := KeptFunctions(fs[..j], removed);
      KeptFunctionsStep(fs, j, removed);
      if !(FuncItem(func) in removed) {
        DistinctBySnoc(Identity, kept, func, written0);
        KeysSnoc(Identity, kept, func);
        if !(func in written) {
          ghost var declared := DistinctBy(Identity, kept, written0);
          KeysSnoc(Identity, declared, func);
          PrototypeDeclsSnoc(d, declared, func);
          text := text + d.WriteFuncPrototype(func);
          write := write + {func};
        }
        written := written + {func};
      }
      j := j + 1;
    }
    assert fs[..j] == fs;
  }

  /** The feature walk over one feature's enums: each enum outside `SpecialNumbers` and
      not removed is declared unless written before, and then counts as written. */
  method WalkFeatureEnums(d: Dialect, es: seq<Enum>, removed: set<Item>, written0: set<Enum>)
    returns (text: string, written: set<Enum>)
    ensures written == written0 + Keys(Identity, KeptEnums(es, removed))
    ensures text == EnumDecls(d, DistinctBy(Identity, KeptEnums(es, removed), written0))
  {
    text, written := "", written0;
    var j := 0;
    while j < |es|
      invariant 0 <= j <= |es|
      invariant written == written0 + Keys(Identity, KeptEnums(es[..j], removed))
      invariant text == EnumDecls(d, DistinctBy(Identity, KeptEnums(es[..j], removed), written0))
    {
      var enum := es[j];
      ghost var kept := KeptEnums(es[..j], removed);
      KeptEnumsStep(es, j, removed);
      if enum.group == "SpecialNumbers" || EnumItem(enum) in removed {
      } else {
        DistinctBySnoc(Identity, kept, enum, written0);
        KeysSnoc(Identity, kept, enum);
        if !(enum in written) {
          EnumDeclsSnoc(d, DistinctBy(Identity, kept, written0), enum);
          text := text + d.WriteEnum(enum.name, enum.value, "uint");
        }
        written := written + {enum};
      }
      j := j + 1;
    }
    assert es[..j] == es;
  }

  /** The extension unit: flags and new enums per extension, then the commands no
      earlier unit declared, then their storage. */
  method GenerateExtensions(d: Dialect, extensions: seq<Extension>, enums: seq<Enum>, functions: seq<Function>)
    returns (text: string, ghost storageOrder: seq<Function>)
    ensures text == d.WriteModule(d.ExtUnit()) + d.WriteImports([d.TypesUnit(), d.EnumsUnit(), d.FuncsUnit()], true)
      + ExtensionBlocks(d, extensions, Seed(enums, functions)) + d.WriteExtern()
      + PrototypeDecls(d, ExtensionPrototypes(extensions, Seed(enums, functions)))
      + d.WriteExternEnd() + d.WriteShared() + StorageDecls(d, storageOrder) + d.WriteSharedEnd()
    ensures NoDuplicates(storageOrder)
    ensures forall f :: f in storageOrder <==> f in ExtensionPrototypes(extensions, Seed(enums, functions))
  {
    text := d.WriteModule(d.ExtUnit()) + d.WriteImports([d.TypesUnit(), d.EnumsUnit(), d.FuncsUnit()], true);
    var written := SeedNames(enums, functions);
    var blocks;
    blocks, written := WriteExtensionBlocks(d, extensions, written);
    text := text + blocks;
    text := text + d.WriteExtern();
    var prototypes, write := DeclareExtensionFunctions(d, extensions, written);
    text := text + prototypes;
    text := text + d.WriteExternEnd();
    text := text + d.WriteShared();
    var storage;
    storage, storageOrder := EmitStorage(d, write);
    ExtensionPrototypesUnique(extensions, Seed(enums, functions));
    KeysMembers(Identity, ExtensionPrototypes(extensions, Seed(enums, functions)));
    text := text + storage;
    text := text + d.WriteSharedEnd();
  }

  /** Per extension its flag, the enums whose names are not written yet, and a blank
      line; returns the names written afterwards. */
  method WriteExtensionBlocks(d: Dialect, extensions: seq<Extension>, written0: set<string>)
    returns (text: string, written: set<string>)
    ensures text == ExtensionBlocks(d, extensions, written0)
    ensures written == written0 + Keys(EnumName, ExtensionEnums(extensions))
  {
    text, written := "", written0;
    var i := 0;
    while i < |extensions|
      invariant 0 <= i <= |extensions|
      invariant written == written0 + Keys(EnumName, ExtensionEnums(extensions[..i]))
      invariant text == ExtensionBlocks(d, extensions[..i], written0)
    {
      var ext := extensions[i];
      var declared;
      declared, written := WalkExtensionEnums(d, ext.enums, written);
      ExtensionWalkStep(extensions, i);
      ExtensionBlocksStep(d, extensions, i, written0);
      KeysOfAppend(EnumName, ExtensionEnums(extensions[..i]), ext.enums);
      text := text + d.WriteBoolean(ext.name);
      text := text + declared;
      text := text + "\n";
      i := i + 1;
    }
    assert extensions[..i] == extensions;
  }

  /** The declaration walk over the extensions' commands, by name, starting from the
      names already written. */
  method DeclareExtensionFunctions(d: Dialect, extensions: seq<Extension>, written0: set<string>)
    returns (text: string, write: set<Function>)
    ensures text == PrototypeDecls(d, DistinctBy(FunctionName, ExtensionFunctions(extensions), written0))
    ensures write == Keys(Identity, DistinctBy(FunctionName, ExtensionFunctions(extensions), written0))
  {
    text, write := "", {};
    var written := written0;
    var i := 0;
    while i < |extensions|
      invariant 0 <= i <= |extensions|
      invariant written == written0 + Keys(FunctionName, ExtensionFunctions(extensions[..i]))
      invariant write == Keys(Identity, DistinctBy(FunctionName, ExtensionFunctions(extensions[..i]), written0))
      invariant text == PrototypeDecls(d, DistinctBy(FunctionName, ExtensionFunctions(extensions[..i]), written0))
    {
      var ext := extensions[i];
      ghost var walked := ExtensionFunctions(extensions[..i]);
      ghost var prototypes := DistinctBy(FunctionName, walked, written0);
      ghost var seen := written;
      var declared;
      declared, written, write := WalkExtensionFunctions(d, ext.functions, written, write);
      ExtensionWalkStep(extensions, i);
      DistinctByAppend(FunctionName, walked, ext.functions, written0);
      KeysOfAppend(FunctionName, walked, ext.functions);
      KeysOfAppend(Identity, prototypes, DistinctBy(FunctionName, ext.functions, seen));
      PrototypeDeclsAppend(d, prototypes, DistinctBy(FunctionName, ext.functions, seen));
      text := text + declared;
      i := i + 1;
    }
    assert extensions[..i] == extensions;
  }

  /** The names the extension unit starts from: those of the enums and commands it is
      given. */
  method SeedNames(enums: seq<Enum>, functions: seq<Function>) returns (names: set<string>)
    ensures names == Seed(enums, functions)
  {
    names := (set e | e in enums :: e.name) + (set f | f in functions :: f.proto.name);
    KeysMembers(EnumName, enums);
    KeysMembers(FunctionName, functions);
    forall k | k in Seed(enums, functions)
      ensures k in names
    {
      if k in Keys(EnumName, enums) {
        var i :| 0 <= i < |enums| && EnumName(enums[i]) == k;
      } else {
        var i :| 0 <= i < |functions| && FunctionName(functions[i]) == k;
      }
    }
    forall k | k in names
      ensures k in Seed(enums, functions)
    {
      if e :| e in enums && e.name == k {
        var i :| 0 <= i < |enums| && enums[i] == e;
        assert EnumName(enums[i]) in Keys(EnumName, enums);
      } else {
        var f :| f in functions && f.proto.name == k;
        var i :| 0 <= i < |functions| && functions[i] == f;
        assert FunctionName(functions[i]) in Keys(FunctionName, functions);
      }
    }
  }

  /** The extension walk over one extension's enums: an enum whose name is not written
      yet is declared, and its name then counts as written. */
  method WalkExtensionEnums(d: Dialect, es: seq<Enum>, written0: set<string>)
    returns (text: string, written: set<string>)
    ensures written == written0 + Keys(EnumName, es)
    ensures text == EnumDecls(d, DistinctBy(EnumName, es, written0))
  {
    text, written := "", written0;
    ghost var declared: seq<Enum> := [];
    var j := 0;
    while j < |es|
      invariant 0 <= j <= |es|
      invariant written == written0 + Keys(EnumName, es[..j])
      invariant declared == DistinctBy(EnumName, es[..j], written0)
      invariant text == EnumDecls(d, declared)
    {
      var enum := es[j];
      ExtensionEnumStep(es, j, written0);
      if !(enum.name in written) {
        EnumDeclsSnoc(d, declared, enum);
        text := text + d.WriteEnum(enum.name, enum.value, "uint");
        declared := declared + [enum];
      }
      written := written + {enum.name};
      j := j + 1;
    }
    assert es[..j] == es;
  }

  /** The extension walk over one extension's commands: a command whose name is not
      written yet is declared and queued for storage; its name then counts as written. */
  method WalkExtensionFunctions(d: Dialect, fs: seq<Function>, written0: set<string>, write0: set<Function>)
    returns (text: string, written: set<string>, write: set<Function>)
    ensures written == written0 + Keys(FunctionName, fs)
    ensures text == PrototypeDecls(d, DistinctBy(FunctionName, fs, written0))
    ensures write == write0 + Keys(Identity, DistinctBy(FunctionName, fs, written0))
  {
    text, written, write := "", written0, write0;
    var j := 0;
    while j < |fs|
      invariant 0 <= j <= |fs|
      invariant written == written0 + Keys(FunctionName, fs[..j])
      invariant text == PrototypeDecls(d, DistinctBy(FunctionName, fs[..j], written0))
      invariant write == write0 + Keys(Identity, DistinctBy(FunctionName, fs[..j], written0))
    {
      var func := fs[j];
      ExtensionFunctionStep(d, fs, j, written0);
      if !(func.proto.name in written) {
        text := text + d.WriteFuncPrototype(func);
        write := write + {func};
      }
      written := written + {func.proto.name};
      j := j + 1;
    }
    assert fs[..j] == fs;
  }

  // ---------------------------------------------------------------------------------
  // One-step unfoldings used by the drivers

  lemma KeptFunctionsStep(fs: seq<Function>, j: nat, removed: set<Item>)
    requires j < |fs|
    ensures FuncItem(fs[j]) in removed ==> KeptFunctions(fs[..j + 1], removed) == KeptFunctions(fs[..j], removed)
    ensures FuncItem(fs[j]) !in removed ==> KeptFunctions(fs[..j + 1], removed) == KeptFunctions(fs[..j], removed) + [fs[j]]
  {
    assert fs[..j + 1][..j] == fs[..j];
  }

  lemma KeptEnumsStep(es: seq<Enum>, j: nat, removed: set<Item>)
    requires j < |es|
    ensures es[j].group == "SpecialNumbers" || EnumItem(es[j]) in removed ==>
      KeptEnums(es[..j + 1], removed) == KeptEnums(es[..j], removed)
    ensures !(es[j].group == "SpecialNumbers" || EnumItem(es[j]) in removed) ==>
      KeptEnums(es[..j + 1], removed) == KeptEnums(es[..j], removed) + [es[j]]
  {
    assert es[..j + 1][..j] == es[..j];
  }

  /** Walking one more feature: its kept commands and enums are appended to the kept
      lists, and what it declares is what is new with respect to everything kept so far. */
  lemma FeatureStep(features: seq<Feature>, i: nat, removed: set<Item>)
    requires i < |features|
    ensures KeptFunctions(FeatureFunctions(features[..i + 1]), removed)
         == KeptFunctions(FeatureFunctions(features[..i]), removed) + KeptFunctions(features[i].functions, removed)
    ensures FeaturePrototypes(features[..i + 1], removed)
         == FeaturePrototypes(features[..i], removed)
            + DistinctBy(Identity, KeptFunctions(features[i].functions, removed),
                Keys(Identity, KeptFunctions(FeatureFunctions(features[..i]), removed)))
    ensures KeptEnums(FeatureEnums(features[..i + 1]), removed)
         == KeptEnums(FeatureEnums(features[..i]), removed) + KeptEnums(features[i].enums, removed)
    ensures FeatureConstants(features[..i + 1], removed)
         == FeatureConstants(features[..i], removed)
            + DistinctBy(Identity, KeptEnums(features[i].enums, removed),
                Keys(Identity, KeptEnums(FeatureEnums(features[..i]), removed)))
  {
    FeatureWalkStep(features, i);
    var keptFuncs := KeptFunctions(FeatureFunctions(features[..i]), removed);
    var keptEnums := KeptEnums(FeatureEnums(features[..i]), removed);
    KeptFunctionsAppend(FeatureFunctions(features[..i]), features[i].functions, removed);
    DistinctByAppend(Identity, keptFuncs, KeptFunctions(features[i].functions, removed), {});
    assert {} + Keys(Identity, keptFuncs) == Keys(Identity, keptFuncs);
    KeptEnumsAppend(FeatureEnums(features[..i]), features[i].enums, removed);
    DistinctByAppend(Identity, keptEnums, KeptEnums(features[i].enums, removed), {});
    assert {} + Keys(Identity, keptEnums) == Keys(Identity, keptEnums);
  }

  lemma FlagsStep(d: Dialect, features: seq<Feature>, i: nat)
    requires i < |features|
    ensures Flags(d, features[..i + 1]) == Flags(d, features[..i]) + d.WriteBoolean(features[i].name)
  {
    assert features[..i + 1][..i] == features[..i];
  }

  lemma ExtensionBlocksStep(d: Dialect, exts: seq<Extension>, i: nat, seen: set<string>)
    requires i < |exts|
    ensures ExtensionBlocks(d, exts[..i + 1], seen)
         == ExtensionBlocks(d, exts[..i], seen) + d.WriteBoolean(exts[i].name)
            + EnumDecls(d, DistinctBy(EnumName, exts[i].enums, seen + Keys(EnumName, ExtensionEnums(exts[..i])))) + "\n"
  {
    assert exts[..i + 1][..i] == exts[..i];
  }

  /** One step of the walk over an extension's enums, in terms of the `written` set. */
  lemma ExtensionEnumStep(es: seq<Enum>, j: nat, written0: set<string>)
    requires j < |es|
    ensures written0 + Keys(EnumName, es[..j + 1]) == written0 + Keys(EnumName, es[..j]) + {es[j].name}
    ensures es[j].name in written0 + Keys(EnumName, es[..j]) ==>
      DistinctBy(EnumName, es[..j + 1], written0) == DistinctBy(EnumName, es[..j], written0)
    ensures es[j].name !in written0 + Keys(EnumName, es[..j]) ==>
      DistinctBy(EnumName, es[..j + 1], written0) == DistinctBy(EnumName, es[..j], written0) + [es[j]]
  {
    DistinctByStep(EnumName, es, j, written0);
  }

  /** One step of the walk over an extension's commands, in terms of the `written` and
      `write` sets. */
  lemma ExtensionFunctionStep(d: Dialect, fs: seq<Function>, j: nat, written0: set<string>)
    requires j < |fs|
    ensures written0 + Keys(FunctionName, fs[..j + 1]) == written0 + Keys(FunctionName, fs[..j]) + {fs[j].proto.name}
    ensures fs[j].proto.name in written0 + Keys(FunctionName, fs[..j]) ==>
      DistinctBy(FunctionName, fs[..j + 1], written0) == DistinctBy(FunctionName, fs[..j], written0)
    ensures fs[j].proto.name !in written0 + Keys(FunctionName, fs[..j]) ==>
      PrototypeDecls(d, DistinctBy(FunctionName, fs[..j + 1], written0))
        == PrototypeDecls(d, DistinctBy(FunctionName, fs[..j], written0)) + d.WriteFuncPrototype(fs[j])
      && Keys(Identity, DistinctBy(FunctionName, fs[..j + 1], written0))
        == Keys(Identity, DistinctBy(FunctionName, fs[..j], written0)) + {fs[j]}
  {
    DistinctByStep(FunctionName, fs, j, written0);
    var declared := DistinctBy(FunctionName, fs[..j], written0);
    KeysSnoc(Identity, declared, fs[j]);
    PrototypeDeclsSnoc(d, declared, fs[j]);
  }

  lemma KeptFunctionsSnoc(fs: seq<Function>, f: Function, removed: set<Item>)
    ensures KeptFunctions(fs + [f], removed) == KeptFunctions(fs, removed) + (if FuncItem(f) in removed then [] else [f])
  {
    assert (fs + [f])[..|fs|] == fs;
  }

  lemma KeptEnumsSnoc(es: seq<Enum>, e: Enum, removed: set<Item>)
    ensures KeptEnums(es + [e], removed)
         == KeptEnums(es, removed) + (if e.group == "SpecialNumbers" || EnumItem(e) in removed then [] else [e])
  {
    assert (es + [e])[..|es|] == es;
  }

  lemma PrototypeDeclsSnoc(d: Dialect, fs: seq<Function>, f: Function)
    ensures PrototypeDecls(d, fs + [f]) == PrototypeDecls(d, fs) + d.WriteFuncPrototype(f)
  {
    assert (fs + [f])[..|fs|] == fs;
  }

  lemma EnumDeclsSnoc(d: Dialect, es: seq<Enum>, e: Enum)
    ensures EnumDecls(d, es + [e]) == EnumDecls(d, es) + d.WriteEnum(e.name, e.value, "uint")
  {
    assert (es + [e])[..|es|] == es;
  }

  lemma {:induction false} KeptFunctionsAppend(xs: seq<Function>, ys: seq<Function>, removed: set<Item>)
    ensures KeptFunctions(xs + ys, removed) == KeptFunctions(xs, removed) + KeptFunctions(ys, removed)
  {
    if ys == [] {
      assert xs + ys == xs;
    } else {
      var init, y := ys[..|ys| - 1], ys[|ys| - 1];
      var last := if FuncItem(y) in removed then [] else [y];
      calc {
        KeptFunctions(xs + ys, removed);
        { assert xs + ys == (xs + init) + [y]; }
        KeptFunctions((xs + init) + [y], removed);
        { KeptFunctionsSnoc(xs + init, y, removed); }
        KeptFunctions(xs + init, removed) + last;
        { KeptFunctionsAppend(xs, init, removed); }
        (KeptFunctions(xs, removed) + KeptFunctions(init, removed)) + last;
        { AppendAssoc(KeptFunctions(xs, removed), KeptFunctions(init, removed), last); }
        KeptFunctions(xs, removed) + (KeptFunctions(init, removed) + last);
        KeptFunctions(xs, removed) + KeptFunctions(ys, removed);
      }
    }
  }

  lemma {:induction false} KeptEnumsAppend(xs: seq<Enum>, ys: seq<Enum>, removed: set<Item>)
    ensures KeptEnums(xs + ys, removed) == KeptEnums(xs, removed) + KeptEnums(ys, removed)
  {
    if ys == [] {
      assert xs + ys == xs;
    } else {
      var init, y := ys[..|ys| - 1], ys[|ys| - 1];
      var last := if y.group == "SpecialNumbers" || EnumItem(y) in removed then [] else [y];
      calc {
        KeptEnums(xs + ys, removed);
        { assert xs + ys == (xs + init) + [y]; }
        KeptEnums((xs + init) + [y], removed);
        { KeptEnumsSnoc(xs + init, y, removed); }
        KeptEnums(xs + init, removed) + last;
        { KeptEnumsAppend(xs, init, removed); }
        (KeptEnums(xs, removed) + KeptEnums(init, removed)) + last;
        { AppendAssoc(KeptEnums(xs, removed), KeptEnums(init, removed), last); }
        KeptEnums(xs, removed) + (KeptEnums(init, removed) + last);
        KeptEnums(xs, removed) + KeptEnums(ys, removed);
      }
    }
  }

  lemma {:induction false} PrototypeDeclsAppend(d: Dialect, xs: seq<Function>, ys: seq<Function>)
    ensures PrototypeDecls(d, xs + ys) == PrototypeDecls(d, xs) + PrototypeDecls(d, ys)
  {
    if ys == [] {
      assert xs + ys == xs;
    } else {
      var init, y := ys[..|ys| - 1], ys[|ys| - 1];
      var last := d.WriteFuncPrototype(y);
      calc {
        PrototypeDecls(d, xs + ys);
        { assert xs + ys == (xs + init) + [y]; }
        PrototypeDecls(d, (xs + init) + [y]);
        { PrototypeDeclsSnoc(d, xs + init, y); }
        PrototypeDecls(d, xs + init) + last;
        { PrototypeDeclsAppend(d, xs, init); }
        (PrototypeDecls(d, xs) + PrototypeDecls(d, init)) + last;
        { AppendAssoc(PrototypeDecls(d, xs), PrototypeDecls(d, init), last); }
        PrototypeDecls(d, xs) + (PrototypeDecls(d, init) + last);
        PrototypeDecls(d, xs) + PrototypeDecls(d, ys);
      }
    }
  }

  lemma {:induction false} EnumDeclsAppend(d: Dialect, xs: seq<Enum>, ys: seq<Enum>)
    ensures EnumDecls(d, xs + ys) == EnumDecls(d, xs) + EnumDecls(d, ys)
  {
    if ys == [] {
      assert xs + ys == xs;
    } else {
      var init, y := ys[..|ys| - 1], ys[|ys| - 1];
      var last := d.WriteEnum(y.name, y.value, "uint");
      calc {
        EnumDecls(d, xs + ys);
        { assert xs + ys == (xs + init) + [y]; }
        EnumDecls(d, (xs + init) + [y]);
        { EnumDeclsSnoc(d, xs + init, y); }
        EnumDecls(d, xs + init) + last;
        { EnumDeclsAppend(d, xs, init); }
        (EnumDecls(d, xs) + EnumDecls(d, init)) + last;
        { AppendAssoc(EnumDecls(d, xs), EnumDecls(d, init), last); }
        EnumDecls(d, xs) + (EnumDecls(d, init) + last);
        EnumDecls(d, xs) + EnumDecls(d, ys);
      }
    }
  }

  /** The filter keeps exactly the commands the core profile does not remove. */
  lemma {:induction false} KeptFunctionsMembers(fs: seq<Function>, removed: set<Item>)
    ensures forall f :: f in KeptFunctions(fs, removed) <==> f in fs && FuncItem(f) !in removed
  {
    if fs != [] {
      var init, f := fs[..|fs| - 1], fs[|fs| - 1];
      KeptFunctionsMembers(init, removed);
      assert fs == init + [f];
    }
  }

  /** The filter keeps exactly the enums outside `SpecialNumbers` that are not removed. */
  lemma {:induction false} KeptEnumsMembers(es: seq<Enum>, removed: set<Item>)
    ensures forall e :: e in KeptEnums(es, removed) <==> e in es && e.group != "SpecialNumbers" && EnumItem(e) !in removed
  {
    if es != [] {
      var init, e := es[..|es| - 1], es[|es| - 1];
      KeptEnumsMembers(init, removed);
      assert es == init + [e];
    }
  }

  /** The extension unit declares each command name at most once, so each command
      object at most once too. */
  lemma ExtensionPrototypesUnique(exts: seq<Extension>, seed: set<string>)
    ensures forall i, j :: 0 <= i < j < |ExtensionPrototypes(exts, seed)| ==>
      ExtensionPrototypes(exts, seed)[i].proto.name != ExtensionPrototypes(exts, seed)[j].proto.name
    ensures NoDuplicates(ExtensionPrototypes(exts, seed))
  {
    DistinctByUnique(FunctionName, ExtensionFunctions(exts), seed + Keys(EnumName, ExtensionEnums(exts)));
  }

  /** Some enum of some extension carries `name`. */
  predicate ExtensionEnumNamed(exts: seq<Extension>, name: string) {
    exists e :: e in ExtensionEnums(exts) && e.name == name
  }

  lemma EnumNamesOfExtensions(exts: seq<Extension>, name: string)
    ensures name in Keys(EnumName, ExtensionEnums(exts)) <==> ExtensionEnumNamed(exts, name)
  {
    KeysMembers(EnumName, ExtensionEnums(exts));
  }

  /** Every command the extension unit declares comes from an extension, and its name is
      neither carried by a given enum or command nor by an extension enum. */
  lemma ExtensionCommandsFresh(exts: seq<Extension>, enums: seq<Enum>, functions: seq<Function>)
    ensures forall f :: f in ExtensionPrototypes(exts, Seed(enums, functions)) ==>
      (exists i :: 0 <= i < |exts| && f in exts[i].functions)
      && !GivenName(enums, functions, f.proto.name)
      && !ExtensionEnumNamed(exts, f.proto.name)
  {
    var all := ExtensionFunctions(exts);
    var r := ExtensionPrototypes(exts, Seed(enums, functions));
    DistinctByKeys(FunctionName, all, Seed(enums, functions) + Keys(EnumName, ExtensionEnums(exts)));
    KeysMembers(FunctionName, r);
    forall f | f in r
      ensures !GivenName(enums, functions, f.proto.name) && !ExtensionEnumNamed(exts, f.proto.name)
    {
      var k :| 0 <= k < |r| && r[k] == f;
      assert FunctionName(r[k]) in Keys(FunctionName, r);
      Seeded(enums, functions, f.proto.name);
      EnumNamesOfExtensions(exts, f.proto.name);
    }
  }

  /** Every extension command whose name no given enum or command and no extension enum
      carries is declared by the extension unit, under that name. */
  lemma ExtensionCommandsComplete(exts: seq<Extension>, enums: seq<Enum>, functions: seq<Function>)
    ensures forall i, f ::
      (0 <= i < |exts| && f in exts[i].functions
       && !GivenName(enums, functions, f.proto.name) && !ExtensionEnumNamed(exts, f.proto.name)) ==>
      exists c :: c in ExtensionPrototypes(exts, Seed(enums, functions)) && c.proto.name == f.proto.name
  {
    forall i, f | 0 <= i < |exts| && f in exts[i].functions
      && !GivenName(enums, functions, f.proto.name) && !ExtensionEnumNamed(exts, f.proto.name)
      ensures exists c :: c in ExtensionPrototypes(exts, Seed(enums, functions)) && c.proto.name == f.proto.name
    {
      Seeded(enums, functions, f.proto.name);
      EnumNamesOfExtensions(exts, f.proto.name);
      assert f in ExtensionFunctions(exts);
      CommandDeclared(exts, Seed(enums, functions) + Keys(EnumName, ExtensionEnums(exts)), f);
    }
  }

  lemma CommandDeclared(exts: seq<Extension>, seen: set<string>, f: Function)
    requires f in ExtensionFunctions(exts)
    requires f.proto.name !in seen
    ensures exists c :: c in DistinctBy(FunctionName, ExtensionFunctions(exts), seen) && c.proto.name == f.proto.name
  {
    var all := ExtensionFunctions(exts);
    var r := DistinctBy(FunctionName, all, seen);
    DistinctByKeys(FunctionName, all, seen);
    KeysMembers(FunctionName, all);
    KeysMembers(FunctionName, r);
    var m :| 0 <= m < |all| && all[m] == f;
    assert FunctionName(all[m]) in Keys(FunctionName, r);
    var c :| 0 <= c < |r| && FunctionName(r[c]) == f.proto.name;
    assert r[c] in r;
  }

  /** When several extensions list commands of one name, the first one listed is the
      one declared. */
  lemma ExtensionCommandsFirstWins(exts: seq<Extension>, seed: set<string>)
    ensures forall i :: 0 <= i < |ExtensionPrototypes(exts, seed)| ==>
      FunctionName(ExtensionPrototypes(exts, seed)[i]) in Keys(FunctionName, ExtensionFunctions(exts))
      && ExtensionPrototypes(exts, seed)[i] == ExtensionFunctions(exts)[
        FirstIndex(FunctionName, ExtensionFunctions(exts), FunctionName(ExtensionPrototypes(exts, seed)[i]))]
  {
    DistinctByFirstOccurrence(FunctionName, ExtensionFunctions(exts), seed + Keys(EnumName, ExtensionEnums(exts)));
  }

  /** The Volt units carry prototypes only: their storage section is empty. */
  lemma {:induction false} VoltHasNoStorage(fs: seq<Function>)
    ensures StorageDecls(Volt, fs) == ""
  {
    if fs != [] {
      VoltHasNoStorage(fs[..|fs| - 1]);
    }
  }

  /** The types unit has one alias line per entry of the table. */
  lemma {:induction false} AliasLinesCount(table: seq<(string, string)>)
    requires forall i :: 0 <= i < |table| ==> '\n' !in table[i].0 && '\n' !in table[i].1
    ensures Count('\n', AliasLines(table)) == |table|
  {
    if table != [] {
      var init, entry := table[..|table| - 1], table[|table| - 1];
      AliasLinesCount(init);
      var prefix := "alias " + entry.0 + " = " + entry.1 + ";";
      CountAppend('\n', prefix, "\n");
      CountAppend('\n', "alias " + entry.0 + " = ", entry.1);
      CountAppend('\n', "alias " + entry.0, " = ");
      CountAppend('\n', "alias ", entry.0);
      CountAppend('\n', "alias " + entry.0 + " = " + entry.1, ";");
      CountAppend('\n', AliasLines(init), AliasLine(entry));
      CountAbsent('\n', entry.0);
      CountAbsent('\n', entry.1);
      CountAbsent('\n', "alias ");
      CountAbsent('\n', " = ");
      CountAbsent('\n', ";");
      assert Count('\n', "\n") == 1 by {
        assert "\n"[..0] == [];
      }
      assert AliasLine(entry) == prefix + "\n";
      assert table == init + [entry];
    }
  }

  lemma TypeTableAliasLines()
    ensures Count('\n', AliasLines(Templates.TypeTable)) == |Templates.TypeTable|
  {
    AliasLinesCount(Templates.TypeTable);
  }

  // ---------------------------------------------------------------------------------
  // What the units declare

  /** The function unit declares each command at most once (by object), exactly the
      commands some feature lists, except, under the core profile, those any feature's
      remove list names. */
  lemma FeatureUnitCommands(profile: string, features: seq<Feature>)
    ensures NoDuplicates(FeaturePrototypes(features, Removed(profile, features)))
    ensures forall f :: f in FeaturePrototypes(features, Removed(profile, features)) <==>
      (exists i :: 0 <= i < |features| && f in features[i].functions)
      && (profile != "core" || forall i :: 0 <= i < |features| ==> FuncItem(f) !in features[i].remove)
  {
    var removed := Removed(profile, features);
    DistinctElements(KeptFunctions(FeatureFunctions(features), removed), {});
    KeptFunctionsMembers(FeatureFunctions(features), removed);
  }

  /** The enum unit declares, after the hand-written special numbers, each enum at most
      once, exactly those some feature lists that are not in the `SpecialNumbers` group
      and, under the core profile, not removed by any feature. */
  lemma FeatureUnitConstants(profile: string, features: seq<Feature>)
    ensures NoDuplicates(FeatureConstants(features, Removed(profile, features)))
    ensures forall e :: e in FeatureConstants(features, Removed(profile, features)) <==>
      (exists i :: 0 <= i < |features| && e in features[i].enums)
      && e.group != "SpecialNumbers"
      && (profile != "core" || forall i :: 0 <= i < |features| ==> EnumItem(e) !in features[i].remove)
  {
    var removed := Removed(profile, features);
    DistinctElements(KeptEnums(FeatureEnums(features), removed), {});
    KeptEnumsMembers(FeatureEnums(features), removed);
  }

  /** Prototypes come out in the order the walk first meets each kept command: each
      prototype is the first occurrence of its command among the kept ones, and the
      first occurrences of earlier prototypes come earlier. */
  lemma FeatureUnitOrder(features: seq<Feature>, removed: set<Item>)
    ensures forall i :: 0 <= i < |FeaturePrototypes(features, removed)| ==>
      FeaturePrototypes(features, removed)[i] in Keys(Identity, KeptFunctions(FeatureFunctions(features), removed))
      && FeaturePrototypes(features, removed)[i] == KeptFunctions(FeatureFunctions(features), removed)[
        FirstIndex(Identity, KeptFunctions(FeatureFunctions(features), removed), FeaturePrototypes(features, removed)[i])]
    ensures forall i, j :: 0 <= i < j < |FeaturePrototypes(features, removed)| ==>
      FirstIndex(Identity, KeptFunctions(FeatureFunctions(features), removed), FeaturePrototypes(features, removed)[i])
        < FirstIndex(Identity, KeptFunctions(FeatureFunctions(features), removed), FeaturePrototypes(features, removed)[j])
  {
    var kept := KeptFunctions(FeatureFunctions(features), removed);
    var p := FeaturePrototypes(features, removed);
    DistinctByFirstOccurrence(Identity, kept, {});
    assert forall i :: 0 <= i < |p| ==> Identity(p[i]) == p[i];
  }

  /** The enums the extension blocks declare, extension after extension. */
  function BlockConstantsAll(exts: seq<Extension>, seen: set<string>): seq<Enum> {
    if exts == [] then [] else BlockConstantsAll(exts[..|exts| - 1], seen) + BlockConstants(exts, seen)
  }

  /** The per-extension declarations add up to one name-keyed walk over all extension
      enums that starts from the seed. */
  lemma {:induction false} BlockConstantsWalk(exts: seq<Extension>, seen: set<string>)
    ensures BlockConstantsAll(exts, seen) == DistinctBy(EnumName, ExtensionEnums(exts), seen)
  {
    if exts != [] {
      var init := exts[..|exts| - 1];
      BlockConstantsWalk(init, seen);
      ExtensionWalkStep(exts, |exts| - 1);
      assert exts[..|exts|] == exts;
      DistinctByAppend(EnumName, ExtensionEnums(init), exts[|exts| - 1].enums, seen);
    }
  }

  /** The extension unit declares each enum name at most once. */
  lemma ExtensionConstantsUnique(exts: seq<Extension>, seed: set<string>)
    ensures forall i, j :: 0 <= i < j < |BlockConstantsAll(exts, seed)| ==>
      BlockConstantsAll(exts, seed)[i].name != BlockConstantsAll(exts, seed)[j].name
  {
    BlockConstantsWalk(exts, seed);
    DistinctByUnique(EnumName, ExtensionEnums(exts), seed);
  }

  /** For identifier names, no two prototype lines and no two storage slots of the D
      extension unit are the same text. */
  lemma ExtensionPrototypeLinesDistinct(exts: seq<Extension>, seed: set<string>)
    requires forall f :: f in ExtensionFunctions(exts) ==> IsIdent(f.proto.name)
    ensures forall i, j :: 0 <= i < j < |ExtensionPrototypes(exts, seed)| ==>
      D.WriteFuncPrototype(ExtensionPrototypes(exts, seed)[i]) != D.WriteFuncPrototype(ExtensionPrototypes(exts, seed)[j])
      && D.WriteFunc(ExtensionPrototypes(exts, seed)[i]) != D.WriteFunc(ExtensionPrototypes(exts, seed)[j])
  {
    var r := ExtensionPrototypes(exts, seed);
    ExtensionPrototypesUnique(exts, seed);
    DistinctByKeys(FunctionName, ExtensionFunctions(exts), seed + Keys(EnumName, ExtensionEnums(exts)));
    forall i, j | 0 <= i < j < |r|
      ensures D.WriteFuncPrototype(r[i]) != D.WriteFuncPrototype(r[j]) && D.WriteFunc(r[i]) != D.WriteFunc(r[j])
    {
      assert r[i] in r && r[j] in r;
      if D.WriteFuncPrototype(r[i]) == D.WriteFuncPrototype(r[j]) {
        PrototypeNamesCommand(r[i], r[j]);
      }
      if D.WriteFunc(r[i]) == D.WriteFunc(r[j]) {
        StorageSlotInjective(r[i], r[j]);
      }
    }
  }

  /** For identifier names, no two enum lines of the extension unit are the same text,
      in either backend. */
  lemma ExtensionEnumLinesDistinct(d: Dialect, exts: seq<Extension>, seed: set<string>)
    requires forall e :: e in ExtensionEnums(exts) ==> IsIdent(e.name)
    ensures forall i, j :: 0 <= i < j < |BlockConstantsAll(exts, seed)| ==>
      d.WriteEnum(BlockConstantsAll(exts, seed)[i].name, BlockConstantsAll(exts, seed)[i].value, "uint")
        != d.WriteEnum(BlockConstantsAll(exts, seed)[j].name, BlockConstantsAll(exts, seed)[j].value, "uint")
  {
    var r := BlockConstantsAll(exts, seed);
    ExtensionConstantsUnique(exts, seed);
    BlockConstantsWalk(exts, seed);
    DistinctByKeys(EnumName, ExtensionEnums(exts), seed);
    assert IsIdent("uint");
    forall i, j | 0 <= i < j < |r|
      ensures d.WriteEnum(r[i].name, r[i].value, "uint") != d.WriteEnum(r[j].name, r[j].value, "uint")
    {
      assert r[i] in r && r[j] in r;
      if d.WriteEnum(r[i].name, r[i].value, "uint") == d.WriteEnum(r[j].name, r[j].value, "uint") {
        EnumNamesConstant(d, r[i].name, r[i].value, "uint", r[j].name, r[j].value, "uint");
      }
    }
  }

  /** An enum the extension unit declares comes from some extension, and no given enum
      or command has its name. */
  lemma ExtensionConstantsFresh(exts: seq<Extension>, enums: seq<Enum>, functions: seq<Function>)
    ensures forall e :: e in BlockConstantsAll(exts, Seed(enums, functions)) ==>
      (exists i :: 0 <= i < |exts| && e in exts[i].enums) && !GivenName(enums, functions, e.name)
  {
    var seed := Seed(enums, functions);
    var r := BlockConstantsAll(exts, seed);
    BlockConstantsWalk(exts, seed);
    DistinctByKeys(EnumName, ExtensionEnums(exts), seed);
    KeysMembers(EnumName, r);
    KeysMembers(EnumName, enums);
    KeysMembers(FunctionName, functions);
    forall e | e in r
      ensures !GivenName(enums, functions, e.name)
    {
      var k :| 0 <= k < |r| && r[k] == e;
      assert EnumName(r[k]) in Keys(EnumName, r);
      forall g | g in enums ensures g.name != e.name {
        var m :| 0 <= m < |enums| && enums[m] == g;
        assert EnumName(enums[m]) in Keys(EnumName, enums);
      }
      forall g | g in functions ensures g.proto.name != e.name {
        var m :| 0 <= m < |functions| && functions[m] == g;
        assert FunctionName(functions[m]) in Keys(FunctionName, functions);
      }
    }
  }

  /** Every extension enum whose name no given enum or command carries is declared by
      the extension unit, under that name. */
  lemma ExtensionConstantsComplete(exts: seq<Extension>, enums: seq<Enum>, functions: seq<Function>)
    ensures forall i, e ::
      (0 <= i < |exts| && e in exts[i].enums && !GivenName(enums, functions, e.name)) ==>
      exists c :: c in BlockConstantsAll(exts, Seed(enums, functions)) && c.name == e.name
  {
    forall i, e | 0 <= i < |exts| && e in exts[i].enums && !GivenName(enums, functions, e.name)
      ensures exists c :: c in BlockConstantsAll(exts, Seed(enums, functions)) && c.name == e.name
    {
      Seeded(enums, functions, e.name);
      assert e in ExtensionEnums(exts);
      ConstantDeclared(exts, Seed(enums, functions), e);
    }
  }

  /** Some enum or command handed to the extension driver carries `name`. */
  predicate GivenName(enums: seq<Enum>, functions: seq<Function>, name: string) {
    (exists g :: g in enums && g.name == name) || (exists g :: g in functions && g.proto.name == name)
  }

  /** The seed holds exactly the names of the given enums and commands. */
  lemma Seeded(enums: seq<Enum>, functions: seq<Function>, name: string)
    ensures name in Seed(enums, functions) <==> GivenName(enums, functions, name)
  {
    KeysMembers(EnumName, enums);
    KeysMembers(FunctionName, functions);
  }

  /** An extension enum whose name is not seeded gets a declaration under its name. */
  lemma ConstantDeclared(exts: seq<Extension>, seed: set<string>, e: Enum)
    requires e in ExtensionEnums(exts)
    requires e.name !in seed
    ensures exists c :: c in BlockConstantsAll(exts, seed) && c.name == e.name
  {
    var all := ExtensionEnums(exts);
    var r := BlockConstantsAll(exts, seed);
    BlockConstantsWalk(exts, seed);
    DistinctByKeys(EnumName, all, seed);
    KeysMembers(EnumName, all);
    KeysMembers(EnumName, r);
    var m :| 0 <= m < |all| && all[m] == e;
    assert EnumName(all[m]) in Keys(EnumName, r);
    var c :| 0 <= c < |r| && EnumName(r[c]) == e.name;
    assert r[c] in r;
  }
}
