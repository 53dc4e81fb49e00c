/** The loader unit and the umbrella unit. The loader resolves the version and
    extension flags at run time and then calls one load subroutine per feature and per
    extension that has commands. */
module Loader {
  import opened Text
  import opened Registry
  import opened Backend
  import opened Generator

  // ---------------------------------------------------------------------------------
  // What the emitted code means

  /** The version test emitted for a feature: the context version `(major, minor)` is at
      least the feature's number. */
  predicate Enabled(f: Feature, major: int, minor: int) {
    (major == f.major && minor >= f.minor) || major > f.major
  }

  /** Feature numbers strictly increase along `features`. */
  predicate Ascending(features: seq<Feature>) {
    forall i, j :: 0 <= i < j < |features| ==>
      features[i].major < features[j].major
      || (features[i].major == features[j].major && features[i].minor < features[j].minor)
  }

  /** The extensions the loader calls and defines a subroutine for: those with at least
      one command, in order. */
  function CalledExtensions(exts: seq<Extension>): seq<Extension> {
    if exts == [] then []
    else
      var init, e := exts[..|exts| - 1], exts[|exts| - 1];
      CalledExtensions(init) + (if |e.functions| == 0 then [] else [e])
  }

  // ---------------------------------------------------------------------------------
  // Text of the loader

  function LoadCall(name: string): string {
    "\tload_gl_" + name + "(load);\n"
  }

  function FeatureCalls(features: seq<Feature>): string {
    if features == [] then ""
    else FeatureCalls(features[..|features| - 1]) + LoadCall(features[|features| - 1].name)
  }

  function ExtensionCalls(exts: seq<Extension>): string {
    if exts == [] then ""
    else ExtensionCalls(exts[..|exts| - 1]) + LoadCall(exts[|exts| - 1].name)
  }

  /** The flag assignment of one feature in `find_core`. */
  function VersionTest(f: Feature): string {
    "\t" + f.name + " = (major == " + NatToString(f.major) + " && minor >= " + NatToString(f.minor)
      + ") || major > " + NatToString(f.major) + ";\n"
  }

  function VersionTests(features: seq<Feature>): string {
    if features == [] then ""
    else VersionTests(features[..|features| - 1]) + VersionTest(features[|features| - 1])
  }

  /** The flag assignment of one extension in `find_extensions`. */
  function HasExtLine(e: Extension): string {
    "\t" + e.name + " = has_ext(glv, extensions, \"" + e.name + "\\0\".ptr);\n"
  }

  function HasExtLines(exts: seq<Extension>): string {
    if exts == [] then ""
    else HasExtLines(exts[..|exts| - 1]) + HasExtLine(exts[|exts| - 1])
  }

  /** Resolves one command through the `load` callback. */
  function LoadLine(f: Function): string {
    "\t" + f.proto.name + " = cast(typeof(" + f.proto.name + "))load(\"" + f.proto.name + "\\0\".ptr);\n"
  }

  function LoadLines(fs: seq<Function>): string {
    if fs == [] then ""
    else LoadLines(fs[..|fs| - 1]) + LoadLine(fs[|fs| - 1])
  }

  /** The load subroutine of a feature: nothing when its flag is unset, else every
      command of the feature the profile keeps, duplicates included. */
  function FeatureLoader(f: Feature, removed: set<Item>): string {
    "void load_gl_" + f.name + "(void* function(const(char)* name) load) {\n"
      + "\tif(!" + f.name + ") return;\n"
      + LoadLines(KeptFunctions(f.functions, removed))
      + "\treturn;\n}\n\n"
  }

  function FeatureLoaders(features: seq<Feature>, removed: set<Item>): string {
    if features == [] then ""
    else FeatureLoaders(features[..|features| - 1], removed) + FeatureLoader(features[|features| - 1], removed)
  }

  /** The load subroutine of an extension: every command of the extension, even those
      another unit declared, and the flag as result. */
  function ExtensionLoader(e: Extension): string {
    "bool load_gl_" + e.name + "(void* function(const(char)* name) load) {\n"
      + "\tif(!" + e.name + ") return " + e.name + ";\n\n"
      + LoadLines(e.functions)
      + "\treturn " + e.name + ";\n" + "}\n" + "\n\n"
  }

  function ExtensionLoaders(exts: seq<Extension>): string {
    if exts == [] then ""
    else ExtensionLoaders(exts[..|exts| - 1]) + ExtensionLoader(exts[|exts| - 1])
  }

  /** Everything before the first feature call: header, imports, the version record,
      the two templates and the opening of the public entry point. */
  function LoaderPrologue(d: Dialect): string {
    d.WriteModule(d.LoaderUnit())
      + d.WriteImports([d.FuncsUnit(), d.ExtUnit(), d.EnumsUnit(), d.TypesUnit()], true) + "\n\n"
      + "struct GLVersion { int major; int minor; }\n"
      + d.Api() + d.ExtCheck()
      + "GLVersion " + d.LoadGLName() + "(void* function(const(char)* name) load) {\n"
      + "\tglGetString = cast(typeof(glGetString))load(\"glGetString\\0\".ptr);\n"
      + "\tglGetStringi = cast(typeof(glGetStringi))load(\"glGetStringi\\0\".ptr);\n"
      + "\tglGetIntegerv = cast(typeof(glGetIntegerv))load(\"glGetIntegerv\\0\".ptr);\n"
      + "\tif(glGetString is null || glGetIntegerv is null) { GLVersion glv; return glv; }\n\n"
      + "\tGLVersion glv = find_core();\n"
  }

  const FindCoreHead: string :=
    "GLVersion find_core() {\n" + "\tint major;\n" + "\tint minor;\n"
      + "\tglGetIntegerv(GL_MAJOR_VERSION, &major);\n" + "\tglGetIntegerv(GL_MINOR_VERSION, &minor);\n"

  const FindCoreTail: string :=
    "\tGLVersion glv; glv.major = major; glv.minor = minor; return glv;\n" + "}\n\n"

  const FindExtensionsHead: string :=
    "void find_extensions(GLVersion glv) {\n"
      + "\tconst(char)* extensions = cast(const(char)*)glGetString(GL_EXTENSIONS);\n\n"

  /** The umbrella unit: its header and a public import of each other unit. */
  function GlUnitText(d: Dialect): string {
    d.WriteModule(d.GlUnit()) + d.WriteImports([d.FuncsUnit(), d.ExtUnit(), d.EnumsUnit(), d.TypesUnit()], false)
  }

  // ---------------------------------------------------------------------------------
  // Drivers

  /** The loader unit, then the umbrella unit. */
  method GenerateLoader(d: Dialect, profile: string, features: seq<Feature>, extensions: seq<Extension>)
    returns (loader: string, gl: string)
    ensures loader == LoaderPrologue(d)
      + FeatureCalls(features) + "\n\tfind_extensions(glv);\n"
      + ExtensionCalls(CalledExtensions(extensions)) + "\n\treturn glv;\n}\n\n"
      + "private:\n\n"
      + FindCoreHead + VersionTests(features) + FindCoreTail
      + FindExtensionsHead + HasExtLines(extensions) + "}\n\n"
      + FeatureLoaders(features, Removed(profile, features))
      + ExtensionLoaders(CalledExtensions(extensions))
    ensures gl == GlUnitText(d)
  {
    var removed := Removed(profile, features);
    loader := LoaderPrologue(d);
    var section := WriteFeatureCalls(features);
    loader := loader + section;
    loader := loader + "\n\tfind_extensions(glv);\n";
    section := WriteExtensionCalls(extensions);
    loader := loader + section;
    loader := loader + "\n\treturn glv;\n}\n\n";
    loader := loader + "private:\n\n";
    loader := loader + FindCoreHead;
    section := WriteVersionTests(features);
    loader := loader + section;
    loader := loader + FindCoreTail;
    loader := loader + FindExtensionsHead;
    section := WriteHasExtLines(extensions);
    loader := loader + section;
    loader := loader + "}\n\n";
    section := WriteFeatureLoaders(features, removed);
    loader := loader + section;
    section := WriteExtensionLoaders(extensions);
    loader := loader + section;
    gl := WriteGl(d);
  }

  method WriteGl(d: Dialect) returns (text: string)
    ensures text == GlUnitText(d)
  {
    text := d.WriteModule(d.GlUnit());
    text := text + d.WriteImports([d.FuncsUnit(), d.ExtUnit(), d.EnumsUnit(), d.TypesUnit()], false);
  }

  method WriteFeatureCalls(features: seq<Feature>) returns (text: string)
    ensures text == FeatureCalls(features)
  {
    text := "";
    var i := 0;
    while i < |features|
      invariant 0 <= i <= |features|
      invariant text == FeatureCalls(features[..i])
    {
      assert features[..i + 1][..i] == features[..i];
      text := text + LoadCall(features[i].name);
      i := i + 1;
    }
    assert features[..i] == features;
  }

  /** One call per extension that has commands; the others are skipped. */
  method WriteExtensionCalls(extensions: seq<Extension>) returns (text: string)
    ensures text == ExtensionCalls(CalledExtensions(extensions))
  {
    text := "";
    var i := 0;
    while i < |extensions|
      invariant 0 <= i <= |extensions|
      invariant text == ExtensionCalls(CalledExtensions(extensions[..i]))
    {
      var ext := extensions[i];
      CalledExtensionsStep(extensions, i);
      if |ext.functions| == 0 {
        i := i + 1;
        continue;
      }
      ExtensionCallsSnoc(CalledExtensions(extensions[..i]), ext);
      text := text + LoadCall(ext.name);
      i := i + 1;
    }
    assert extensions[..i] == extensions;
  }

  method WriteVersionTests(features: seq<Feature>) returns (text: string)
    ensures text == VersionTests(features)
  {
    text := "";
    var i := 0;
    while i < |features|
      invariant 0 <= i <= |features|
      invariant text == VersionTests(features[..i])
    {
      assert features[..i + 1][..i] == features[..i];
      text := text + VersionTest(features[i]);
      i := i + 1;
    }
    assert features[..i] == features;
  }

  method WriteHasExtLines(extensions: seq<Extension>) returns (text: string)
    ensures text == HasExtLines(extensions)
  {
    text := "";
    var i := 0;
    while i < |extensions|
      invariant 0 <= i <= |extensions|
      invariant text == HasExtLines(extensions[..i])
    {
      assert extensions[..i + 1][..i] == extensions[..i];
      text := text + HasExtLine(extensions[i]);
      i := i + 1;
    }
    assert extensions[..i] == extensions;
  }

  method WriteFeatureLoaders(features: seq<Feature>, removed: set<Item>) returns (text: string)
    ensures text == FeatureLoaders(features, removed)
  {
    text := "";
    var i := 0;
    while i < |features|
      invariant 0 <= i <= |features|
      invariant text == FeatureLoaders(features[..i], removed)
    {
      assert features[..i + 1][..i] == features[..i];
      var feature := features[i];
      var subroutine := "void load_gl_" + feature.name + "(void* function(const(char)* name) load) {\n";
      subroutine := subroutine + "\tif(!" + feature.name + ") return;\n";
      var loads := WriteFeatureLoads(feature.functions, removed);
      subroutine := subroutine + loads;
      subroutine := subroutine + "\treturn;\n}\n\n";
      text := text + subroutine;
      i := i + 1;
    }
    assert features[..i] == features;
  }

  /** The load lines of one feature: its commands in order, skipping removed ones. */
  method WriteFeatureLoads(fs: seq<Function>, removed: set<Item>) returns (text: string)
    ensures text == LoadLines(KeptFunctions(fs, removed))
  {
    text := "";
    var j := 0;
    while j < |fs|
      invariant 0 <= j <= |fs|
      invariant text == LoadLines(KeptFunctions(fs[..j], removed))
    {
      var func := fs[j];
      KeptFunctionsStep(fs, j, removed);
      if !(FuncItem(func) in removed) {
        LoadLinesSnoc(KeptFunctions(fs[..j], removed), func);
        text := text + LoadLine(func);
      }
      j := j + 1;
    }
    assert fs[..j] == fs;
  }

  method WriteExtensionLoaders(extensions: seq<Extension>) returns (text: string)
    ensures text == ExtensionLoaders(CalledExtensions(extensions))
  {
    text := "";
    var i := 0;
    while i < |extensions|
      invariant 0 <= i <= |extensions|
      invariant text == ExtensionLoaders(CalledExtensions(extensions[..i]))
    {
      var ext := extensions[i];
      CalledExtensionsStep(extensions, i);
      if |ext.functions| == 0 {
        i := i + 1;
        continue;
      }
      ExtensionLoadersSnoc(CalledExtensions(extensions[..i]), ext);
      var subroutine := "bool load_gl_" + ext.name + "(void* function(const(char)* name) load) {\n";
      subroutine := subroutine + "\tif(!" + ext.name + ") return " + ext.name + ";\n\n";
      var loads := WriteLoads(ext.functions);
      subroutine := subroutine + loads;
      subroutine := subroutine + "\treturn " + ext.name + ";\n";
      subroutine := subroutine + "}\n";
      subroutine := subroutine + "\n\n";
      text := text + subroutine;
      i := i + 1;
    }
    assert extensions[..i] == extensions;
  }

  /** The load lines of one extension: all its commands in order. */
  method WriteLoads(fs: seq<Function>) returns (text: string)
    ensures text == LoadLines(fs)
  {
    text := "";
    var j := 0;
    while j < |fs|
      invariant 0 <= j <= |fs|
      invariant text == LoadLines(fs[..j])
    {
      assert fs[..j + 1][..j] == fs[..j];
      text := text + LoadLine(fs[j]);
      j := j + 1;
    }
    assert fs[..j] == fs;
  }

  // ---------------------------------------------------------------------------------
  // Properties of the loader unit

  /** An extension gets a load call and a subroutine exactly when it has a command. */
  lemma {:induction false} CalledExtensionsMembers(exts: seq<Extension>)
    ensures forall e :: e in CalledExtensions(exts) <==> e in exts && |e.functions| != 0
  {
    if exts != [] {
      var init, e := exts[..|exts| - 1], exts[|exts| - 1];
      CalledExtensionsMembers(init);
      assert exts == init + [e];
    }
  }

  /** Along ascending feature numbers, the features a context version enables form a
      prefix: a feature is enabled whenever a later one is. */
  lemma EnabledPrefix(features: seq<Feature>, major: int, minor: int)
    requires Ascending(features)
    ensures forall i, j :: 0 <= i < j < |features| && Enabled(features[j], major, minor) ==>
      Enabled(features[i], major, minor)
  {
  }

  /** The numbers in a feature's version test read back as the feature's major and
      minor version. */
  lemma VersionTestReadsBack(f: Feature)
    ensures exists majorText, minorText ::
      VersionTest(f) == "\t" + f.name + " = (major == " + majorText + " && minor >= " + minorText
        + ") || major > " + majorText + ";\n"
      && ParseInt(majorText) == Some(f.major as int) && ParseInt(minorText) == Some(f.minor as int)
  {
    ParseNatToString(f.major);
    ParseNatToString(f.minor);
    var majorText, minorText := NatToString(f.major), NatToString(f.minor);
    assert VersionTest(f) == "\t" + f.name + " = (major == " + majorText + " && minor >= " + minorText
        + ") || major > " + majorText + ";\n";
  }

  /** The truth table of the test emitted for version 4.1 at four context versions. */
  lemma VersionTest41()
    ensures Enabled(Feature("GL_VERSION_4_1", 4, 1, [], [], []), 4, 2)
    ensures Enabled(Feature("GL_VERSION_4_1", 4, 1, [], [], []), 5, 0)
    ensures !Enabled(Feature("GL_VERSION_4_1", 4, 1, [], [], []), 4, 0)
    ensures !Enabled(Feature("GL_VERSION_4_1", 4, 1, [], [], []), 3, 9)
  {
  }

  /** The umbrella unit of the D backend: its header, then a public import of the
      function, extension, enum and type units, in that order. */
  lemma DGlUnit()
    ensures GlUnitText(D) == "module glad.gl;\n\n\n"
      + D.ImportLine("glfuncs", false) + D.ImportLine("glext", false)
      + D.ImportLine("glenums", false) + D.ImportLine("gltypes", false)
  {
    var units := ["glfuncs", "glext", "glenums", "gltypes"];
    assert units[1..] == ["glext", "glenums", "gltypes"];
    assert units[1..][1..] == ["glenums", "gltypes"];
    assert units[1..][1..][1..] == ["gltypes"];
  }

  /** The umbrella unit of the Volt backend: the two-newline `package` header, then the
      same four public imports under `gl`. */
  lemma VoltGlUnit()
    ensures GlUnitText(Volt) == "module gl;\n\n"
      + Volt.ImportLine("funcs", false) + Volt.ImportLine("ext", false)
      + Volt.ImportLine("enums", false) + Volt.ImportLine("types", false)
  {
    var units := ["funcs", "ext", "enums", "types"];
    assert units[1..] == ["ext", "enums", "types"];
    assert units[1..][1..] == ["enums", "types"];
    assert units[1..][1..][1..] == ["types"];
  }

  // ---------------------------------------------------------------------------------
  // One-step unfoldings used by the drivers

  lemma CalledExtensionsStep(exts: seq<Extension>, i: nat)
    requires i < |exts|
    ensures |exts[i].functions| == 0 ==> CalledExtensions(exts[..i + 1]) == CalledExtensions(exts[..i])
    ensures |exts[i].functions| != 0 ==> CalledExtensions(exts[..i + 1]) == CalledExtensions(exts[..i]) + [exts[i]]
  {
    assert exts[..i + 1][..i] == exts[..i];
  }

  lemma ExtensionCallsSnoc(exts: seq<Extension>, e: Extension)
    ensures ExtensionCalls(exts + [e]) == ExtensionCalls(exts) + LoadCall(e.name)
  {
    assert (exts + [e])[..|exts|] == exts;
  }

  lemma ExtensionLoadersSnoc(exts: seq<Extension>, e: Extension)
    ensures ExtensionLoaders(exts + [e]) == ExtensionLoaders(exts) + ExtensionLoader(e)
  {
    assert (exts + [e])[..|exts|] == exts;
  }

  lemma LoadLinesSnoc(fs: seq<Function>, f: Function)
    ensures LoadLines(fs + [f]) == LoadLines(fs) + LoadLine(f)
  {
    assert (fs + [f])[..|fs|] == fs;
  }
}
