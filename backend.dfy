/** The writer primitives the drivers call, for the two backends: the D generator and
    the Volt generator, which inherits from it and overrides some primitives. Each
    primitive gives the text it appends to its output file ("" where Volt writes nothing). */
module Backend {
  import opened Text
  import opened Registry
  import Templates

  /** The type and literal an enum declaration ends up with. */
  datatype EnumLiteral = EnumLiteral(ty: string, value: string)

  /** Volt's enum-literal normalisation, in the order the Volt `write_enum` applies it:
      a hex literal of an unsigned type gets `U`; an unsigned literal still longer than
      twelve characters then gets `L`; a literal that then reads as a negative decimal
      integer is declared `int`, whatever type was asked for. */
  function VoltEnumLiteral(value: string, ty: string): EnumLiteral {
    var u := if StartsWith(value, "0x") && StartsWith(ty, "u") then "U" else "";
    var v1 := value + u;
    var l := if |v1| > 12 && StartsWith(ty, "u") then "L" else "";
    var v2 := v1 + l;
    var t := match ParseInt(v2)
      case Some(n) => if n < 0 then "int" else ty
      case None => ty;
    EnumLiteral(t, v2)
  }

  /** What the normalisation does: it only appends a suffix, one of "", `U`, `L`, `UL`;
      `U` exactly for a hex literal of an unsigned type, `L` exactly for an unsigned
      literal longer than twelve characters once `U` is counted; nothing for a signed
      type; and the type becomes `int` exactly when the result reads as a negative
      integer. */
  lemma VoltEnumLiteralSpec(value: string, ty: string)
    ensures |value| <= |VoltEnumLiteral(value, ty).value| && VoltEnumLiteral(value, ty).value[..|value|] == value
    ensures VoltEnumLiteral(value, ty).value[|value|..] in {"", "U", "L", "UL"}
    ensures !StartsWith(ty, "u") ==> VoltEnumLiteral(value, ty).value == value
    ensures VoltEnumLiteral(value, ty).value[|value|..] in {"U", "UL"} <==> StartsWith(value, "0x") && StartsWith(ty, "u")
    ensures VoltEnumLiteral(value, ty).value[|value|..] in {"L", "UL"} <==>
      StartsWith(ty, "u") && |value| + (if StartsWith(value, "0x") then 1 else 0) > 12
    ensures (ParseInt(VoltEnumLiteral(value, ty).value).Some? && ParseInt(VoltEnumLiteral(value, ty).value).value < 0)
      ==> VoltEnumLiteral(value, ty).ty == "int"
    ensures !(ParseInt(VoltEnumLiteral(value, ty).value).Some? && ParseInt(VoltEnumLiteral(value, ty).value).value < 0)
      ==> VoltEnumLiteral(value, ty).ty == ty
  {
    var u := if StartsWith(value, "0x") && StartsWith(ty, "u") then "U" else "";
    var v1 := value + u;
    var l := if |v1| > 12 && StartsWith(ty, "u") then "L" else "";
    var v2 := v1 + l;
    assert v2 == value + (u + l) && v2[|value|..] == u + l;
    assert "U" + "L" == "UL" && "" + "L" == "L" && "U" + "" == "U";
  }

  /** A hex literal, or one that received a suffix, never parses as an integer, so it
      keeps the requested type. */
  lemma VoltNeverDemotesHexOrSuffixed(value: string, ty: string)
    requires StartsWith(value, "0x") || VoltEnumLiteral(value, ty).value != value
    ensures VoltEnumLiteral(value, ty).ty == ty
  {
    var r := VoltEnumLiteral(value, ty);
    VoltEnumLiteralSpec(value, ty);
    ParseIntShape(r.value);
    if StartsWith(value, "0x") {
      assert r.value[1] == 'x';
    } else {
      assert r.value[|value|..] in {"U", "L", "UL"};
      assert r.value[|r.value| - 1] == r.value[|value|..][|r.value| - 1 - |value|];
    }
  }

  /** The literals of the special-numbers block: the 64-bit all-ones value gets `UL`,
      the 32-bit one `U`. */
  lemma VoltSpecialLiterals()
    ensures VoltEnumLiteral("0xFFFFFFFFFFFFFFFF", "ulong") == EnumLiteral("ulong", "0xFFFFFFFFFFFFFFFFUL")
    ensures VoltEnumLiteral("0xFFFFFFFF", "uint") == EnumLiteral("uint", "0xFFFFFFFFU")
  {
    VoltNeverDemotesHexOrSuffixed("0xFFFFFFFFFFFFFFFF", "ulong");
    VoltNeverDemotesHexOrSuffixed("0xFFFFFFFF", "uint");
  }

  /** A negative decimal literal is declared `int` even when `uint` was asked for. */
  lemma VoltNegativeDemoted()
    ensures VoltEnumLiteral("-1", "uint") == EnumLiteral("int", "-1")
  {
    assert "-1"[1..] == "1";
    assert DigitsValue("1") == 1 by { assert "1"[..0] == ""; }
    assert ParseInt("-1") == Some(-1);
  }

  /** The two backends. `D` is the D generator; `Volt` overrides the module header for
      the `package` unit, the extern/storage brackets, storage slots, prototypes, flags
      and enum literals, and keeps everything else. */
  datatype Dialect = D | Volt {

    /** Package every unit lives in. */
    function Module(): string {
      if D? then "glad" else "gl"
    }

    function LoaderUnit(): string {
      "loader"
    }

    /** The aggregation unit that re-exports the others. */
    function GlUnit(): string {
      if D? then "gl" else "package"
    }

    function EnumsUnit(): string {
      if D? then "glenums" else "enums"
    }

    function ExtUnit(): string {
      if D? then "glext" else "ext"
    }

    function FuncsUnit(): string {
      if D? then "glfuncs" else "funcs"
    }

    function TypesUnit(): string {
      if D? then "gltypes" else "types"
    }

    /** The library bootstrap text of the loader; Volt leaves loading to its runtime. */
    function Api(): string {
      if D? then Templates.GladFuncs else ""
    }

    /** The extension check text; Volt inherits it unchanged. */
    function ExtCheck(): string {
      Templates.HasExt
    }

    /** Name of the public loader entry point. */
    function LoadGLName(): string {
      if D? then "gladLoadGL" else "loadGL"
    }

    /** Module header of one output unit. */
    function WriteModule(name: string): string {
      if Volt? && name == "package" then "module " + Module() + ";\n\n"
      else "module " + Module() + "." + name + ";\n\n\n"
    }

    function ImportLine(unit: string, isPrivate: bool): string {
      (if isPrivate then "private " else "public ") + "import " + Module() + "." + unit + ";\n"
    }

    /** One import line per module, in order, each private or each public. */
    function WriteImports(modules: seq<string>, isPrivate: bool): (r: string)
      ensures modules == [] <==> r == ""
      ensures modules != [] ==> StartsWith(r, if isPrivate then "private import " else "public import ")
    {
      if modules == [] then ""
      else if |modules| == 1 then ImportLine(modules[0], isPrivate)
      else
        var rest := WriteImports(modules[1..], isPrivate);
        assert (ImportLine(modules[0], isPrivate) + rest)[..|ImportLine(modules[0], isPrivate)|]
            == ImportLine(modules[0], isPrivate);
        ImportLine(modules[0], isPrivate) + rest
    }

    /** Opens the block of prototypes; Volt writes a single marker instead of a block. */
    function WriteExtern(): string {
      if D? then "extern(System) {\n" else "extern(System) @loadDynamic:\n"
    }

    function WriteExternEnd(): string {
      if D? then "}\n" else ""
    }

    function WriteShared(): string {
      if D? then "__gshared {\n" else ""
    }

    function WriteSharedEnd(): string {
      if D? then "}\n" else ""
    }

    /** The storage slot of one command; Volt has none. */
    function WriteFunc(f: Function): string {
      if D? then "fp_" + f.proto.name + " " + f.proto.name + ";\n" else ""
    }

    function ParamSpellings(params: seq<Param>): seq<string> {
      seq(|params|, i requires 0 <= i < |params| => if D? then params[i].ty.dSpelling else params[i].ty.voltSpelling)
    }

    /** The function-pointer type (D) or the declaration (Volt) of one command. */
    function WriteFuncPrototype(f: Function): string {
      if D? then
        "alias fp_" + f.proto.name + " = " + f.proto.ret.dSpelling + " function("
          + Join(", ", ParamSpellings(f.params)) + ") nothrow;\n"
      else
        f.proto.ret.voltSpelling + " " + f.proto.name + "("
          + Join(", ", ParamSpellings(f.params)) + ");\n"
    }

    /** A feature or extension flag. */
    function WriteBoolean(name: string): string {
      if D? then "bool " + name + ";\n" else "global bool " + name + ";\n"
    }

    /** An enum constant; Volt normalises the literal and may change the type. */
    function WriteEnum(name: string, value: string, ty: string): string {
      if D? then "enum " + ty + " " + name + " = " + value + ";\n"
      else
        var lit := VoltEnumLiteral(value, ty);
        "enum " + lit.ty + " " + name + " = " + lit.value + ";\n"
    }
  }

  /** Import lines come one per module, in module order, each with the asked keyword:
      importing one module more appends exactly that module's line. */
  lemma {:induction false} WriteImportsSnoc(d: Dialect, modules: seq<string>, m: string, isPrivate: bool)
    ensures d.WriteImports(modules + [m], isPrivate) == d.WriteImports(modules, isPrivate) + d.ImportLine(m, isPrivate)
  {
    if modules == [] {
      assert modules + [m] == [m];
    } else if |modules| == 1 {
      assert (modules + [m])[1..] == [m];
    } else {
      var head, tail := modules[0], modules[1..];
      assert (modules + [m])[0] == head;
      assert (modules + [m])[1..] == tail + [m];
      WriteImportsSnoc(d, tail, m, isPrivate);
      AppendAssoc(d.ImportLine(head, isPrivate), d.WriteImports(tail, isPrivate), d.ImportLine(m, isPrivate));
    }
  }

  /** The formats of the D primitives. */
  lemma DFormats(name: string, value: string, ty: string, unit: string)
    ensures D.WriteModule(name) == "module glad." + name + ";\n\n\n"
    ensures D.WriteEnum(name, value, ty) == "enum " + ty + " " + name + " = " + value + ";\n"
    ensures D.WriteBoolean(name) == "bool " + name + ";\n"
    ensures D.WriteImports([unit], true) == "private import glad." + unit + ";\n"
    ensures D.WriteImports([unit], false) == "public import glad." + unit + ";\n"
  {
  }

  /** The formats of the Volt overrides: the `package` header, the storage primitives
      that write nothing, the single extern marker, flags and prototypes. */
  lemma VoltFormats(name: string, f: Function)
    ensures Volt.WriteModule("package") == "module gl;\n\n"
    ensures name != "package" ==> Volt.WriteModule(name) == "module gl." + name + ";\n\n\n"
    ensures Volt.WriteExternEnd() == "" && Volt.WriteShared() == "" && Volt.WriteSharedEnd() == ""
    ensures Volt.WriteFunc(f) == ""
    ensures Volt.WriteExtern() == "extern(System) @loadDynamic:\n"
    ensures Volt.WriteBoolean(name) == "global bool " + name + ";\n"
    ensures f.params == [Param("a", GLType("GLint", "i32")), Param("b", GLType("GLuint", "u32"))] ==>
      Volt.WriteFuncPrototype(f) == f.proto.ret.voltSpelling + " " + f.proto.name + "(i32, u32);\n"
  {
    if f.params == [Param("a", GLType("GLint", "i32")), Param("b", GLType("GLuint", "u32"))] {
      assert Volt.ParamSpellings(f.params) == ["i32", "u32"];
      assert Join(", ", ["i32", "u32"]) == "i32" + ", " + Join(", ", ["u32"]);
    }
  }

  /** Two words without spaces followed by a space: equal texts mean equal words. */
  lemma {:induction false} SplitAtSpace(a: string, x: string, b: string, y: string)
    requires ' ' !in a && ' ' !in b
    requires a + " " + x == b + " " + y
    ensures a == b && x == y
  {
    var s := a + " " + x;
    if |a| < |b| {
      SpaceAt(a, x, b, y);
      assert false;
    } else if |b| < |a| {
      SpaceAt(b, y, a, x);
      assert false;
    }
    assert s[..|a|] == a;
    assert (b + " " + y)[..|b|] == b;
    assert s[|a| + 1..] == x;
    assert (b + " " + y)[|b| + 1..] == y;
  }

  lemma SpaceAt(a: string, x: string, b: string, y: string)
    requires |a| < |b|
    requires a + " " + x == b + " " + y
    ensures b[|a|] == ' '
  {
    assert (a + " " + x)[|a|] == ' ';
  }

  lemma NoSpaceInIdent(s: string)
    requires IsIdent(s)
    ensures ' ' !in s
  {
  }

  /** Flag lines determine the flag: two flags print alike only if they are the same. */
  lemma {:induction false} BooleanInjective(d: Dialect, a: string, b: string)
    requires d.WriteBoolean(a) == d.WriteBoolean(b)
    ensures a == b
  {
    var p := if d.D? then "bool " else "global bool ";
    var s := d.WriteBoolean(a);
    assert s == p + a + ";\n" && s == p + b + ";\n";
    assert |a| == |b|;
    assert s[|p|..|p| + |a|] == a;
    assert s[|p|..|p| + |b|] == b;
  }

  /** A D storage slot names its command: equal slots mean equal command names. */
  lemma {:induction false} StorageSlotInjective(f: Function, g: Function)
    requires D.WriteFunc(f) == D.WriteFunc(g)
    ensures f.proto.name == g.proto.name
  {
    var a, b := f.proto.name, g.proto.name;
    var s := D.WriteFunc(f);
    assert s == "fp_" + a + " " + a + ";\n" && s == "fp_" + b + " " + b + ";\n";
    assert |a| == |b|;
    assert s[3..3 + |a|] == a;
    assert s[3..3 + |b|] == b;
  }

  /** A D prototype names its command: for identifier names, equal prototypes mean
      equal command names. */
  lemma {:induction false} PrototypeNamesCommand(f: Function, g: Function)
    requires IsIdent(f.proto.name) && IsIdent(g.proto.name)
    requires D.WriteFuncPrototype(f) == D.WriteFuncPrototype(g)
    ensures f.proto.name == g.proto.name
  {
    var a, b := f.proto.name, g.proto.name;
    PrototypeLayout(f);
    PrototypeLayout(g);
    NoSpaceInIdent(a);
    NoSpaceInIdent(b);
    assert forall k :: 0 <= k < |a| ==> a[k] == b[k];
  }

  /** Where the command name sits in a D prototype: after `alias fp_`, then a space. */
  lemma PrototypeLayout(f: Function)
    ensures |D.WriteFuncPrototype(f)| > 9 + |f.proto.name|
    ensures forall k :: 0 <= k < |f.proto.name| ==> D.WriteFuncPrototype(f)[9 + k] == f.proto.name[k]
    ensures D.WriteFuncPrototype(f)[9 + |f.proto.name|] == ' '
  {
    var head := "alias fp_" + f.proto.name;
    var s := D.WriteFuncPrototype(f);
    assert s == head + " = " + f.proto.ret.dSpelling + " function(" + Join(", ", D.ParamSpellings(f.params)) + ") nothrow;\n";
    assert s[..|head|] == head;
    assert s[|head|] == ' ';
  }

  /** An enum declaration names its constant: for identifier types and names, equal
      declarations (in either dialect) mean equal constant names. */
  lemma {:induction false} EnumNamesConstant(d: Dialect, n1: string, v1: string, t1: string, n2: string, v2: string, t2: string)
    requires IsIdent(n1) && IsIdent(n2)
    requires IsIdent(t1) && IsIdent(t2)
    requires d.WriteEnum(n1, v1, t1) == d.WriteEnum(n2, v2, t2)
    ensures n1 == n2
  {
    var l1 := if d.D? then EnumLiteral(t1, v1) else VoltEnumLiteral(v1, t1);
    var l2 := if d.D? then EnumLiteral(t2, v2) else VoltEnumLiteral(v2, t2);
    assert l1.ty == t1 || l1.ty == "int";
    assert l2.ty == t2 || l2.ty == "int";
    NoSpaceInIdent(t1);
    NoSpaceInIdent(t2);
    NoSpaceInIdent(n1);
    NoSpaceInIdent(n2);
    assert d.WriteEnum(n1, v1, t1) == "enum " + l1.ty + " " + n1 + " = " + l1.value + ";\n";
    assert d.WriteEnum(n2, v2, t2) == "enum " + l2.ty + " " + n2 + " = " + l2.value + ";\n";
    DeclarationNames(l1.ty, n1, l1.value, l2.ty, n2, l2.value);
  }

  lemma {:induction false} DeclarationNames(t1: string, n1: string, v1: string, t2: string, n2: string, v2: string)
    requires ' ' !in t1 && ' ' !in t2 && ' ' !in n1 && ' ' !in n2
    requires "enum " + t1 + " " + n1 + " = " + v1 + ";\n" == "enum " + t2 + " " + n2 + " = " + v2 + ";\n"
    ensures n1 == n2
  {
    var s := "enum " + t1 + " " + n1 + " = " + v1 + ";\n";
    var x1, x2 := "= " + v1 + ";\n", "= " + v2 + ";\n";
    assert s[5..] == t1 + " " + (n1 + " " + x1);
    assert s[5..] == t2 + " " + (n2 + " " + x2);
    SplitAtSpace(t1, n1 + " " + x1, t2, n2 + " " + x2);
    SplitAtSpace(n1, x1, n2, x2);
  }
}
