/** The API description the emitters walk: types, functions, enums, features and
    extensions, as the registry parser hands them over. All of them are read-only values. */
module Registry {

  /** A registry type, carried with the two spellings its `to_d()` and `to_volt()` give. */
  datatype GLType = GLType(dSpelling: string, voltSpelling: string)

  datatype Param = Param(name: string, ty: GLType)

  datatype Proto = Proto(name: string, ret: GLType)

  /** A command: prototype (name and return type) and its parameters in order. Two
      functions are the same object exactly when they are equal as values. */
  datatype Function = Function(proto: Proto, params: seq<Param>)

  /** An enum constant; `group` is the registry's group tag ("" when there is none). */
  datatype Enum = Enum(name: string, value: string, group: string)

  /** An entry of a feature's remove list, which may name commands and enums alike. */
  datatype Item = FuncItem(func: Function) | EnumItem(enum: Enum)

  /** An API version: its name (`GL_VERSION_4_1`), its number (major, minor), what it
      adds and what the core profile removes. */
  datatype Feature = Feature(
    name: string, major: nat, minor: nat,
    functions: seq<Function>, enums: seq<Enum>, remove: seq<Item>)

  datatype Extension = Extension(name: string, functions: seq<Function>, enums: seq<Enum>)

  function FunctionName(f: Function): string {
    f.proto.name
  }

  function EnumName(e: Enum): string {
    e.name
  }

  /** The union of the remove lists of `features`. */
  function RemoveUnion(features: seq<Feature>): (r: set<Item>)
    ensures forall it :: it in r <==> exists i :: 0 <= i < |features| && it in features[i].remove
  {
    if features == [] then {}
    else
      var init := features[..|features| - 1];
      var u := RemoveUnion(init);
      assert forall i :: 0 <= i < |init| ==> init[i] == features[i];
      var last := features[|features| - 1].remove;
      u + set it | it in last
  }

  /** The `removed` set both the feature and the loader drivers compute: empty unless
      the profile is "core", then everything any feature's remove list names. */
  function Removed(profile: string, features: seq<Feature>): (r: set<Item>)
    ensures profile != "core" ==> r == {}
    ensures profile == "core" ==>
      forall it :: it in r <==> exists i :: 0 <= i < |features| && it in features[i].remove
  {
    if profile == "core" then RemoveUnion(features) else {}
  }

  /** All commands of `features`, feature by feature, each in its own order. */
  function FeatureFunctions(features: seq<Feature>): (r: seq<Function>)
    ensures forall f :: f in r <==> exists i :: 0 <= i < |features| && f in features[i].functions
  {
    if features == [] then []
    else
      var init := features[..|features| - 1];
      assert forall i :: 0 <= i < |init| ==> init[i] == features[i];
      FeatureFunctions(init) + features[|features| - 1].functions
  }

  /** All enums of `features`, feature by feature, each in its own order. */
  function FeatureEnums(features: seq<Feature>): (r: seq<Enum>)
    ensures forall e :: e in r <==> exists i :: 0 <= i < |features| && e in features[i].enums
  {
    if features == [] then []
    else
      var init := features[..|features| - 1];
      assert forall i :: 0 <= i < |init| ==> init[i] == features[i];
      FeatureEnums(init) + features[|features| - 1].enums
  }

  /** All commands of `extensions`, extension by extension. */
  function ExtensionFunctions(extensions: seq<Extension>): (r: seq<Function>)
    ensures forall f :: f in r <==> exists i :: 0 <= i < |extensions| && f in extensions[i].functions
  {
    if extensions == [] then []
    else
      var init := extensions[..|extensions| - 1];
      assert forall i :: 0 <= i < |init| ==> init[i] == extensions[i];
      ExtensionFunctions(init) + extensions[|extensions| - 1].functions
  }

  /** All enums of `extensions`, extension by extension. */
  function ExtensionEnums(extensions: seq<Extension>): (r: seq<Enum>)
    ensures forall e :: e in r <==> exists i :: 0 <= i < |extensions| && e in extensions[i].enums
  {
    if extensions == [] then []
    else
      var init := extensions[..|extensions| - 1];
      assert forall i :: 0 <= i < |init| ==> init[i] == extensions[i];
      ExtensionEnums(init) + extensions[|extensions| - 1].enums
  }

  /** The walks over the first `i + 1` features or extensions extend those over the
      first `i` by the lists of element `i`. */
  lemma FeatureWalkStep(features: seq<Feature>, i: nat)
    requires i < |features|
    ensures FeatureFunctions(features[..i + 1]) == FeatureFunctions(features[..i]) + features[i].functions
    ensures FeatureEnums(features[..i + 1]) == FeatureEnums(features[..i]) + features[i].enums
  {
    assert features[..i + 1][..i] == features[..i];
  }

  lemma ExtensionWalkStep(extensions: seq<Extension>, i: nat)
    requires i < |extensions|
    ensures ExtensionFunctions(extensions[..i + 1]) == ExtensionFunctions(extensions[..i]) + extensions[i].functions
    ensures ExtensionEnums(extensions[..i + 1]) == ExtensionEnums(extensions[..i]) + extensions[i].enums
  {
    assert extensions[..i + 1][..i] == extensions[..i];
  }
}
