# glad D/Volt binding emitters, modelled in Dafny

This project models the emission core of glad's D backend (`DGenerator`) and of its Volt
subclass (`VoltGenerator`). The backend receives the registry's features and extensions.
A feature is a versioned bundle of commands and enums, together with the items the core
profile removes. The backend writes these units:

- the types unit: a type-alias table and a fixed trailer;
- the function unit: feature flags, one prototype per command, then one storage slot per
  declared command;
- the enum unit: nine hand-written special numbers, then the feature enums;
- the extension unit: per extension, a flag and the enums not yet declared; then the
  commands not yet declared, and their storage;
- the loader unit: the public entry point, the version tests, the `has_ext` lines and one
  load subroutine per feature and per extension that has commands;
- the umbrella unit, which re-exports the others.

Modules:

- `Text`: string helpers. It holds Python's `str` of a natural number and the part of
  `int()` that Volt relies on.
- `Registry`: the parser's objects as values, plus the concatenations and the core
  profile's `removed` set that the drivers use.
- `Dedup`: the first-occurrence walk both drivers perform, called `DistinctBy`. The feature
  driver keys items by the object itself; the extension driver keys them by name and
  starts from a seed of names.
- `Templates`: the type table and the two verbatim loader templates, kept as constants.
- `Backend`: the writer primitives, as members of `datatype Dialect = D | Volt`. Where
  Volt writes nothing, the primitive returns "". The module also holds Volt's enum-literal
  normaliser.
- `Generator` and `Loader`: the drivers. Each output file is modelled by the text it ends
  up holding. A driver is a method that builds that text by appending, loop by loop, as
  the source does. Its `ensures` ties the result to specification functions. Lemmas then
  prove what those functions mean: which items are declared, how often, in which order,
  and what is never declared.

The source writes one file with one chain of writes. The model builds each looped section
in a separate method that starts from the empty text. The driver then appends the
sections in the same order the source writes them. The final text is the same.

## Model

| member | source | states |
|---|---|---|
| `Registry.Removed` | glad/generator/d.py:293-295 | empty unless the profile is `core`; under `core`, an item is removed exactly when some feature's remove list names it |
| `Registry.RemoveUnion` | glad/generator/d.py:180-182 | the union of all features' remove lists, membership stated both ways |
| `Dedup.DistinctByKeys` | glad/generator/d.py:353-368 | a name-keyed walk declares only items of its input; the declared keys are exactly the input's keys minus the seen ones |
| `Dedup.DistinctByUnique` | glad/generator/d.py:353-368 | a walk declares at most one item per key |
| `Dedup.DistinctByFirstOccurrence` | glad/generator/d.py:320-333 | each declared item is the first input item with its key, and declarations follow first-occurrence order |
| `Dedup.DistinctElements` | glad/generator/d.py:320-333 | an object-keyed walk has no duplicates and holds exactly the input items not yet written |
| `Dedup.DistinctByAppend` | glad/generator/d.py:320-333 | walking two lists in a row is walking the first, then the second with the first's keys seen: the state one `written` set carries across features |
| `Text.NatToString` | glad/generator/d.py:218-219 | the version number text is non-empty decimal digits without a leading zero, and its value is the number |
| `Text.ParseIntShape` | glad/generator/volt.py:54-59 | text that `int()` accepts ends in a digit and contains no `x`; a negative value starts with `-` |
| `Text.ParseNatToString` | glad/generator/volt.py:54-59 | `int()` reads back a written number, with or without a minus sign |
| `Backend.VoltEnumLiteralSpec` | glad/generator/volt.py:48-59 | the literal only gains a suffix `""`, `U`, `L` or `UL`; `U` exactly for hex of an unsigned type; `L` exactly for an unsigned literal longer than 12 once `U` is counted; signed types get nothing; the type becomes `int` exactly when the result reads as a negative integer |
| `Backend.VoltNeverDemotesHexOrSuffixed` | glad/generator/volt.py:54-59 | a hex or suffixed literal never parses, so it keeps the requested type |
| `Backend.VoltSpecialLiterals` | glad/generator/d.py:310-312 | under Volt, `0xFFFFFFFFFFFFFFFF`/`ulong` becomes `...UL` and `0xFFFFFFFF`/`uint` becomes `...U`, types kept |
| `Backend.VoltNegativeDemoted` | glad/generator/volt.py:54-57 | `-1` asked as `uint` is declared `int` |
| `Backend.Dialect.WriteImports` | glad/generator/d.py:378-385 | no modules give no text; otherwise the text starts with `private import ` or `public import ` as asked |
| `Backend.WriteImportsSnoc` | glad/generator/d.py:378-385 | importing one module more appends exactly that module's line with the asked keyword: one import line per module, in order |
| `Backend.DFormats` | glad/generator/d.py:378-415 | the D formats: `module glad.N;` plus three newlines, `enum T N = V;`, `bool N;`, private and public import lines |
| `Backend.VoltFormats` | glad/generator/volt.py:18-46 | the `package` header is `module gl;` plus two newlines, any other header defers to the base format; extern end, shared, shared end and storage slots are empty; extern is the single `@loadDynamic:` marker; flags are `global bool N;`; a prototype is `RET NAME(P1, P2);` |
| `Backend.BooleanInjective` | glad/generator/d.py:411-412 | two flag lines are equal only for the same flag name, in both backends |
| `Backend.StorageSlotInjective` | glad/generator/d.py:402-403 | equal D storage slots mean equal command names |
| `Backend.PrototypeNamesCommand` | glad/generator/d.py:405-409 | for identifier names, equal D prototypes mean equal command names |
| `Backend.EnumNamesConstant` | glad/generator/d.py:414-415 | for identifier names and types, equal enum declarations in either backend mean equal constant names |
| `Generator.GenerateTypes` | glad/generator/d.py:267-285 | the types unit is the header, one alias line per table entry in table order, then the fixed trailer |
| `Generator.AliasLinesCount` | glad/generator/d.py:274-275 | for entries without newlines, the alias block has exactly one line per table entry |
| `Generator.TypeTableAliasLines` | glad/generator/d.py:6-39 | the alias block of the actual table has one line per entry |
| `Generator.GenerateFeatures` | glad/generator/d.py:287-339 | the function unit is header, import, flags, extern block of the declared prototypes, then one storage slot for each command that got a prototype and for no other, each once; the enum unit is header, the nine special numbers first, then the declared feature enums |
| `Generator.WriteFlags` | glad/generator/d.py:314-315 | one flag per feature, in feature order |
| `Generator.DeclareFeatures` | glad/generator/d.py:317-333 | the nested walk writes exactly the specified prototypes and enums, and the `write` set is exactly the set of prototyped commands |
| `Generator.WalkFeatureFunctions` | glad/generator/d.py:321-326 | one feature's commands: the kept ones not yet written get prototypes and join `write`; all kept ones join `written` |
| `Generator.WalkFeatureEnums` | glad/generator/d.py:328-333 | one feature's enums: those not skipped and not yet written get declarations; all kept ones join `written` |
| `Generator.EmitStorage` | glad/generator/d.py:336-339 | one storage slot per element of the `write` set, each once, in some order |
| `Generator.KeptFunctionsMembers` | glad/generator/d.py:321-322 | a command survives the filter exactly when it is not removed |
| `Generator.KeptEnumsMembers` | glad/generator/d.py:328-330 | an enum survives exactly when it is outside `SpecialNumbers` and not removed |
| `Generator.FeatureUnitCommands` | glad/generator/d.py:320-326 | prototypes have no duplicates; a command gets one exactly when some feature lists it and, under `core`, no feature removes it |
| `Generator.FeatureUnitConstants` | glad/generator/d.py:328-333 | feature enums have no duplicates; an enum is declared exactly when some feature lists it, its group is not `SpecialNumbers` and, under `core`, no feature removes it |
| `Generator.FeatureUnitOrder` | glad/generator/d.py:320-326 | each prototype is the first occurrence of its command among the kept commands (feature order, then position in the feature), and the first occurrences of earlier prototypes come strictly earlier |
| `Generator.VoltHasNoStorage` | glad/generator/volt.py:36-37 | the Volt storage section is empty whatever was prototyped |
| `Generator.GenerateExtensions` | glad/generator/d.py:341-375 | the extension unit is header, imports, one block per extension (its flag, its new enums, a blank line), the extern block of new commands, and one storage slot for each command prototyped in this pass and no other |
| `Generator.SeedNames` | glad/generator/d.py:349-350 | the starting `written` set is the names of the given enums and commands |
| `Generator.Seeded` | glad/generator/d.py:349-350 | a name is in the seed exactly when a given enum or command carries it |
| `Generator.WriteExtensionBlocks` | glad/generator/d.py:353-360 | writes the specified blocks; afterwards `written` is the seed plus every extension enum name |
| `Generator.WalkExtensionEnums` | glad/generator/d.py:355-358 | one extension's enums: those whose name is not written yet are declared, and their names join `written` |
| `Generator.DeclareExtensionFunctions` | glad/generator/d.py:362-368 | writes the prototypes of the name-keyed walk over all extension commands, and `write` holds exactly those commands |
| `Generator.WalkExtensionFunctions` | glad/generator/d.py:364-368 | one extension's commands: those whose name is not written yet get a prototype and join `write` |
| `Generator.BlockConstantsWalk` | glad/generator/d.py:353-358 | the per-extension enum blocks add up to one name-keyed walk over all extension enums from the seed |
| `Generator.ExtensionConstantsUnique` | glad/generator/d.py:353-358 | the extension unit declares each enum name at most once |
| `Generator.ExtensionConstantsFresh` | glad/generator/d.py:353-358 | every enum the extension unit declares comes from an extension, and no enum or command given to the driver carries its name |
| `Generator.ExtensionConstantsComplete` | glad/generator/d.py:353-358 | every extension enum whose name no given enum or command carries is declared under that name |
| `Generator.ExtensionPrototypesUnique` | glad/generator/d.py:362-368 | the extension unit declares each command name at most once |
| `Generator.ExtensionPrototypeLinesDistinct` | glad/generator/d.py:362-373 | for identifier names, no two prototype lines and no two storage slots of the D extension unit are the same text |
| `Generator.ExtensionEnumLinesDistinct` | glad/generator/d.py:353-358 | for identifier names, no two enum lines of the extension unit are the same text, in either backend |
| `Generator.ExtensionCommandsFresh` | glad/generator/d.py:362-368 | every command the extension unit declares comes from an extension; no given enum or command and no extension enum carries its name |
| `Generator.ExtensionCommandsComplete` | glad/generator/d.py:362-368 | every extension command whose name neither a given enum or command nor an extension enum carries is declared under that name |
| `Generator.ExtensionCommandsFirstWins` | glad/generator/d.py:362-368 | of several commands with one name, the first one listed is declared |
| `Loader.GenerateLoader` | glad/generator/d.py:176-257 | the loader unit: prologue; one load call per feature; one load call per extension with commands; a version test per feature; a `has_ext` line per extension; a subroutine per feature; a subroutine per extension with commands. Then the umbrella unit |
| `Loader.WriteGl` | glad/generator/d.py:259-265 | the umbrella unit is the header then a public import of each other unit |
| `Loader.WriteFeatureCalls` | glad/generator/d.py:201-202 | one `load_gl_` call per feature, in order |
| `Loader.WriteExtensionCalls` | glad/generator/d.py:204-207 | one `load_gl_` call per extension that has commands, in order |
| `Loader.WriteVersionTests` | glad/generator/d.py:217-219 | one version test per feature, in order |
| `Loader.WriteHasExtLines` | glad/generator/d.py:226-227 | one `has_ext` line per extension, with or without commands |
| `Loader.WriteFeatureLoaders` | glad/generator/d.py:231-239 | one subroutine per feature, each loading the feature's commands that are not removed |
| `Loader.WriteFeatureLoads` | glad/generator/d.py:235-238 | a load line per command of the feature that is not removed, duplicates kept |
| `Loader.WriteExtensionLoaders` | glad/generator/d.py:241-255 | one subroutine per extension that has commands |
| `Loader.WriteLoads` | glad/generator/d.py:248-251 | a load line for every command of the extension, with no dedup |
| `Loader.CalledExtensionsMembers` | glad/generator/d.py:204-207 | an extension gets a call and a subroutine exactly when it has at least one command |
| `Loader.EnabledPrefix` | glad/generator/d.py:217-219 | along ascending feature numbers, the features one context version enables form a prefix |
| `Loader.VersionTestReadsBack` | glad/generator/d.py:217-219 | the numbers in a feature's version test read back as its major and minor version |
| `Loader.VersionTest41` | glad/generator/d.py:217-219 | the test for 4.1 holds at 4.2 and 5.0 and fails at 4.0 and 3.9 |
| `Loader.DGlUnit` | glad/generator/d.py:259-265 | the D umbrella unit is `module glad.gl;` then public imports of glfuncs, glext, glenums, gltypes in that order |
| `Loader.VoltGlUnit` | glad/generator/volt.py:18-22 | the Volt umbrella unit has the two-newline `module gl;` header, then public imports of funcs, ext, enums, types |

## Left out

- File and directory plumbing (`os.path.join`, `makefiledir`, `open`, `FILE_EXTENSION`) is not modelled. Each output file is the text it ends up holding.
- The runtime behaviour of the verbatim templates `GLAD_FUNCS` and `HAS_EXT` is not modelled; they are constant text.
- `Type.to_d()` and `to_volt()` are not modelled. A type carries both spellings as data.
- The parser's classes are not part of this model. Features, extensions, commands and enums are values, and two commands are the same object exactly when they are equal.
- The `Generator` base-class constructor and the unused `loaderfuncs` dictionary are not part of this model.
- The `api`, `version` and `types` parameters the drivers ignore are not modelled.
- `Generator.EmitStorage`: does not fix the order of the storage slots. The source walks a Python set, so only "each prototyped command once, nothing else" is stated.
- `Text.ParseInt`: accepts an optional `-` followed by ASCII digits only. Python's `int()` also accepts surrounding whitespace, a leading `+`, underscores between digits and non-ASCII Unicode decimal digits. None of these occur in registry values, and none would change the hex or suffixed cases.
- The extension driver's `enums` and `functions` parameters are taken as given. The model does not tie them to what the feature driver declared, because the source leaves that to its caller; the extension lemmas speak of the given lists.
- The type table is modelled in the order the source lists it, which is dict order from Python 3.7 on.
- `generate_features` keeps commands and enums in one `written` set. Commands and enums never compare equal, so the model keeps two sets.
- Each driver's looped sections are built by separate methods and then appended in source order. Nothing reads the file in between, so the file content is the same.
