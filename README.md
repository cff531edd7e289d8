# Module sequencing and aggregation of the Aiken project builder

This project models the layer of Aiken's project builder that sits between
the parser and the code generator.

- **`ParsedModules`** is the set of parsed modules of a package, keyed by
  module name. `sequence` orders the modules so that every module comes after
  the modules of the set it imports, which is the order type checking needs.
  When the imports are circular, `sequence` fails with `ImportCycle`, naming
  one concrete cycle found by the depth-first search `find_cycle`.
- **`CheckedModules`** is the set of type-checked modules. It answers three
  queries:
  - `validators`: every validator with its module, sorted by package, module
    name and handler name;
  - `into_validators`: the validator modules;
  - `new_generator`: the global function and data-type tables and the module
    sources that the code generator starts from.

Modules of the Dafny project:

| file | module | contents |
|---|---|---|
| `wrappers.dfy` | `Wrappers` | `Option` and `Result` |
| `ast.dfy` | `Ast` | the parsed and checked module records, and the top-level `Definition` variants |
| `graphs.dfy` | `ImportGraphs` | the graph object, with node and edge insertion, and a topological sort that names a node on a cycle when it fails |
| `sequencing.dfy` | `Sequencing` | `deps_for_graph`, `sequence` and `find_cycle`, with their specifications and lemmas |
| `string_order.dfy` | `StringOrder` | the ordering of Rust `String`s (lexicographic by code point, which is UTF-8 byte order) as a total order |
| `validator_order.dfy` | `ValidatorEnumeration` | the sort key of `validators`, a stable sort, and what the enumeration is |
| `symbols.dfy` | `SymbolTables` | what the merged symbol tables contain |
| `checked_modules.dfy` | `CheckedStore` | the `CheckedModules` class and its operations |

Design choices:

- **Hash-map iteration order.** Rust does not specify it. Every loop over a
  map picks its next key arbitrarily (`var key :| key in rest`), and every
  contract holds whatever order is picked. For `validators`
  (`ValidatorEnumeration.EnumerationUnique`) and the symbol tables
  (`SymbolTables.MergedTablesUnique`), a uniqueness lemma shows that the
  result does not depend on the order. `sequence` may return any order its
  contract allows, as the source may: its node numbering follows the map's
  iteration order.
- **The graph library.**
  - `ImportGraph` models `petgraph`'s `Graph` through its adjacency lists.
  - `add_edge` puts the new edge first, because petgraph's
    `neighbors_directed` yields the edge added last first. That order decides
    which cycle `find_cycle` finds.
  - `algo::toposort` is replaced by `ImportGraphs.TopoSort`, a sort with the
    contract petgraph documents: on success a topological order, on failure a
    node that lies on a cycle.
- **Mutable arguments.** `find_cycle`'s `&mut path` and `&mut seen` are passed
  in and returned.
- **Dependencies.** `ParsedModule.dependencies` stands for
  `ast.dependencies()`, and `CheckedModule.definitions` for
  `ast.definitions()`.
- **`ModuleKind`.** It comes from the language crate. It has the two variants
  `Lib` and `Validator`, and `is_validator` is the second.

## Model

| member | source | states |
|---|---|---|
| Sequencing.DepsForGraph | crates/aiken-project/src/module.rs:33-44 | the pair holds the module's name and one name per dependency; a name is listed exactly when some dependency imports that module (spans dropped) |
| Sequencing.DepsForGraphAppend | crates/aiken-project/src/module.rs:35-40 | the names of a concatenated import list are the concatenation of the names of its parts, so added imports only add names at the end |
| Sequencing.CollectInputs | crates/aiken-project/src/module.rs:51-55 | one `deps_for_graph` entry per parsed module; the entry names are distinct and are exactly the keys of the set |
| Sequencing.AddNodes | crates/aiken-project/src/module.rs:65-71 | one edgeless node per entry, numbered in entry order; `indices` and `values` are mutually inverse name/index tables |
| Sequencing.AddEdges | crates/aiken-project/src/module.rs:73-81 | there is an edge i -> j exactly when module i imports module j; imports of names that are not nodes add nothing |
| Sequencing.BuildGraph | crates/aiken-project/src/module.rs:51-81 | the graph mirrors the import relation between modules of the set, and `values` names each node |
| ImportGraphs.ImportGraph.constructor | crates/aiken-project/src/module.rs:59 | a new graph has no nodes (capacity hints have no observable effect) |
| ImportGraphs.ImportGraph.AddNode | crates/aiken-project/src/module.rs:66 | the new node is numbered after the existing ones and has no edges |
| ImportGraphs.ImportGraph.AddEdge | crates/aiken-project/src/module.rs:78 | the new edge becomes the first outgoing edge its source visits; nothing else changes |
| ImportGraphs.TopoSort | crates/aiken-project/src/module.rs:83 | success gives every node once, with each edge pointing forwards; failure gives a node that lies on a closed walk |
| Sequencing.TakeNames | crates/aiken-project/src/module.rs:85-89 | `filter_map(values.remove)` in order: the names of the listed indices still in the table, each taken once |
| Sequencing.TakenDistinct | crates/aiken-project/src/module.rs:85-89 | over distinct indices that all have names, the result has one name per index, in order |
| Sequencing.ReversedInvolutive | crates/aiken-project/src/module.rs:88 | `.rev()` applied twice gives the order back |
| Sequencing.ReversedSameItems | crates/aiken-project/src/module.rs:88 | `.rev()` keeps every index with its multiplicity |
| Sequencing.FindCycle | crates/aiken-project/src/module.rs:137-165 | `parent` is marked seen. On success the path gains a suffix that starts at the origin and walks back along edges to `parent`, through distinct nodes not seen before. On failure the path is unchanged and every node the search marked has only seen, non-origin successors. A first edge back to the origin appends just the origin. On success the branch taken is the first neighbour, in the graph's edge order, that is the origin or leads back to it: every earlier neighbour is not the origin and was already seen |
| Sequencing.CyclePathFromOrigin | crates/aiken-project/src/module.rs:98 | a path found from the origin with an empty `seen` is a simple cycle: distinct nodes, and the origin has an edge to the last one |
| Sequencing.SearchFromCycleSucceeds | crates/aiken-project/src/module.rs:93-98 | from a node on a cycle the search cannot fail, so the reported path is never empty |
| Sequencing.EscapeFrom | crates/aiken-project/src/module.rs:137-165 | a closed walk through the origin leaves any set of nodes containing the origin, or re-enters the origin from it |
| Sequencing.SequenceFromOrder | crates/aiken-project/src/module.rs:84-91 | the reversed topological order, read as names, is a compilation sequence |
| Sequencing.SequenceExcludesCycle | crates/aiken-project/src/module.rs:84-91 | a set that has a compilation sequence has no import cycle |
| Sequencing.ReportFromPath | crates/aiken-project/src/module.rs:93-106 | the names along the found cycle path form an import-cycle report |
| Sequencing.SelfLoopOrigin | crates/aiken-project/src/module.rs:146-150 | if m imports itself and every import between modules of the set is an import of m, the failing node is m and its first edge is the self-loop |
| Sequencing.Sequence | crates/aiken-project/src/module.rs:50-108 | success lists every module exactly once, after every module of the set it imports. Failure reports distinct modules, each imported by the next, with the first importing the last. It fails exactly when the imports are circular. When m imports itself and every import between modules of the set is an import of m, the result is `ImportCycle([m])`; because every failure is a cycle report, the same follows whenever `[m]` is the only cycle report |
| Sequencing.DanglingImportsIgnored | crates/aiken-project/src/module.rs:75 | adding imports of modules outside the set changes neither the import relation nor which sequences and cycle reports are valid |
| CheckedStore.CheckedModules.constructor | crates/aiken-project/src/module.rs:317 | a new store is empty |
| CheckedStore.CheckedModules.Insert | crates/aiken-project/src/module.rs:318 | the module is stored under its name, replacing any earlier entry; nothing else changes |
| CheckedStore.CheckedModules.Singleton | crates/aiken-project/src/module.rs:316-320 | a fresh store holding exactly the given module, under its name |
| CheckedStore.CheckedModules.CollectModule | crates/aiken-project/src/module.rs:326-330 | the module's validator definitions, each paired with the module, in definition order |
| ValidatorEnumeration.ModuleItemsCount | crates/aiken-project/src/module.rs:326-330 | the inner loop yields `(m, v)` once per copy of `Validator(v)` among m's definitions, and never yields another module |
| ValidatorEnumeration.KeyLeTransitive | crates/aiken-project/src/module.rs:333-344 | comparing (package, module name, handler name) tuples is transitive |
| ValidatorEnumeration.KeyLeTotal | crates/aiken-project/src/module.rs:333-344 | any two keys are comparable |
| ValidatorEnumeration.KeyLeAntisymmetric | crates/aiken-project/src/module.rs:333-344 | keys that compare both ways are equal |
| StringOrder.StrLeTransitive | crates/aiken-project/src/module.rs:335-341 | the `String` order is transitive |
| StringOrder.StrLeTotal | crates/aiken-project/src/module.rs:335-341 | any two strings are comparable |
| StringOrder.StrLeAntisymmetric | crates/aiken-project/src/module.rs:335-341 | strings that compare both ways are equal |
| ValidatorEnumeration.InsertByKey | crates/aiken-project/src/module.rs:333-344 | inserting into a sorted sequence keeps it sorted, adds exactly the item, and puts it after every item with the same key |
| ValidatorEnumeration.SortByKey | crates/aiken-project/src/module.rs:333-344 | a stable sort: the output is sorted by key, is a permutation of the input, and keeps the input order among items with equal keys |
| ValidatorEnumeration.SortedUnique | crates/aiken-project/src/module.rs:333-344 | two sorted sequences with the same items and the same order within each key are equal |
| ValidatorEnumeration.SortedCollectionIsEnumeration | crates/aiken-project/src/module.rs:322-347 | sorting what the collection loop gathered from all modules gives the enumeration |
| CheckedStore.CheckedModules.Validators | crates/aiken-project/src/module.rs:322-347 | the result is sorted by (package, module name, handler name). It holds each validator definition of each validator module as often as it occurs, and nothing else. Items with equal keys keep their definition order |
| ValidatorEnumeration.EnumerationUnique | crates/aiken-project/src/module.rs:322-347 | the enumeration does not depend on the order in which the modules are visited |
| ValidatorEnumeration.EnumerationMembers | crates/aiken-project/src/module.rs:322-331 | `(m, v)` is enumerated exactly when m is a stored validator module with validator definition v |
| CheckedStore.CheckedModules.IntoValidators | crates/aiken-project/src/module.rs:349-353 | a stored module is yielded exactly when it is of validator kind, and only stored modules are yielded |
| CheckedStore.CheckedModules.ValidatorsOfValidatorModules | crates/aiken-project/src/module.rs:322-353 | every enumerated validator belongs to a module `into_validators` yields, and every validator definition of such a module is enumerated |
| SymbolTables.CopyTable | crates/aiken-project/src/module.rs:362-370 | copying a builtin table entry by entry gives the same table |
| SymbolTables.LastFunctionSpec | crates/aiken-project/src/module.rs:379-387 | in-order insertion leaves no entry exactly when no function has that name, and otherwise the function no later same-named function shadows |
| SymbolTables.LastDataTypeSpec | crates/aiken-project/src/module.rs:389-397 | the same for data types |
| CheckedStore.CheckedModules.OverlayModule | crates/aiken-project/src/module.rs:376-405 | a module's pass updates only keys under its own name, and each to the last same-named function or data type; other keys keep their entries |
| SymbolTables.ModuleStep | crates/aiken-project/src/module.rs:376-405 | after one more module's pass, the tables are the builtins overlaid with the definitions of the modules visited so far |
| SymbolTables.BuiltinsAreMergedFromNothing | crates/aiken-project/src/module.rs:362-370 | before any module is visited the tables are the builtin tables |
| CheckedStore.CheckedModules.NewGenerator | crates/aiken-project/src/module.rs:355-422 | the function table holds the builtin keys plus one key per module function, a module entry replacing a builtin entry with the same key. Likewise for data types. The sources hold exactly one entry per module, its code |
| SymbolTables.MergedTablesUnique | crates/aiken-project/src/module.rs:376-405 | the merged tables do not depend on the order in which modules are visited |
| SymbolTables.UserFunctionWins | crates/aiken-project/src/module.rs:379-387 | a module function with no later same-named function is the table entry under (module, name), overriding any builtin |
| SymbolTables.UserDataTypeWins | crates/aiken-project/src/module.rs:389-397 | the same for data types |
| SymbolTables.BuiltinFunctionKept | crates/aiken-project/src/module.rs:362-366 | a builtin function that no module redefines stays in the table unchanged |
| SymbolTables.BuiltinDataTypeKept | crates/aiken-project/src/module.rs:367-370 | the same for data types |
| SymbolTables.OtherDefinitionIgnored | crates/aiken-project/src/module.rs:399-403 | inserting an alias, constant, test, validator or `use` anywhere among the definitions changes no lookup |
| SymbolTables.OtherDefinitionsAddNothing | crates/aiken-project/src/module.rs:399-403 | adding such a definition to a module leaves the set of valid merged tables unchanged |

## Left out

- `attach_doc_and_module_comments` (module.rs:183-291) is not modelled. It rewrites doc comments inside the syntax trees, which Ast does not model.
- `CheckedModule::find_node` (module.rs:179-181) is not modelled. It delegates to the typed syntax tree.
- The `From`, `Deref` and `DerefMut` conversions are not modelled. They are plumbing with no logic. `CheckedModules.modules` is read directly.
- `new_generator` runs `CodeGenerator::new`, builds `LineNumbers`, copies `module_types` and computes `tracing.trace_level`. None of these are modelled. They belong to code-generator internals that are not part of this model. `new_generator` is modelled up to the tables it passes on.
- The `println!` calls in `new_generator` are not modelled (console output).
- `IndexMap` insertion order is not modelled; the tables are Dafny `map`s. Insertion order does not change which key maps to which value, and that mapping is what the contracts state.
- Hash-map iteration order is abstracted as an arbitrary choice, as described above.
- ImportGraphs.TopoSort: petgraph's toposort is a depth-first algorithm. The model's sort makes the same promise, but on graphs with several valid orders it may return a different order or a different cycle node. Both are still correct.
- Sequencing.Sequence: requires every parsed module to be stored under its own name (`NamesAreKeys`). The project builds the map that way. Two modules with the same name under different keys are not covered.
- CheckedStore.CheckedModules.Validators: requires `Valid()` (each module stored under its own name), for the same reason. The stable order among items with equal keys is stated per key, not as an explicit original index.
- CheckedStore.CheckedModules.NewGenerator: requires `Valid()`, as above. `module_src` is keyed by `module.name`, which is then the map key.
- CheckedStore.CheckedModules.IntoValidators: returns a set. It does not capture the multiplicity or order of the iterator, which the map's value order leaves unspecified.
- SymbolTables.UserFunctionWins: stated only for a function that no later same-named function of the same module shadows. LastFunctionSpec covers the general case.
