/**
 * `CheckedModules`: the type-checked modules of a project, keyed by module
 * name, and the three queries the build runs over them.
 */
module CheckedStore {
  import opened Ast
  import opened ValidatorEnumeration
  import opened SymbolTables

  /**
   * What `new_generator` hands to the code generator: the merged function
   * and data-type tables and the source text of every module.
   */
  datatype GeneratorTables = GeneratorTables(
    functions: map<FunctionAccessKey, TypedFunction>,
    dataTypes: map<DataTypeKey, TypedDataType>,
    moduleSources: map<string, string>)

  class CheckedModules {
    var modules: map<string, CheckedModule>

    /** Every module is stored under its own name. */
    ghost predicate Valid()
      reads this
    {
      KeyedByName(modules)
    }

    /** `CheckedModules::default()`: no modules. */
    constructor ()
      ensures modules == map[] && Valid()
    {
      modules := map[];
    }

    /** The map's `insert`, used as the project uses it: under the module's own name. */
    method Insert(checked: CheckedModule)
      requires Valid()
      modifies this
      ensures Valid() && modules == old(modules)[checked.name := checked]
    {
      modules := modules[checked.name := checked];
    }

    /** `singleton`: a new store holding just `checked`, under its name. */
    static method Singleton(checked: CheckedModule) returns (store: CheckedModules)
      ensures fresh(store) && store.Valid() && store.modules == map[checked.name := checked]
    {
      store := new CheckedModules();
      store.Insert(checked);
    }

    /**
     * `validators`: every validator definition of every validator module,
     * with its module, sorted by (package, module name, handler name).
     */
    method Validators() returns (items: seq<Item>)
      requires Valid()
      ensures IsEnumeration(modules, items)
    {
      var all := modules;
      var collected: seq<Item> := [];
      var rest := all.Keys;
      ghost var done: set<string> := {};
      while rest != {}
        invariant done + rest == all.Keys && done !! rest
        invariant CollectedFrom(all, done, collected)
        decreases rest
      {
        var key :| key in rest;
        var m := all[key];
        ghost var before := collected;
        if m.kind.IsValidator() {
          var found := CollectModule(m);
          collected := collected + found;
        }
        CollectStep(all, done, before, key);
        done, rest := done + {key}, rest - {key};
      }
      SortedCollectionIsEnumeration(all, collected);
      items := SortByKey(collected);
    }

    /** The inner loop of `validators`: the validator definitions of `m`, each paired with `m`, in definition order. */
    static method CollectModule(m: CheckedModule) returns (found: seq<Item>)
      ensures found == ModuleItems(m, m.definitions)
    {
      found := [];
      var defs := m.definitions;
      var i := 0;
      while i < |defs|
        invariant 0 <= i <= |defs|
        invariant found == ModuleItems(m, defs[..i])
      {
        assert defs[..i + 1][..i] == defs[..i];
        if defs[i].Validator? {
          found := found + [(m, defs[i].validator)];
        }
        i := i + 1;
      }
      assert defs[..i] == defs;
    }

    /** `into_validators`: the modules of validator kind. */
    function IntoValidators(): (r: set<CheckedModule>)
      reads this
      ensures forall k :: k in modules ==> (modules[k] in r <==> modules[k].kind.IsValidator())
      ensures forall m :: m in r ==> m.kind.IsValidator() && m in modules.Values
    {
      set k | k in modules && modules[k].kind.IsValidator() :: modules[k]
    }

    /**
     * The two validator queries agree: every enumerated validator belongs to
     * a module `into_validators` yields, and every validator definition of
     * such a module is enumerated.
     */
    lemma ValidatorsOfValidatorModules(items: seq<Item>)
      requires Valid() && IsEnumeration(modules, items)
      ensures forall x :: x in items ==> x.0 in IntoValidators()
      ensures forall m, v :: m in IntoValidators() && Definition.Validator(v) in m.definitions ==> (m, v) in items
    {
      forall x | x in items ensures x.0 in IntoValidators() {
        EnumerationMembers(modules, items, x.0, x.1);
      }
      forall m, v | m in IntoValidators() && Definition.Validator(v) in m.definitions ensures (m, v) in items {
        EnumerationMembers(modules, items, m, v);
      }
    }

    /** The definition loop of `new_generator`: a module's functions and data types inserted in definition order. */
    static method OverlayModule(m: CheckedModule, functions: map<FunctionAccessKey, TypedFunction>,
                                dataTypes: map<DataTypeKey, TypedDataType>)
      returns (functions': map<FunctionAccessKey, TypedFunction>, dataTypes': map<DataTypeKey, TypedDataType>)
      ensures FunctionsOverlaid(functions, m.name, m.definitions, functions')
      ensures DataTypesOverlaid(dataTypes, m.name, m.definitions, dataTypes')
    {
      functions', dataTypes' := functions, dataTypes;
      var defs := m.definitions;
      assert defs[..0] == [];
      var i := 0;
      while i < |defs|
        invariant 0 <= i <= |defs|
        invariant FunctionsOverlaid(functions, m.name, defs[..i], functions')
        invariant DataTypesOverlaid(dataTypes, m.name, defs[..i], dataTypes')
      {
        FunctionStep(functions, m.name, defs[..i], functions', defs[i]);
        DataTypeStep(dataTypes, m.name, defs[..i], dataTypes', defs[i]);
        assert defs[..i + 1] == defs[..i] + [defs[i]];
        match defs[i] {
          case Fn(func) =>
            functions' := functions'[FunctionAccessKey(m.name, func.name) := func];
          case DataType(dt) =>
            dataTypes' := dataTypes'[DataTypeKey(m.name, dt.name) := dt];
          case TypeAlias(_) | ModuleConstant(_) | Test(_) | Validator(_) | Use(_) =>
        }
        i := i + 1;
      }
      assert defs[..i] == defs;
    }

    /**
     * The symbol-table part of `new_generator`: the builtin tables overlaid
     * with every module's functions and data types, and each module's source.
     */
    method NewGenerator(builtinFunctions: map<FunctionAccessKey, TypedFunction>,
                        builtinDataTypes: map<DataTypeKey, TypedDataType>)
      returns (tables: GeneratorTables)
      requires Valid()
      ensures IsMergedFunctions(builtinFunctions, modules, tables.functions)
      ensures IsMergedDataTypes(builtinDataTypes, modules, tables.dataTypes)
      ensures IsModuleSources(modules, tables.moduleSources)
    {
      var all := modules;
      var functions := CopyTable(builtinFunctions);
      var dataTypes := CopyTable(builtinDataTypes);
      var moduleSources: map<string, string> := map[];
      BuiltinsAreMergedFromNothing(builtinFunctions, builtinDataTypes, all);
      var rest := all.Keys;
      ghost var done: set<string> := {};
      while rest != {}
        invariant done + rest == all.Keys && done !! rest
        invariant FunctionsMergedFrom(builtinFunctions, all, done, functions)
        invariant DataTypesMergedFrom(builtinDataTypes, all, done, dataTypes)
        invariant IsModuleSources(all - rest, moduleSources)
        decreases rest
      {
        var key :| key in rest;
        var m := all[key];
        ghost var fnBefore, dtBefore := functions, dataTypes;
        functions, dataTypes := OverlayModule(m, functions, dataTypes);
        ModuleStep(builtinFunctions, builtinDataTypes, all, done, key, fnBefore, functions, dtBefore, dataTypes);
        moduleSources := moduleSources[m.name := m.code];
        done, rest := done + {key}, rest - {key};
      }
      assert all - rest == all;
      tables := GeneratorTables(functions, dataTypes, moduleSources);
    }
  }
}
