/**
 * The global symbol tables `CheckedModules::new_generator` hands to the code
 * generator.  The function table starts as the builtin functions; then every
 * `Fn` definition of every module is inserted under (module name, function
 * name), a later insertion under the same key replacing the earlier entry.
 * The data-type table is built the same way from the builtin data types and
 * the `DataType` definitions.  No other kind of definition is entered.
 */
module SymbolTables {
  import opened Wrappers
  import opened Ast

  /** Definition `d` is a function named `name`. */
  predicate IsFunctionNamed(d: Definition, name: string) {
    d.Fn? && d.func.name == name
  }

  /** Definition `d` is a data type named `name`. */
  predicate IsDataTypeNamed(d: Definition, name: string) {
    d.DataType? && d.dataType.name == name
  }

  /**
   * The last function named `name` in `defs`: the entry left in the table
   * once every function of the module has been inserted in definition order.
   */
  function LastFunction(defs: seq<Definition>, name: string): (r: Option<TypedFunction>) {
    if defs == [] then None
    else if IsFunctionNamed(defs[|defs| - 1], name) then Some(defs[|defs| - 1].func)
    else LastFunction(defs[..|defs| - 1], name)
  }

  /** The last data type named `name` in `defs`. */
  function LastDataType(defs: seq<Definition>, name: string): (r: Option<TypedDataType>) {
    if defs == [] then None
    else if IsDataTypeNamed(defs[|defs| - 1], name) then Some(defs[|defs| - 1].dataType)
    else LastDataType(defs[..|defs| - 1], name)
  }

  /** `LastFunction` finds nothing exactly when no function has that name, and otherwise the one no later function shadows. */
  lemma {:induction false} LastFunctionSpec(defs: seq<Definition>, name: string)
    ensures var r := LastFunction(defs, name);
      && (r.None? <==> forall i :: 0 <= i < |defs| ==> !IsFunctionNamed(defs[i], name))
      && (r.Some? ==>
            && r.value.name == name
            && exists i :: 0 <= i < |defs| && defs[i] == Definition.Fn(r.value) &&
                 forall j :: i < j < |defs| ==> !IsFunctionNamed(defs[j], name))
  {
    if defs != [] {
      var n := |defs| - 1;
      LastFunctionSpec(defs[..n], name);
      assert forall i :: 0 <= i < n ==> defs[..n][i] == defs[i];
      if IsFunctionNamed(defs[n], name) {
        assert defs[n] == Definition.Fn(defs[n].func);
      }
    }
  }

  lemma {:induction false} LastDataTypeSpec(defs: seq<Definition>, name: string)
    ensures var r := LastDataType(defs, name);
      && (r.None? <==> forall i :: 0 <= i < |defs| ==> !IsDataTypeNamed(defs[i], name))
      && (r.Some? ==>
            && r.value.name == name
            && exists i :: 0 <= i < |defs| && defs[i] == Definition.DataType(r.value) &&
                 forall j :: i < j < |defs| ==> !IsDataTypeNamed(defs[j], name))
  {
    if defs != [] {
      var n := |defs| - 1;
      LastDataTypeSpec(defs[..n], name);
      assert forall i :: 0 <= i < n ==> defs[..n][i] == defs[i];
      if IsDataTypeNamed(defs[n], name) {
        assert defs[n] == Definition.DataType(defs[n].dataType);
      }
    }
  }

  /** The definition that `NewGenerator` reads for key `k`: the last function of that name in the module of that name. */
  ghost function UserFunction(modules: map<string, CheckedModule>, k: FunctionAccessKey): (r: Option<TypedFunction>) {
    if k.moduleName in modules then LastFunction(modules[k.moduleName].definitions, k.functionName) else None
  }

  ghost function UserDataType(modules: map<string, CheckedModule>, k: DataTypeKey): (r: Option<TypedDataType>) {
    if k.moduleName in modules then LastDataType(modules[k.moduleName].definitions, k.definedType) else None
  }

  /**
   * The function table after the modules stored under `done` are merged
   * into the builtins: the builtin keys plus the functions those modules
   * define, a module's own function replacing a builtin with the same key.
   */
  ghost predicate FunctionsMergedFrom(builtins: map<FunctionAccessKey, TypedFunction>, modules: map<string, CheckedModule>,
                                      done: set<string>, functions: map<FunctionAccessKey, TypedFunction>) {
    && (forall k :: k in functions <==> k in builtins || (k.moduleName in done && UserFunction(modules, k).Some?))
    && (forall k :: k in functions ==>
          functions[k] == if k.moduleName in done && UserFunction(modules, k).Some? then UserFunction(modules, k).value else builtins[k])
  }

  ghost predicate DataTypesMergedFrom(builtins: map<DataTypeKey, TypedDataType>, modules: map<string, CheckedModule>,
                                      done: set<string>, dataTypes: map<DataTypeKey, TypedDataType>) {
    && (forall k :: k in dataTypes <==> k in builtins || (k.moduleName in done && UserDataType(modules, k).Some?))
    && (forall k :: k in dataTypes ==>
          dataTypes[k] == if k.moduleName in done && UserDataType(modules, k).Some? then UserDataType(modules, k).value else builtins[k])
  }

  /** The function table once every module is merged. */
  ghost predicate IsMergedFunctions(builtins: map<FunctionAccessKey, TypedFunction>, modules: map<string, CheckedModule>,
                                    functions: map<FunctionAccessKey, TypedFunction>) {
    FunctionsMergedFrom(builtins, modules, modules.Keys, functions)
  }

  ghost predicate IsMergedDataTypes(builtins: map<DataTypeKey, TypedDataType>, modules: map<string, CheckedModule>,
                                    dataTypes: map<DataTypeKey, TypedDataType>) {
    DataTypesMergedFrom(builtins, modules, modules.Keys, dataTypes)
  }

  /** `module_src`: one entry per module, keyed by its name, holding its source text. */
  ghost predicate IsModuleSources(modules: map<string, CheckedModule>, sources: map<string, string>) {
    && (forall n :: n in sources <==> n in modules)
    && (forall n :: n in sources ==> sources[n] == modules[n].code)
  }

  /** The function table after inserting the functions of `defs` under module name `name` into `before`. */
  ghost predicate FunctionsOverlaid(before: map<FunctionAccessKey, TypedFunction>, name: string, defs: seq<Definition>,
                                    functions: map<FunctionAccessKey, TypedFunction>) {
    && (forall k :: k in functions <==> k in before || (k.moduleName == name && LastFunction(defs, k.functionName).Some?))
    && (forall k :: k in functions ==>
          functions[k] == if k.moduleName == name && LastFunction(defs, k.functionName).Some?
                          then LastFunction(defs, k.functionName).value else before[k])
  }

  ghost predicate DataTypesOverlaid(before: map<DataTypeKey, TypedDataType>, name: string, defs: seq<Definition>,
                                    dataTypes: map<DataTypeKey, TypedDataType>) {
    && (forall k :: k in dataTypes <==> k in before || (k.moduleName == name && LastDataType(defs, k.definedType).Some?))
    && (forall k :: k in dataTypes ==>
          dataTypes[k] == if k.moduleName == name && LastDataType(defs, k.definedType).Some?
                          then LastDataType(defs, k.definedType).value else before[k])
  }

  /** One step of the definition loop: a function is inserted, overwriting its key; anything else leaves the table. */
  lemma FunctionStep(before: map<FunctionAccessKey, TypedFunction>, name: string, defs: seq<Definition>,
                     functions: map<FunctionAccessKey, TypedFunction>, d: Definition)
    requires FunctionsOverlaid(before, name, defs, functions)
    ensures FunctionsOverlaid(before, name, defs + [d],
              if d.Fn? then functions[FunctionAccessKey(name, d.func.name) := d.func] else functions)
  {
    assert (defs + [d])[..|defs|] == defs;
  }

  lemma DataTypeStep(before: map<DataTypeKey, TypedDataType>, name: string, defs: seq<Definition>,
                     dataTypes: map<DataTypeKey, TypedDataType>, d: Definition)
    requires DataTypesOverlaid(before, name, defs, dataTypes)
    ensures DataTypesOverlaid(before, name, defs + [d],
              if d.DataType? then dataTypes[DataTypeKey(name, d.dataType.name) := d.dataType] else dataTypes)
  {
    assert (defs + [d])[..|defs|] == defs;
  }

  /** One step of the module loop: overlaying the module under `key` extends the merged tables to it. */
  lemma ModuleStep(fnBuiltins: map<FunctionAccessKey, TypedFunction>, dtBuiltins: map<DataTypeKey, TypedDataType>,
                   modules: map<string, CheckedModule>, done: set<string>, key: string,
                   fnBefore: map<FunctionAccessKey, TypedFunction>, fnAfter: map<FunctionAccessKey, TypedFunction>,
                   dtBefore: map<DataTypeKey, TypedDataType>, dtAfter: map<DataTypeKey, TypedDataType>)
    requires KeyedByName(modules) && key in modules && key !in done
    requires FunctionsMergedFrom(fnBuiltins, modules, done, fnBefore)
    requires FunctionsOverlaid(fnBefore, key, modules[key].definitions, fnAfter)
    requires DataTypesMergedFrom(dtBuiltins, modules, done, dtBefore)
    requires DataTypesOverlaid(dtBefore, key, modules[key].definitions, dtAfter)
    ensures FunctionsMergedFrom(fnBuiltins, modules, done + {key}, fnAfter)
    ensures DataTypesMergedFrom(dtBuiltins, modules, done + {key}, dtAfter)
  {
  }

  /** `functions` is a copy of the builtin table: the first loop of `new_generator`. */
  lemma BuiltinsAreMergedFromNothing(fnBuiltins: map<FunctionAccessKey, TypedFunction>, dtBuiltins: map<DataTypeKey, TypedDataType>,
                                     modules: map<string, CheckedModule>)
    ensures FunctionsMergedFrom(fnBuiltins, modules, {}, fnBuiltins)
    ensures DataTypesMergedFrom(dtBuiltins, modules, {}, dtBuiltins)
  {
  }

  /** The merged tables do not depend on the order in which the modules are visited. */
  lemma MergedTablesUnique(fnBuiltins: map<FunctionAccessKey, TypedFunction>, dtBuiltins: map<DataTypeKey, TypedDataType>,
                           modules: map<string, CheckedModule>,
                           f1: map<FunctionAccessKey, TypedFunction>, f2: map<FunctionAccessKey, TypedFunction>,
                           d1: map<DataTypeKey, TypedDataType>, d2: map<DataTypeKey, TypedDataType>)
    requires IsMergedFunctions(fnBuiltins, modules, f1) && IsMergedFunctions(fnBuiltins, modules, f2)
    requires IsMergedDataTypes(dtBuiltins, modules, d1) && IsMergedDataTypes(dtBuiltins, modules, d2)
    ensures f1 == f2 && d1 == d2
  {
    assert f1.Keys == f2.Keys;
    assert d1.Keys == d2.Keys;
  }

  /**
   * A function a module defines is what the table holds under its key, even
   * when a builtin has the same key, provided no later function of the module
   * has the same name.
   */
  lemma UserFunctionWins(builtins: map<FunctionAccessKey, TypedFunction>, modules: map<string, CheckedModule>,
                         functions: map<FunctionAccessKey, TypedFunction>, name: string, i: nat)
    requires IsMergedFunctions(builtins, modules, functions) && name in modules
    requires var defs := modules[name].definitions;
      i < |defs| && defs[i].Fn? && forall j :: i < j < |defs| ==> !IsFunctionNamed(defs[j], defs[i].func.name)
    ensures var f := modules[name].definitions[i].func;
      FunctionAccessKey(name, f.name) in functions && functions[FunctionAccessKey(name, f.name)] == f
  {
    var defs := modules[name].definitions;
    var f := defs[i].func;
    var r := LastFunction(defs, f.name);
    LastFunctionSpec(defs, f.name);
    assert IsFunctionNamed(defs[i], f.name);
    var i' :| 0 <= i' < |defs| && defs[i'] == Definition.Fn(r.value) &&
              forall j :: i' < j < |defs| ==> !IsFunctionNamed(defs[j], f.name);
    assert !(i < i') && !(i' < i);
  }

  lemma UserDataTypeWins(builtins: map<DataTypeKey, TypedDataType>, modules: map<string, CheckedModule>,
                         dataTypes: map<DataTypeKey, TypedDataType>, name: string, i: nat)
    requires IsMergedDataTypes(builtins, modules, dataTypes) && name in modules
    requires var defs := modules[name].definitions;
      i < |defs| && defs[i].DataType? && forall j :: i < j < |defs| ==> !IsDataTypeNamed(defs[j], defs[i].dataType.name)
    ensures var dt := modules[name].definitions[i].dataType;
      DataTypeKey(name, dt.name) in dataTypes && dataTypes[DataTypeKey(name, dt.name)] == dt
  {
    var defs := modules[name].definitions;
    var dt := defs[i].dataType;
    var r := LastDataType(defs, dt.name);
    LastDataTypeSpec(defs, dt.name);
    assert IsDataTypeNamed(defs[i], dt.name);
    var i' :| 0 <= i' < |defs| && defs[i'] == Definition.DataType(r.value) &&
              forall j :: i' < j < |defs| ==> !IsDataTypeNamed(defs[j], dt.name);
    assert !(i < i') && !(i' < i);
  }

  /** A builtin stays in the table, unchanged, unless a module defines a function under the same key. */
  lemma BuiltinFunctionKept(builtins: map<FunctionAccessKey, TypedFunction>, modules: map<string, CheckedModule>,
                            functions: map<FunctionAccessKey, TypedFunction>, k: FunctionAccessKey)
    requires IsMergedFunctions(builtins, modules, functions) && k in builtins
    requires k.moduleName in modules ==> forall d :: d in modules[k.moduleName].definitions ==> !IsFunctionNamed(d, k.functionName)
    ensures k in functions && functions[k] == builtins[k]
  {
    if k.moduleName in modules {
      var defs := modules[k.moduleName].definitions;
      LastFunctionSpec(defs, k.functionName);
      assert forall i :: 0 <= i < |defs| ==> defs[i] in defs;
    }
  }

  lemma BuiltinDataTypeKept(builtins: map<DataTypeKey, TypedDataType>, modules: map<string, CheckedModule>,
                            dataTypes: map<DataTypeKey, TypedDataType>, k: DataTypeKey)
    requires IsMergedDataTypes(builtins, modules, dataTypes) && k in builtins
    requires k.moduleName in modules ==> forall d :: d in modules[k.moduleName].definitions ==> !IsDataTypeNamed(d, k.definedType)
    ensures k in dataTypes && dataTypes[k] == builtins[k]
  {
    if k.moduleName in modules {
      var defs := modules[k.moduleName].definitions;
      LastDataTypeSpec(defs, k.definedType);
      assert forall i :: 0 <= i < |defs| ==> defs[i] in defs;
    }
  }

  /** Type aliases, constants, tests, validators and imports are not entered in either table. */
  predicate IsSymbolDefinition(d: Definition) {
    d.Fn? || d.DataType?
  }

  lemma {:induction false} OtherDefinitionIgnored(defs: seq<Definition>, i: nat, d: Definition, name: string)
    requires i <= |defs| && !IsSymbolDefinition(d)
    ensures LastFunction(defs[..i] + [d] + defs[i..], name) == LastFunction(defs, name)
    ensures LastDataType(defs[..i] + [d] + defs[i..], name) == LastDataType(defs, name)
    decreases |defs|
  {
    var x := defs[..i] + [d] + defs[i..];
    if i == |defs| {
      assert x[..|x| - 1] == defs;
    } else {
      var n := |defs| - 1;
      OtherDefinitionIgnored(defs[..n], i, d, name);
      assert x[..|x| - 1] == defs[..n][..i] + [d] + defs[..n][i..];
      assert x[|x| - 1] == defs[n];
    }
  }

  /** Adding a non-symbol definition to a module changes neither merged table. */
  lemma OtherDefinitionsAddNothing(fnBuiltins: map<FunctionAccessKey, TypedFunction>, dtBuiltins: map<DataTypeKey, TypedDataType>,
                                   modules: map<string, CheckedModule>, key: string, i: nat, d: Definition,
                                   functions: map<FunctionAccessKey, TypedFunction>, dataTypes: map<DataTypeKey, TypedDataType>)
    requires key in modules && i <= |modules[key].definitions| && !IsSymbolDefinition(d)
    ensures var defs := modules[key].definitions;
      var modules' := modules[key := modules[key].(definitions := defs[..i] + [d] + defs[i..])];
      && (IsMergedFunctions(fnBuiltins, modules, functions) <==> IsMergedFunctions(fnBuiltins, modules', functions))
      && (IsMergedDataTypes(dtBuiltins, modules, dataTypes) <==> IsMergedDataTypes(dtBuiltins, modules', dataTypes))
  {
    var defs := modules[key].definitions;
    var modules' := modules[key := modules[key].(definitions := defs[..i] + [d] + defs[i..])];
    forall k: FunctionAccessKey ensures UserFunction(modules, k) == UserFunction(modules', k) {
      OtherDefinitionIgnored(defs, i, d, k.functionName);
    }
    SameUserFunctions(fnBuiltins, modules, modules', functions);
    forall k: DataTypeKey ensures UserDataType(modules, k) == UserDataType(modules', k) {
      OtherDefinitionIgnored(defs, i, d, k.definedType);
    }
    SameUserDataTypes(dtBuiltins, modules, modules', dataTypes);
  }

  lemma SameUserFunctions(builtins: map<FunctionAccessKey, TypedFunction>, modules: map<string, CheckedModule>,
                          modules': map<string, CheckedModule>, functions: map<FunctionAccessKey, TypedFunction>)
    requires modules.Keys == modules'.Keys
    requires forall k :: UserFunction(modules, k) == UserFunction(modules', k)
    ensures IsMergedFunctions(builtins, modules, functions) <==> IsMergedFunctions(builtins, modules', functions)
  {
  }

  lemma SameUserDataTypes(builtins: map<DataTypeKey, TypedDataType>, modules: map<string, CheckedModule>,
                          modules': map<string, CheckedModule>, dataTypes: map<DataTypeKey, TypedDataType>)
    requires modules.Keys == modules'.Keys
    requires forall k :: UserDataType(modules, k) == UserDataType(modules', k)
    ensures IsMergedDataTypes(builtins, modules, dataTypes) <==> IsMergedDataTypes(builtins, modules', dataTypes)
  {
  }

  /** The builtin-copy loop of `new_generator`: inserting every entry of a table into an empty one copies it. */
  method CopyTable<K, V>(table: map<K, V>) returns (copy: map<K, V>)
    ensures copy == table
  {
    copy := map[];
    var rest := table.Keys;
    while rest != {}
      invariant rest <= table.Keys
      invariant forall k :: k in copy <==> k in table && k !in rest
      invariant forall k :: k in copy ==> copy[k] == table[k]
      decreases rest
    {
      var k :| k in rest;
      copy := copy[k := table[k]];
      rest := rest - {k};
    }
  }
}
