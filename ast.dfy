/**
 * The records the sequencing and aggregation layer works on: parsed and
 * checked modules and the top-level definitions of a typed module.  Only the
 * parts of each record that the layer reads are kept; the syntax trees
 * themselves belong to the parser and the type checker.
 */
module Ast {
  import opened Wrappers

  /** Byte range of a piece of source text. */
  datatype Span = Span(start: nat, end: nat)

  /** One entry of `UntypedModule::dependencies()`: an imported module name and where it is imported. */
  datatype Dependency = Dependency(moduleName: string, location: Span)

  datatype ModuleKind = Lib | Validator
  {
    predicate IsValidator() { this == ModuleKind.Validator }
  }

  /** A module before type checking; `dependencies` stands for `ast.dependencies()`. */
  datatype ParsedModule = ParsedModule(
    path: string,
    name: string,
    code: string,
    kind: ModuleKind,
    package: string,
    dependencies: seq<Dependency>)

  datatype TypedFunction = TypedFunction(name: string, arguments: seq<string>, public: bool)

  datatype TypedDataType = TypedDataType(name: string, constructors: seq<string>, public: bool)

  /** A validator block: its parameters, its main handler and an optional second handler. */
  datatype TypedValidator = TypedValidator(params: seq<string>, fun: TypedFunction, otherFun: Option<TypedFunction>)

  /** The top-level definitions of a typed module, one constructor per `Definition` variant. */
  datatype Definition =
    | Fn(func: TypedFunction)
    | DataType(dataType: TypedDataType)
    | TypeAlias(alias: string)
    | ModuleConstant(constant: string)
    | Test(test: TypedFunction)
    | Validator(validator: TypedValidator)
    | Use(usedModule: string)

  /** A module after type checking; `definitions` stands for `ast.definitions()`. */
  datatype CheckedModule = CheckedModule(
    name: string,
    code: string,
    inputPath: string,
    kind: ModuleKind,
    package: string,
    definitions: seq<Definition>)

  /** Key of a function in the global symbol table: defining module and local name. */
  datatype FunctionAccessKey = FunctionAccessKey(moduleName: string, functionName: string)

  /** Key of a data type in the global symbol table: defining module and type name. */
  datatype DataTypeKey = DataTypeKey(moduleName: string, definedType: string)

  /** Every checked module is stored under its own name, as the project inserts them. */
  predicate KeyedByName(modules: map<string, CheckedModule>) {
    forall k :: k in modules ==> modules[k].name == k
  }
}
