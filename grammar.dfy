/**
 * The abstract syntax tree the code generator consumes (`src/solidity.rs`),
 * as plain datatypes. Every variant is kept; only the unit `()` fields that
 * stand for keywords and punctuation are dropped, since they carry no value.
 * `Expression::Type` becomes `TypeName`, and the attribute variants
 * `Visibility`/`Mutability` become `VisibilityAttr`/`MutabilityAttr`, so that
 * they do not clash with the type names.
 */
module Grammar {
  import opened Wrappers

  datatype SourceUnit = SourceUnit(parts: seq<SourceUnitPart>)

  datatype SourceUnitPart = ContractDefinition(name: string, parts: seq<ContractPart>)

  datatype ContractPart =
    | VariableDefinition(ty: Type, visibility: Option<Visibility>, name: string)
    | FunctionDefinition(
        name: string,
        params: ParameterList,
        attrs: seq<Option<FunctionAttribute>>,
        returnParams: Option<FunctionReturnParams>,
        body: Option<Statement>)
    | ConstructorDefinition(
        params: ParameterList,
        attrs: seq<Option<FunctionAttribute>>,
        body: Option<Statement>)

  /** `e;` or `return [e];` */
  datatype Statement = ExpressionStatement(expr: Expression) | Return(value: Option<Expression>)

  /** `( [params] )` */
  datatype ParameterList = ParameterList(params: Option<Params>)

  datatype Params = Params(params: seq<Parameter>)

  /** A parameter's type is an expression; only `Type(Bool)` is understood downstream. */
  datatype Parameter = Parameter(ty: Expression, name: Option<Identifier>)

  datatype Identifier = Identifier(name: string)

  datatype Expression =
    | BoolLiteral(value: bool)
    | Variable(id: Identifier)
    | Assign(left: Expression, right: Expression)
    | Not(operand: Expression)
    | TypeName(ty: Type)

  /** `returns ( ... )` */
  datatype FunctionReturnParams = Returns(list: ParameterList)

  datatype FunctionAttribute = VisibilityAttr(visibility: Visibility) | MutabilityAttr(mutability: Mutability)

  datatype Mutability = Pure | View | Constant | Payable

  datatype Visibility = Internal | External | Private | Public

  datatype Type = Bool
}
