/** The operator table of the expression engine: every operator code, its
    precedence level (a lower number binds tighter, -1 marks the parentheses),
    and the option datatype shared by the other modules. */
module Operators {

  datatype Option<+T> = None | Some(value: T)

  datatype Operator =
    | OpenBracket | CloseBracket
    | UnaryMinus | UnaryPlus | BitwiseNot | LogicalNot
    | Exponent
    | Multiply | Divide | Modulus
    | Add | Subtract
    | LeftShift | RightShift
    | Lt | Gt | Le | Ge
    | Eq | Ne
    | StrEq | StrNe | In | Ni
    | BitwiseAnd | BitwiseXor | BitwiseOr
    | LogicalAnd | LogicalOr
    | TernaryQ | TernaryC
    | VarAssign

  function Precedence(op: Operator): int {
    match op
    case OpenBracket | CloseBracket => -1
    case UnaryMinus | UnaryPlus | BitwiseNot | LogicalNot => 1
    case Exponent => 2
    case Multiply | Divide | Modulus => 3
    case Add | Subtract => 4
    case LeftShift | RightShift => 5
    case Lt | Gt | Le | Ge => 6
    case Eq | Ne => 7
    case StrEq | StrNe | In | Ni => 8
    case BitwiseAnd => 9
    case BitwiseXor => 10
    case BitwiseOr => 11
    case LogicalAnd => 12
    case LogicalOr => 13
    case TernaryQ | TernaryC => 14
    case VarAssign => 15
  }
}
