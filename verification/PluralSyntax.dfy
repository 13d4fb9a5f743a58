/** Expression trees and tokens of the plural-form language (intl/gettextP.h, intl/plural.c). */
module PluralSyntax {

  /** The binary members of `enum operator`. */
  datatype BinOp =
    | Mult | Divide | Module | Plus | Minus
    | LessThan | GreaterThan | LessOrEqual | GreaterOrEqual | Equal | NotEqual
    | Land | Lor

  /** `struct expression`, one constructor per legal pair of `nargs` and `operation`. */
  datatype Expr =
    | Var
    | Num(num: nat)
    | Lnot(arg: Expr)
    | Bin(op: BinOp, left: Expr, right: Expr)
    | Qmop(bexp: Expr, tbranch: Expr, fbranch: Expr)

  /** What one call of the scanner delivers: a token kind together with its semantic value. */
  datatype Token =
    | End | Bad
    | Question | Bar | Ampersand
    | EquOp2(eop: BinOp) | CmpOp2(cop: BinOp) | AddOp2(aop: BinOp) | MulOp2(mop: BinOp)
    | Bang | Number(num: nat) | Colon | VarN | LParen | RParen

  /** The token number that the scanner returns to the parser. */
  function External(t: Token): int {
    match t
    case End => 0
    case Bad => 256
    case Question => '?' as int
    case Bar => '|' as int
    case Ampersand => '&' as int
    case EquOp2(_) => 257
    case CmpOp2(_) => 258
    case AddOp2(_) => 259
    case MulOp2(_) => 260
    case Bang => '!' as int
    case Number(_) => 261
    case Colon => ':' as int
    case VarN => 'n' as int
    case LParen => '(' as int
    case RParen => ')' as int
  }

  /** The symbol number the grammar uses for a token. */
  function Sym(t: Token): int {
    match t
    case End => 0
    case Bad => 1
    case Question => 3
    case Bar => 4
    case Ampersand => 5
    case EquOp2(_) => 6
    case CmpOp2(_) => 7
    case AddOp2(_) => 8
    case MulOp2(_) => 9
    case Bang => 10
    case Number(_) => 11
    case Colon => 12
    case VarN => 13
    case LParen => 14
    case RParen => 15
  }

  /** Precedence of an infix token: `?` 0, `|` 1, `&` 2, then 3 to 6; every other token has -1. */
  function OpLevel(t: Token): int {
    if 3 <= Sym(t) <= 9 then Sym(t) - 3 else -1
  }

  predicate IsBinary(t: Token) {
    4 <= Sym(t) <= 9
  }

  /** The operator that an infix token builds. */
  function OperatorOf(t: Token): BinOp
    requires IsBinary(t)
  {
    match t
    case Bar => Lor
    case Ampersand => Land
    case EquOp2(op) => op
    case CmpOp2(op) => op
    case AddOp2(op) => op
    case MulOp2(op) => op
  }
}
