/**
 * The two classes of fatal error the preprocessor reports, and the exact
 * message text each one prints (src/main.rs builds these as `String`s).
 */
module Errors {

  /** Errors of the expression tokenizer and evaluator ("invalid expression: …"). */
  datatype ExprError =
    | SingleAmp                 // a lone `&`
    | SinglePipe                // a lone `|`
    | SingleEq                  // a lone `=`
    | UnterminatedString        // a `"` with no closing `"`
    | UnexpectedChar(c: char)   // any other character the tokenizer does not know
    | MissingRParen             // `(` without its `)`
    | ExpectedValue             // an operator where a value was due
    | UnexpectedEnd             // the tokens ran out where a value was due
    | TrailingToken(pos: nat)   // tokens left over after a complete expression

  /** Errors of the conditional nesting ("invalid directive structure: …"). */
  datatype StructureError = ElseWithoutIf | EndifWithoutIf | MissingEndif

  datatype Error = InvalidExpression(expr: ExprError) | InvalidStructure(structure: StructureError)

  /** The number a string of decimal digits stands for, most significant digit first. */
  function DigitsValue(s: string): int
    decreases |s|
  {
    if s == [] then 0 else DigitsValue(s[..|s| - 1]) * 10 + (s[|s| - 1] as int - '0' as int)
  }

  /** Decimal digits of `n`, as `format!("{}", n)` writes them: no leading zero, and read back they give `n`. */
  function NatToString(n: nat): (s: string)
    ensures |s| > 0
    ensures forall i :: 0 <= i < |s| ==> '0' <= s[i] <= '9'
    ensures s[0] == '0' <==> n == 0
    ensures DigitsValue(s) == n
    decreases n
  {
    if n < 10 then
      var s := [('0' as int + n) as char];
      assert s[..0] == [];
      s
    else
      var prefix := NatToString(n / 10);
      var s := prefix + [('0' as int + n % 10) as char];
      assert s[..|s| - 1] == prefix;
      s
  }

  function ExprMessage(e: ExprError): string {
    match e
    case SingleAmp => "single '&'"
    case SinglePipe => "single '|'"
    case SingleEq => "single '='"
    case UnterminatedString => "unterminated string"
    case UnexpectedChar(c) => "unexpected char '" + [c] + "'"
    case MissingRParen => "missing ')'"
    case ExpectedValue => "expected value"
    case UnexpectedEnd => "unexpected end"
    case TrailingToken(pos) => "unexpected token at position " + NatToString(pos)
  }

  function StructureMessage(e: StructureError): string {
    match e
    case ElseWithoutIf => "#else without matching #if/#ifdef/#ifndef"
    case EndifWithoutIf => "#endif without matching #if/#ifdef/#ifndef"
    case MissingEndif => "missing #endif"
  }

  /** The text printed on standard error; its head names the error's class. */
  function Message(e: Error): (m: string)
    ensures e.InvalidExpression? <==> |m| >= 20 && m[..20] == "invalid expression: "
    ensures e.InvalidStructure? <==> |m| >= 29 && m[..29] == "invalid directive structure: "
  {
    match e
    case InvalidExpression(x) =>
      var m := "invalid expression: " + ExprMessage(x);
      assert m[8] == 'e' != "invalid directive structure: "[8];
      m
    case InvalidStructure(x) =>
      var m := "invalid directive structure: " + StructureMessage(x);
      assert m[8] == 'd' != "invalid expression: "[8];
      m
  }
}
