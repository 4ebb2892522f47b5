/**
 * The recursive-descent evaluator (src/main.rs:289-319, 422-501): `#if`
 * expressions are parsed and evaluated in one pass over the token list,
 * with precedence `||` < `&&` < `!` < comparison.
 *
 * `OrAt` … `ValueAt` are the specification: what each `parse_*` method
 * yields when it starts at token index `p`, as a value and the index where
 * it stops. The `Parser` class is the original, with its mutable `pos`,
 * and each of its methods is proved to agree with the matching function.
 */
module Evaluator {
  import opened Wrappers
  import opened Chars
  import opened Errors
  import opened Definitions
  import opened Lexer

  /**
   * `truthy`: a bare value counts as false when it is empty or reads, in
   * any case, as `0`, `F`, `FALSE` or `NO`; anything else is true.
   */
  predicate Truthy(value: string) {
    if value == [] then false
    else
      var upper := Upper(value);
      !(upper == "0" || upper == "F" || upper == "FALSE" || upper == "NO")
  }

  /** The tokens `parse_value` accepts. */
  predicate IsValue(t: Token) {
    t.Ident? || t.Str? || t.Num?
  }

  /** What a value token stands for: an identifier's defined value, a literal's own text. */
  function ValueOf(t: Token, defs: Defs): (v: string)
    requires IsValue(t)
    reads defs
    ensures t.Ident? && !defs.IsDefined(t.name) ==> v == ""
  {
    match t
    case Ident(name) => defs.GetValue(name)
    case Str(s) => s
    case Num(n) => n
  }

  /**
   * `parse_value` at index `p`: the value of the token there and the index
   * after it; at the end of the tokens `UnexpectedEnd`, on any token that is
   * not a value `ExpectedValue`.
   */
  function ValueAt(ts: seq<Token>, defs: Defs, p: nat): (r: Result<(string, nat), ExprError>)
    reads defs
    ensures r.Ok? <==> p < |ts| && IsValue(ts[p])
    ensures r.Ok? ==> r.value.1 == p + 1
    ensures r == Err(UnexpectedEnd) <==> p >= |ts|
  {
    if p < |ts| then
      if IsValue(ts[p]) then Ok((ValueOf(ts[p], defs), p + 1)) else Err(ExpectedValue)
    else Err(UnexpectedEnd)
  }

  /** The token at index `p` is `t` (what `match_token` tests). */
  predicate At(ts: seq<Token>, p: nat, t: Token) {
    p < |ts| && ts[p] == t
  }

  /**
   * `parse_cmp` at index `p`: a parenthesised expression, which must be
   * closed by `)`, or a value, optionally compared with `==` or `!=` to a
   * second value; a bare value is judged by `Truthy`.
   */
  function CmpAt(ts: seq<Token>, defs: Defs, p: nat): (r: Result<(bool, nat), ExprError>)
    requires p <= |ts|
    reads defs
    ensures r.Ok? ==> p < r.value.1 <= |ts|
    decreases |ts| - p, 1
  {
    if At(ts, p, LParen) then
      match OrAt(ts, defs, p + 1)
      case Err(e) => Err(e)
      case Ok((v, q)) => if At(ts, q, RParen) then Ok((v, q + 1)) else Err(MissingRParen)
    else
      match ValueAt(ts, defs, p)
      case Err(e) => Err(e)
      case Ok((left, q)) => CmpRest(ts, defs, left, q)
  }

  /** The rest of `parse_cmp` once the first value `left` is read and the next token is at `q`. */
  function CmpRest(ts: seq<Token>, defs: Defs, left: string, q: nat): (r: Result<(bool, nat), ExprError>)
    requires q <= |ts|
    reads defs
    ensures r.Ok? ==> q <= r.value.1 <= |ts|
  {
    if At(ts, q, Eq) then
      match ValueAt(ts, defs, q + 1)
      case Err(e) => Err(e)
      case Ok((right, q')) => Ok((left == right, q'))
    else if At(ts, q, Ne) then
      match ValueAt(ts, defs, q + 1)
      case Err(e) => Err(e)
      case Ok((right, q')) => Ok((left != right, q'))
    else Ok((Truthy(left), q))
  }

  /** `parse_not` at index `p`: each leading `!` negates what follows. */
  function NotAt(ts: seq<Token>, defs: Defs, p: nat): (r: Result<(bool, nat), ExprError>)
    requires p <= |ts|
    reads defs
    ensures r.Ok? ==> p < r.value.1 <= |ts|
    decreases |ts| - p, 2
  {
    if At(ts, p, Not) then
      match NotAt(ts, defs, p + 1)
      case Err(e) => Err(e)
      case Ok((v, q)) => Ok((!v, q))
    else CmpAt(ts, defs, p)
  }

  /** `parse_and` at index `p`: a `parse_not` operand and then the loop over `&& operand`. */
  function AndAt(ts: seq<Token>, defs: Defs, p: nat): (r: Result<(bool, nat), ExprError>)
    requires p <= |ts|
    reads defs
    ensures r.Ok? ==> p < r.value.1 <= |ts|
    decreases |ts| - p, 3
  {
    match NotAt(ts, defs, p)
    case Err(e) => Err(e)
    case Ok((v, q)) => AndRest(ts, defs, v, q)
  }

  /** The `&&` loop of `parse_and` from index `p`, with `left` the conjunction so far. */
  function AndRest(ts: seq<Token>, defs: Defs, left: bool, p: nat): (r: Result<(bool, nat), ExprError>)
    requires p <= |ts|
    reads defs
    ensures r.Ok? ==> p <= r.value.1 <= |ts|
    decreases |ts| - p, 3
  {
    if At(ts, p, And) then
      match NotAt(ts, defs, p + 1)
      case Err(e) => Err(e)
      case Ok((right, q)) => AndRest(ts, defs, left && right, q)
    else Ok((left, p))
  }

  /** `parse_or` at index `p`: a `parse_and` operand and then the loop over `|| operand`. */
  function OrAt(ts: seq<Token>, defs: Defs, p: nat): (r: Result<(bool, nat), ExprError>)
    requires p <= |ts|
    reads defs
    ensures r.Ok? ==> p < r.value.1 <= |ts|
    decreases |ts| - p, 5
  {
    match AndAt(ts, defs, p)
    case Err(e) => Err(e)
    case Ok((v, q)) => OrRest(ts, defs, v, q)
  }

  /** The `||` loop of `parse_or` from index `p`, with `left` the disjunction so far. */
  function OrRest(ts: seq<Token>, defs: Defs, left: bool, p: nat): (r: Result<(bool, nat), ExprError>)
    requires p <= |ts|
    reads defs
    ensures r.Ok? ==> p <= r.value.1 <= |ts|
    decreases |ts| - p, 5
  {
    if At(ts, p, Or) then
      match AndAt(ts, defs, p + 1)
      case Err(e) => Err(e)
      case Ok((right, q)) => OrRest(ts, defs, left || right, q)
    else Ok((left, p))
  }

  /** A whole token list: one `parse_or`, which must use up every token. */
  function EvalTokens(ts: seq<Token>, defs: Defs): Result<bool, ExprError>
    reads defs
  {
    match OrAt(ts, defs, 0)
    case Err(e) => Err(e)
    case Ok((v, q)) => if q != |ts| then Err(TrailingToken(q)) else Ok(v)
  }

  /** `eval_expr` as a function: tokenize, then evaluate the tokens. */
  function Evaluate(expr: string, defs: Defs): Result<bool, ExprError>
    reads defs
  {
    match Lex(expr)
    case Err(e) => Err(e)
    case Ok(ts) => EvalTokens(ts, defs)
  }

  /** A parsing method that returns `r` and leaves the parser at `pos` did what `spec` says. */
  predicate Yields<T(==)>(spec: Result<(T, nat), ExprError>, r: Result<T, ExprError>, pos: nat) {
    match spec
    case Ok((v, q)) => r == Ok(v) && pos == q
    case Err(e) => r == Err(e)
  }

  /**
   * `Parser`: the token list, the read position `pos` and the definitions.
   * Every method moves `pos` forward and nothing else.
   */
  class Parser {
    const tokens: seq<Token>
    var pos: nat
    const defs: Defs

    constructor (tokens: seq<Token>, defs: Defs)
      ensures this.tokens == tokens && this.defs == defs && pos == 0
    {
      this.tokens := tokens;
      this.defs := defs;
      pos := 0;
    }

    /** `match_token`: step over the next token when it is `t`. */
    method MatchToken(t: Token) returns (matched: bool)
      requires pos <= |tokens|
      modifies this
      ensures matched == At(tokens, old(pos), t)
      ensures pos == if matched then old(pos) + 1 else old(pos)
    {
      if pos < |tokens| && tokens[pos] == t {
        pos := pos + 1;
        return true;
      }
      return false;
    }

    /** `parse_or`. */
    method ParseOr() returns (r: Result<bool, ExprError>)
      requires pos <= |tokens|
      modifies this
      ensures pos <= |tokens|
      ensures Yields(OrAt(tokens, defs, old(pos)), r, pos)
      decreases |tokens| - pos, 5
    {
      ghost var p0 := pos;
      var left := ParseAnd();
      if left.Err? {
        return left;
      }
      var value := left.value;
      while true
        invariant pos <= |tokens|
        invariant OrAt(tokens, defs, p0) == OrRest(tokens, defs, value, pos)
        decreases |tokens| - pos
      {
        var matched := MatchToken(Or);
        if !matched {
          break;
        }
        var right := ParseAnd();
        if right.Err? {
          return right;
        }
        value := value || right.value;
      }
      return Ok(value);
    }

    /** `parse_and`. */
    method ParseAnd() returns (r: Result<bool, ExprError>)
      requires pos <= |tokens|
      modifies this
      ensures pos <= |tokens|
      ensures Yields(AndAt(tokens, defs, old(pos)), r, pos)
      decreases |tokens| - pos, 3
    {
      ghost var p0 := pos;
      var left := ParseNot();
      if left.Err? {
        return left;
      }
      var value := left.value;
      while true
        invariant pos <= |tokens|
        invariant AndAt(tokens, defs, p0) == AndRest(tokens, defs, value, pos)
        decreases |tokens| - pos
      {
        var matched := MatchToken(And);
        if !matched {
          break;
        }
        var right := ParseNot();
        if right.Err? {
          return right;
        }
        value := value && right.value;
      }
      return Ok(value);
    }

    /** `parse_not`. */
    method ParseNot() returns (r: Result<bool, ExprError>)
      requires pos <= |tokens|
      modifies this
      ensures pos <= |tokens|
      ensures Yields(NotAt(tokens, defs, old(pos)), r, pos)
      decreases |tokens| - pos, 2
    {
      var matched := MatchToken(Not);
      if matched {
        var v := ParseNot();
        if v.Err? {
          return v;
        }
        return Ok(!v.value);
      }
      r := ParseCmp();
    }

    /** `parse_cmp`. */
    method ParseCmp() returns (r: Result<bool, ExprError>)
      requires pos <= |tokens|
      modifies this
      ensures pos <= |tokens|
      ensures Yields(CmpAt(tokens, defs, old(pos)), r, pos)
      decreases |tokens| - pos, 1
    {
      var open := MatchToken(LParen);
      if open {
        var v := ParseOr();
        if v.Err? {
          return v;
        }
        var close := MatchToken(RParen);
        if !close {
          return Err(MissingRParen);
        }
        return v;
      }
      var left := ParseValue();
      if left.Err? {
        return Err(left.error);
      }
      assert CmpAt(tokens, defs, old(pos)) == CmpRest(tokens, defs, left.value, pos);
      var eq := MatchToken(Eq);
      if eq {
        var right := ParseValue();
        if right.Err? {
          return Err(right.error);
        }
        return Ok(left.value == right.value);
      }
      var ne := MatchToken(Ne);
      if ne {
        var right := ParseValue();
        if right.Err? {
          return Err(right.error);
        }
        return Ok(left.value != right.value);
      }
      return Ok(Truthy(left.value));
    }

    /** `parse_value`. */
    method ParseValue() returns (r: Result<string, ExprError>)
      requires pos <= |tokens|
      modifies this
      ensures pos <= |tokens|
      ensures Yields(ValueAt(tokens, defs, old(pos)), r, pos)
    {
      if pos < |tokens| {
        var token := tokens[pos];
        var value: string;
        match token {
          case Ident(name) => value := defs.GetValue(name);
          case Str(s) => value := s;
          case Num(n) => value := n;
          case _ => return Err(ExpectedValue);
        }
        pos := pos + 1;
        return Ok(value);
      }
      return Err(UnexpectedEnd);
    }
  }

  /** `eval_expr`: tokenize, run `parse_or`, and refuse tokens left over. */
  method EvalExpr(expr: string, defs: Defs) returns (r: Result<bool, ExprError>)
    ensures r == Evaluate(expr, defs)
  {
    var tokens := Tokenize(expr);
    if tokens.Err? {
      return Err(tokens.error);
    }
    var parser := new Parser(tokens.value, defs);
    var value := parser.ParseOr();
    if value.Err? {
      return value;
    }
    if parser.pos != |tokens.value| {
      return Err(TrailingToken(parser.pos));
    }
    return value;
  }
}
