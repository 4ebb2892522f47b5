/**
 * Properties of the evaluator. `Expr` is an expression tree with its own
 * meaning `Denote`, independent of the parser; `Print` writes a tree as
 * tokens, with `&&` and `||` always parenthesised. The parser gives every
 * printed tree its meaning back, from tokens and, through the tokenizer,
 * from text; the error lemmas pin down what broken token lists yield.
 */
module EvaluatorProps {
  import opened Wrappers
  import opened Chars
  import opened Errors
  import opened Definitions
  import opened Lexer
  import opened LexerProps
  import opened Evaluator

  datatype Expr =
    | Atom(v: Token)                              // a bare value, judged by `Truthy`
    | Compare(l: Token, negated: bool, r: Token)  // `l == r`, or `l != r` when negated
    | Neg(e: Expr)                                // `!e`
    | Conj(a: Expr, b: Expr)                      // `a && b`
    | Disj(a: Expr, b: Expr)                      // `a || b`

  /** Every operand is a value token that the tokenizer could have produced. */
  predicate ValidExpr(e: Expr) {
    match e
    case Atom(v) => IsValue(v) && WellFormed(v)
    case Compare(l, _, r) => IsValue(l) && WellFormed(l) && IsValue(r) && WellFormed(r)
    case Neg(e) => ValidExpr(e)
    case Conj(a, b) => ValidExpr(a) && ValidExpr(b)
    case Disj(a, b) => ValidExpr(a) && ValidExpr(b)
  }

  /** What an expression means under the definitions `defs`. */
  function Denote(e: Expr, defs: Defs): bool
    requires ValidExpr(e)
    reads defs
  {
    match e
    case Atom(v) => Truthy(ValueOf(v, defs))
    case Compare(l, negated, r) =>
      if negated then ValueOf(l, defs) != ValueOf(r, defs) else ValueOf(l, defs) == ValueOf(r, defs)
    case Neg(e) => !Denote(e, defs)
    case Conj(a, b) => Denote(a, defs) && Denote(b, defs)
    case Disj(a, b) => Denote(a, defs) || Denote(b, defs)
  }

  /** The tokens of an expression; a conjunction or disjunction is wrapped in parentheses. */
  function Print(e: Expr): seq<Token> {
    match e
    case Atom(v) => [v]
    case Compare(l, negated, r) => [l, if negated then Ne else Eq, r]
    case Neg(e) => [Not] + Print(e)
    case Conj(a, b) => [LParen] + Print(a) + [And] + Print(b) + [RParen]
    case Disj(a, b) => [LParen] + Print(a) + [Or] + Print(b) + [RParen]
  }

  /** The tokens `w` stand in `ts` from index `p` on. */
  predicate TokensAt(ts: seq<Token>, p: nat, w: seq<Token>) {
    p + |w| <= |ts| && MatchTokens(ts, p, w, 0)
  }

  /**
   * `w` from position `k` on stands in `ts` from index `p + k` on. Written
   * recursively so that the solver unfolds it only on request.
   */
  predicate MatchTokens(ts: seq<Token>, p: nat, w: seq<Token>, k: nat)
    decreases |w| - k
  {
    k >= |w| || (p + k < |ts| && ts[p + k] == w[k] && MatchTokens(ts, p, w, k + 1))
  }

  lemma {:induction false} MatchTokensIff(ts: seq<Token>, p: nat, w: seq<Token>, k: nat)
    requires p + |w| <= |ts|
    ensures MatchTokens(ts, p, w, k) <==> forall j :: k <= j < |w| ==> ts[p + j] == w[j]
    decreases |w| - k
  {
    if k < |w| {
      MatchTokensIff(ts, p, w, k + 1);
    }
  }

  /** `TokensAt` is the index-wise condition it abbreviates. */
  lemma TokensAtIff(ts: seq<Token>, p: nat, w: seq<Token>)
    ensures TokensAt(ts, p, w) <==> p + |w| <= |ts| && forall j :: 0 <= j < |w| ==> ts[p + j] == w[j]
  {
    if p + |w| <= |ts| {
      MatchTokensIff(ts, p, w, 0);
    }
  }

  /** The token at `q`, if any, is not a comparison operator, so a bare value ends before it. */
  predicate NoCompareAt(ts: seq<Token>, q: nat) {
    q < |ts| ==> ts[q] != Eq && ts[q] != Ne
  }

  lemma TokensAtSplit(ts: seq<Token>, p: nat, a: seq<Token>, b: seq<Token>)
    requires TokensAt(ts, p, a + b)
    ensures TokensAt(ts, p, a) && TokensAt(ts, p + |a|, b)
  {
    TokensAtIff(ts, p, a + b);
    TokensAtIff(ts, p, a);
    TokensAtIff(ts, p + |a|, b);
    forall k | 0 <= k < |a| ensures ts[p + k] == a[k] {
      assert (a + b)[k] == a[k];
    }
    forall k | 0 <= k < |b| ensures ts[p + |a| + k] == b[k] {
      assert (a + b)[|a| + k] == b[k];
    }
  }

  /** A sequence of tokens stands at the start of any sequence it begins. */
  lemma TokensAtPrefix(w: seq<Token>, rest: seq<Token>)
    ensures TokensAt(w + rest, 0, w)
  {
    TokensAtIff(w + rest, 0, w);
    assert forall j :: 0 <= j < |w| ==> (w + rest)[0 + j] == w[j];
  }

  /** A sequence of tokens stands in any sequence it ends, right after what comes before it. */
  lemma TokensAtSuffix(pre: seq<Token>, w: seq<Token>)
    ensures TokensAt(pre + w, |pre|, w)
  {
    TokensAtIff(pre + w, |pre|, w);
    assert forall j :: 0 <= j < |w| ==> (pre + w)[|pre| + j] == w[j];
  }

  /** A single token standing in `ts` at `p` is the token there. */
  lemma TokenAt(ts: seq<Token>, p: nat, t: Token)
    requires TokensAt(ts, p, [t])
    ensures At(ts, p, t)
  {
    TokensAtIff(ts, p, [t]);
    assert ts[p + 0] == [t][0];
  }

  /** The pieces of a printed conjunction or disjunction, and where each one stands. */
  lemma TokensAtBinary(ts: seq<Token>, p: nat, a: seq<Token>, op: Token, b: seq<Token>, qa: nat, qb: nat)
    requires TokensAt(ts, p, [LParen] + a + [op] + b + [RParen])
    requires qa == p + 1 + |a| && qb == qa + 1 + |b|
    ensures At(ts, p, LParen) && TokensAt(ts, p + 1, a)
    ensures At(ts, qa, op) && TokensAt(ts, qa + 1, b)
    ensures At(ts, qb, RParen)
  {
    TokensAtSplit(ts, p, [LParen] + a + [op] + b, [RParen]);
    TokensAtSplit(ts, p, [LParen] + a + [op], b);
    TokensAtSplit(ts, p, [LParen] + a, [op]);
    TokensAtSplit(ts, p, [LParen], a);
    TokenAt(ts, p, LParen);
    TokenAt(ts, qa, op);
    TokenAt(ts, qb, RParen);
  }

  /** An operand that `parse_not` reads up to a token other than `&&` is all that `parse_and` reads there. */
  lemma AndLone(ts: seq<Token>, defs: Defs, p: nat)
    requires p <= |ts| && NotAt(ts, defs, p).Ok?
    requires !At(ts, NotAt(ts, defs, p).value.1, And)
    ensures AndAt(ts, defs, p) == NotAt(ts, defs, p)
  {
    var (v, q) := NotAt(ts, defs, p).value;
    assert AndRest(ts, defs, v, q) == Ok((v, q));
  }

  /** An operand that `parse_not` reads up to a token other than `&&` and `||` is all that `parse_or` reads there. */
  lemma Lone(ts: seq<Token>, defs: Defs, p: nat)
    requires p <= |ts| && NotAt(ts, defs, p).Ok?
    requires !At(ts, NotAt(ts, defs, p).value.1, And) && !At(ts, NotAt(ts, defs, p).value.1, Or)
    ensures OrAt(ts, defs, p) == NotAt(ts, defs, p)
  {
    AndLone(ts, defs, p);
    var (v, q) := NotAt(ts, defs, p).value;
    assert OrRest(ts, defs, v, q) == Ok((v, q));
  }

  /** `( … )` around what `parse_or` reads is a single operand of `parse_not`. */
  lemma Parenthesised(ts: seq<Token>, defs: Defs, p: nat, v: bool, q: nat)
    requires At(ts, p, LParen) && At(ts, q, RParen)
    requires OrAt(ts, defs, p + 1) == Ok((v, q))
    ensures NotAt(ts, defs, p) == Ok((v, q + 1))
  {
    assert CmpAt(ts, defs, p) == Ok((v, q + 1));
  }

  /** What `parse_and` reads, not followed by `||`, is all that `parse_or` reads. */
  lemma OrOfOne(ts: seq<Token>, defs: Defs, p: nat, v: bool, q: nat)
    requires p <= |ts| && AndAt(ts, defs, p) == Ok((v, q)) && !At(ts, q, Or)
    ensures OrAt(ts, defs, p) == Ok((v, q))
  {
    assert OrRest(ts, defs, v, q) == Ok((v, q));
  }

  /** Two `parse_not` operands joined by `&&` and followed by no further `&&`. */
  lemma AndOfTwo(ts: seq<Token>, defs: Defs, p: nat, va: bool, qa: nat, pb: nat, vb: bool, qb: nat)
    requires p <= |ts| && pb == qa + 1 && At(ts, qa, And) && !At(ts, qb, And)
    requires NotAt(ts, defs, p) == Ok((va, qa))
    requires NotAt(ts, defs, pb) == Ok((vb, qb))
    ensures AndAt(ts, defs, p) == Ok((va && vb, qb))
  {
    assert AndRest(ts, defs, va && vb, qb) == Ok((va && vb, qb));
    assert AndRest(ts, defs, va, qa) == Ok((va && vb, qb));
  }

  /** Two `parse_and` operands joined by `||` and followed by no further `||`. */
  lemma OrOfTwo(ts: seq<Token>, defs: Defs, p: nat, va: bool, qa: nat, pb: nat, vb: bool, qb: nat)
    requires p <= |ts| && pb == qa + 1 && At(ts, qa, Or) && !At(ts, qb, Or)
    requires AndAt(ts, defs, p) == Ok((va, qa))
    requires AndAt(ts, defs, pb) == Ok((vb, qb))
    ensures OrAt(ts, defs, p) == Ok((va || vb, qb))
  {
    assert OrRest(ts, defs, va || vb, qb) == Ok((va || vb, qb));
    assert OrRest(ts, defs, va, qa) == Ok((va || vb, qb));
  }

  /** A parenthesised `a && b`, given what `parse_not` makes of `a` and of `b`. */
  lemma ConjParsed(ts: seq<Token>, defs: Defs, p: nat, va: bool, qa: nat, pb: nat, vb: bool, qb: nat)
    requires pb == qa + 1 && At(ts, p, LParen) && At(ts, qa, And) && At(ts, qb, RParen)
    requires NotAt(ts, defs, p + 1) == Ok((va, qa))
    requires NotAt(ts, defs, pb) == Ok((vb, qb))
    ensures NotAt(ts, defs, p) == Ok((va && vb, qb + 1))
  {
    AndOfTwo(ts, defs, p + 1, va, qa, pb, vb, qb);
    OrOfOne(ts, defs, p + 1, va && vb, qb);
    Parenthesised(ts, defs, p, va && vb, qb);
  }

  /** A parenthesised `a || b`, given what `parse_not` makes of `a` and of `b`. */
  lemma DisjParsed(ts: seq<Token>, defs: Defs, p: nat, va: bool, qa: nat, pb: nat, vb: bool, qb: nat)
    requires pb == qa + 1 && At(ts, p, LParen) && At(ts, qa, Or) && At(ts, qb, RParen)
    requires NotAt(ts, defs, p + 1) == Ok((va, qa))
    requires NotAt(ts, defs, pb) == Ok((vb, qb))
    ensures NotAt(ts, defs, p) == Ok((va || vb, qb + 1))
  {
    AndLone(ts, defs, p + 1);
    AndLone(ts, defs, pb);
    OrOfTwo(ts, defs, p + 1, va, qa, pb, vb, qb);
    Parenthesised(ts, defs, p, va || vb, qb);
  }

  /** `!` before an operand `parse_not` reads negates it. */
  lemma NegParsed(ts: seq<Token>, defs: Defs, p: nat, v: bool, q: nat)
    requires At(ts, p, Not)
    requires NotAt(ts, defs, p + 1) == Ok((v, q))
    ensures NotAt(ts, defs, p) == Ok((!v, q))
  {
  }

  /** A printed bare value read by `parse_not`. */
  lemma AtomPrinted(e: Expr, ts: seq<Token>, defs: Defs, p: nat)
    requires e.Atom? && ValidExpr(e)
    requires TokensAt(ts, p, Print(e)) && NoCompareAt(ts, p + 1)
    ensures NotAt(ts, defs, p) == Ok((Denote(e, defs), p + 1))
  {
    TokensAtIff(ts, p, Print(e));
    assert ts[p + 0] == Print(e)[0];
    assert ValueAt(ts, defs, p) == Ok((ValueOf(e.v, defs), p + 1));
    assert CmpAt(ts, defs, p) == Ok((Denote(e, defs), p + 1));
  }

  /** A printed comparison read by `parse_not`. */
  lemma ComparePrinted(e: Expr, ts: seq<Token>, defs: Defs, p: nat)
    requires e.Compare? && ValidExpr(e)
    requires TokensAt(ts, p, Print(e))
    ensures NotAt(ts, defs, p) == Ok((Denote(e, defs), p + 3))
  {
    TokensAtIff(ts, p, Print(e));
    assert ts[p + 0] == Print(e)[0] && ts[p + 1] == Print(e)[1] && ts[p + 2] == Print(e)[2];
    assert ValueAt(ts, defs, p) == Ok((ValueOf(e.l, defs), p + 1));
    assert ValueAt(ts, defs, p + 2) == Ok((ValueOf(e.r, defs), p + 3));
    assert CmpAt(ts, defs, p) == Ok((Denote(e, defs), p + 3));
  }

  /**
   * A printed expression read by `parse_not` from `p` yields its meaning and
   * stops at `q`, right after it, whatever follows, as long as it is not
   * `==` or `!=`.
   */
  lemma {:induction false} NotPrinted(e: Expr, ts: seq<Token>, defs: Defs, p: nat, q: nat)
    requires ValidExpr(e)
    requires q == p + |Print(e)| && TokensAt(ts, p, Print(e)) && NoCompareAt(ts, q)
    ensures NotAt(ts, defs, p) == Ok((Denote(e, defs), q))
    decreases e, 1
  {
    match e
    case Atom(_) => AtomPrinted(e, ts, defs, p);
    case Compare(_, _, _) => ComparePrinted(e, ts, defs, p);
    case Neg(_) => NegPrinted(e, ts, defs, p, q);
    case Conj(_, _) => ConjPrinted(e, ts, defs, p, q);
    case Disj(_, _) => DisjPrinted(e, ts, defs, p, q);
  }

  /** A printed negation read by `parse_not`. */
  lemma {:induction false} NegPrinted(e: Expr, ts: seq<Token>, defs: Defs, p: nat, q: nat)
    requires e.Neg? && ValidExpr(e)
    requires q == p + |Print(e)| && TokensAt(ts, p, Print(e)) && NoCompareAt(ts, q)
    ensures NotAt(ts, defs, p) == Ok((Denote(e, defs), q))
    decreases e, 0
  {
    var inner := e.e;
    assert Print(e) == [Not] + Print(inner);
    TokensAtSplit(ts, p, [Not], Print(inner));
    TokenAt(ts, p, Not);
    NotPrinted(inner, ts, defs, p + 1, q);
    NegParsed(ts, defs, p, Denote(inner, defs), q);
  }

  /** A printed conjunction read by `parse_not`. */
  lemma {:induction false} ConjPrinted(e: Expr, ts: seq<Token>, defs: Defs, p: nat, q: nat)
    requires e.Conj? && ValidExpr(e)
    requires q == p + |Print(e)| && TokensAt(ts, p, Print(e))
    ensures NotAt(ts, defs, p) == Ok((Denote(e, defs), q))
    decreases e, 0
  {
    var a, b := e.a, e.b;
    var qa := p + 1 + |Print(a)|;
    var pb := qa + 1;
    var qb := pb + |Print(b)|;
    assert Print(e) == [LParen] + Print(a) + [And] + Print(b) + [RParen];
    TokensAtBinary(ts, p, Print(a), And, Print(b), qa, qb);
    NotPrinted(a, ts, defs, p + 1, qa);
    NotPrinted(b, ts, defs, pb, qb);
    ConjParsed(ts, defs, p, Denote(a, defs), qa, pb, Denote(b, defs), qb);
  }

  /** A printed disjunction read by `parse_not`. */
  lemma {:induction false} DisjPrinted(e: Expr, ts: seq<Token>, defs: Defs, p: nat, q: nat)
    requires e.Disj? && ValidExpr(e)
    requires q == p + |Print(e)| && TokensAt(ts, p, Print(e))
    ensures NotAt(ts, defs, p) == Ok((Denote(e, defs), q))
    decreases e, 0
  {
    var a, b := e.a, e.b;
    var qa := p + 1 + |Print(a)|;
    var pb := qa + 1;
    var qb := pb + |Print(b)|;
    assert Print(e) == [LParen] + Print(a) + [Or] + Print(b) + [RParen];
    TokensAtBinary(ts, p, Print(a), Or, Print(b), qa, qb);
    NotPrinted(a, ts, defs, p + 1, qa);
    NotPrinted(b, ts, defs, pb, qb);
    DisjParsed(ts, defs, p, Denote(a, defs), qa, pb, Denote(b, defs), qb);
  }

  /**
   * A printed expression read by `parse_or` yields its meaning and stops
   * right after it, when what follows is no binary operator.
   */
  lemma OrPrinted(e: Expr, ts: seq<Token>, defs: Defs, p: nat)
    requires ValidExpr(e)
    requires TokensAt(ts, p, Print(e))
    requires p + |Print(e)| < |ts| ==> ts[p + |Print(e)|] !in {And, Or, Eq, Ne}
    ensures OrAt(ts, defs, p) == Ok((Denote(e, defs), p + |Print(e)|))
  {
    NotPrinted(e, ts, defs, p, p + |Print(e)|);
    Lone(ts, defs, p);
  }

  /** Evaluating the tokens of an expression gives its meaning. */
  lemma EvalPrinted(e: Expr, defs: Defs)
    requires ValidExpr(e)
    ensures EvalTokens(Print(e), defs) == Ok(Denote(e, defs))
  {
    TokensAtPrefix(Print(e), []);
    assert Print(e) + [] == Print(e);
    OrPrinted(e, Print(e), defs, 0);
  }

  lemma {:induction false} PrintWellFormed(e: Expr)
    requires ValidExpr(e)
    ensures AllWellFormed(Print(e))
    decreases e
  {
    match e
    case Atom(_) =>
    case Compare(_, _, _) =>
    case Neg(e') =>
      PrintWellFormed(e');
    case Conj(a, b) =>
      PrintWellFormed(a);
      PrintWellFormed(b);
    case Disj(a, b) =>
      PrintWellFormed(a);
      PrintWellFormed(b);
  }

  /** `eval_expr` on the written-out text of an expression gives its meaning. */
  lemma EvaluateRendered(e: Expr, defs: Defs)
    requires ValidExpr(e)
    ensures Evaluate(Render(Print(e)), defs) == Ok(Denote(e, defs))
  {
    PrintWellFormed(e);
    RoundTrip(Print(e));
    EvalPrinted(e, defs);
  }

  /** `(` followed by a complete expression and nothing else is missing its `)`. */
  lemma MissingParen(e: Expr, defs: Defs)
    requires ValidExpr(e)
    ensures EvalTokens([LParen] + Print(e), defs) == Err(MissingRParen)
  {
    var ts := [LParen] + Print(e);
    TokensAtSuffix([LParen], Print(e));
    OrPrinted(e, ts, defs, 1);
    Unclosed(ts, defs, Denote(e, defs));
  }

  /** `(` and what `parse_or` reads up to the end of the tokens lack their `)`. */
  lemma Unclosed(ts: seq<Token>, defs: Defs, v: bool)
    requires At(ts, 0, LParen) && OrAt(ts, defs, 1) == Ok((v, |ts|))
    ensures EvalTokens(ts, defs) == Err(MissingRParen)
  {
    assert CmpAt(ts, defs, 0) == Err(MissingRParen);
    assert NotAt(ts, defs, 0) == Err(MissingRParen);
    assert AndAt(ts, defs, 0) == Err(MissingRParen);
  }

  /**
   * A token after a complete expression that no operator joins to it is
   * refused, naming its position.
   */
  lemma Trailing(e: Expr, t: Token, rest: seq<Token>, defs: Defs)
    requires ValidExpr(e)
    requires t !in {And, Or, Eq, Ne}
    ensures EvalTokens(Print(e) + [t] + rest, defs) == Err(TrailingToken(|Print(e)|))
  {
    var ts := Print(e) + [t] + rest;
    assert ts == Print(e) + ([t] + rest);
    TokensAtPrefix(Print(e), [t] + rest);
    assert ts[|Print(e)|] == t;
    OrPrinted(e, ts, defs, 0);
  }

  /**
   * `&&` or `||` after a complete expression needs a value: at the end of
   * the tokens the error is `UnexpectedEnd`, before an operator or `)` it
   * is `ExpectedValue`.
   */
  lemma DanglingOperator(e: Expr, op: Token, rest: seq<Token>, defs: Defs)
    requires ValidExpr(e)
    requires op == And || op == Or
    requires rest != [] ==> !IsValue(rest[0]) && rest[0] != Not && rest[0] != LParen
    ensures EvalTokens(Print(e) + [op] + rest, defs) == Err(if rest == [] then UnexpectedEnd else ExpectedValue)
  {
    var ts := Print(e) + [op] + rest;
    var n := |Print(e)|;
    assert ts == Print(e) + ([op] + rest);
    TokensAtPrefix(Print(e), [op] + rest);
    assert ts[n] == op;
    assert rest != [] ==> ts[n + 1] == rest[0];
    NotPrinted(e, ts, defs, 0, |Print(e)|);
    var err := if rest == [] then UnexpectedEnd else ExpectedValue;
    assert ValueAt(ts, defs, n + 1) == Err(err);
    assert NotAt(ts, defs, n + 1) == Err(err);
    if op == And {
      assert AndAt(ts, defs, 0) == Err(err);
    } else {
      AndLone(ts, defs, 0);
      assert AndAt(ts, defs, n + 1) == Err(err);
      assert OrRest(ts, defs, Denote(e, defs), n) == Err(err);
    }
  }

  /** The empty expression is refused at its end. */
  lemma EmptyExpression(defs: Defs)
    ensures Evaluate("", defs) == Err(UnexpectedEnd)
  {
    assert Lex("") == Ok([]);
    assert NotAt([], defs, 0) == Err(UnexpectedEnd);
    assert OrAt([], defs, 0) == Err(UnexpectedEnd);
  }

  /**
   * Precedence without parentheses. `Print` brackets every `&&` and `||`,
   * so the lemmas below state directly, for any value tokens, how
   * `parse_or`, `parse_and`, `parse_not` and `parse_cmp` group an
   * unbracketed list: `&&` binds tighter than `||`, `!` tighter than `&&`,
   * and a comparison tighter than `!`.
   */
  lemma OrBelowAnd(a: Token, b: Token, c: Token, defs: Defs)
    requires IsValue(a) && IsValue(b) && IsValue(c)
    ensures EvalTokens([a, Or, b, And, c], defs)
         == Ok(Truthy(ValueOf(a, defs)) || (Truthy(ValueOf(b, defs)) && Truthy(ValueOf(c, defs))))
  {
    var ts := [a, Or, b, And, c];
    var va, vb, vc := Truthy(ValueOf(a, defs)), Truthy(ValueOf(b, defs)), Truthy(ValueOf(c, defs));
    assert NotAt(ts, defs, 0) == Ok((va, 1)) by { assert CmpAt(ts, defs, 0) == Ok((va, 1)); }
    assert NotAt(ts, defs, 2) == Ok((vb, 3)) by { assert CmpAt(ts, defs, 2) == Ok((vb, 3)); }
    assert NotAt(ts, defs, 4) == Ok((vc, 5)) by { assert CmpAt(ts, defs, 4) == Ok((vc, 5)); }
    AndLone(ts, defs, 0);
    AndOfTwo(ts, defs, 2, vb, 3, 4, vc, 5);
    OrOfTwo(ts, defs, 0, va, 1, 2, vb && vc, 5);
  }

  /** `a && b || c` is `(a && b) || c`. */
  lemma AndAboveOr(a: Token, b: Token, c: Token, defs: Defs)
    requires IsValue(a) && IsValue(b) && IsValue(c)
    ensures EvalTokens([a, And, b, Or, c], defs)
         == Ok((Truthy(ValueOf(a, defs)) && Truthy(ValueOf(b, defs))) || Truthy(ValueOf(c, defs)))
  {
    var ts := [a, And, b, Or, c];
    var va, vb, vc := Truthy(ValueOf(a, defs)), Truthy(ValueOf(b, defs)), Truthy(ValueOf(c, defs));
    assert NotAt(ts, defs, 0) == Ok((va, 1)) by { assert CmpAt(ts, defs, 0) == Ok((va, 1)); }
    assert NotAt(ts, defs, 2) == Ok((vb, 3)) by { assert CmpAt(ts, defs, 2) == Ok((vb, 3)); }
    assert NotAt(ts, defs, 4) == Ok((vc, 5)) by { assert CmpAt(ts, defs, 4) == Ok((vc, 5)); }
    AndOfTwo(ts, defs, 0, va, 1, 2, vb, 3);
    AndLone(ts, defs, 4);
    OrOfTwo(ts, defs, 0, va && vb, 3, 4, vc, 5);
  }

  /** `a && b && c` takes all three operands into one conjunction. */
  lemma AndChain(a: Token, b: Token, c: Token, defs: Defs)
    requires IsValue(a) && IsValue(b) && IsValue(c)
    ensures EvalTokens([a, And, b, And, c], defs)
         == Ok(Truthy(ValueOf(a, defs)) && Truthy(ValueOf(b, defs)) && Truthy(ValueOf(c, defs)))
  {
    var ts := [a, And, b, And, c];
    var va, vb, vc := Truthy(ValueOf(a, defs)), Truthy(ValueOf(b, defs)), Truthy(ValueOf(c, defs));
    assert NotAt(ts, defs, 0) == Ok((va, 1)) by { assert CmpAt(ts, defs, 0) == Ok((va, 1)); }
    assert NotAt(ts, defs, 2) == Ok((vb, 3)) by { assert CmpAt(ts, defs, 2) == Ok((vb, 3)); }
    assert NotAt(ts, defs, 4) == Ok((vc, 5)) by { assert CmpAt(ts, defs, 4) == Ok((vc, 5)); }
    assert AndRest(ts, defs, va && vb && vc, 5) == Ok((va && vb && vc, 5));
    assert AndRest(ts, defs, va && vb, 3) == Ok((va && vb && vc, 5));
    assert AndRest(ts, defs, va, 1) == Ok((va && vb && vc, 5));
    OrOfOne(ts, defs, 0, va && vb && vc, 5);
  }

  /** `!a && b` is `(!a) && b`. */
  lemma NotAboveAnd(a: Token, b: Token, defs: Defs)
    requires IsValue(a) && IsValue(b)
    ensures EvalTokens([Not, a, And, b], defs) == Ok(!Truthy(ValueOf(a, defs)) && Truthy(ValueOf(b, defs)))
  {
    var ts := [Not, a, And, b];
    var va, vb := Truthy(ValueOf(a, defs)), Truthy(ValueOf(b, defs));
    assert NotAt(ts, defs, 1) == Ok((va, 2)) by { assert CmpAt(ts, defs, 1) == Ok((va, 2)); }
    assert NotAt(ts, defs, 3) == Ok((vb, 4)) by { assert CmpAt(ts, defs, 3) == Ok((vb, 4)); }
    NegParsed(ts, defs, 0, va, 2);
    AndOfTwo(ts, defs, 0, !va, 2, 3, vb, 4);
    OrOfOne(ts, defs, 0, !va && vb, 4);
  }

  /** `!a == b` is `!(a == b)`: the comparison is one operand of `!`. */
  lemma CompareAboveNot(a: Token, b: Token, defs: Defs)
    requires IsValue(a) && IsValue(b)
    ensures EvalTokens([Not, a, Eq, b], defs) == Ok(!(ValueOf(a, defs) == ValueOf(b, defs)))
  {
    var ts := [Not, a, Eq, b];
    var v := ValueOf(a, defs) == ValueOf(b, defs);
    assert NotAt(ts, defs, 1) == Ok((v, 4)) by { assert CmpAt(ts, defs, 1) == Ok((v, 4)); }
    NegParsed(ts, defs, 0, v, 4);
    Lone(ts, defs, 0);
  }

  /**
   * Two characters are the same letter ignoring ASCII case: equal, or both
   * ASCII letters 32 apart (a capital and its lower-case form).
   */
  predicate SameIgnoringCase(x: char, y: char) {
    x == y || (IsAsciiAlpha(x) && IsAsciiAlpha(y) && (x as int - y as int == 32 || y as int - x as int == 32))
  }

  /** `a` and `b` are equal when ASCII case is ignored, character by character. */
  predicate EqualIgnoringCase(a: string, b: string) {
    |a| == |b| && forall i :: 0 <= i < |a| ==> SameIgnoringCase(a[i], b[i])
  }

  /** Upper-casing `x` gives a character `y` that upper-casing leaves alone exactly when `x` is `y` ignoring case. */
  lemma UpperCharMatches(x: char, y: char)
    requires ToAsciiUpper(y) == y
    ensures ToAsciiUpper(x) == y <==> SameIgnoringCase(x, y)
  {
  }

  /** For a word already in upper case, upper-casing `s` gives it exactly when `s` equals it ignoring case. */
  lemma UpperMatches(s: string, w: string)
    requires Upper(w) == w
    ensures Upper(s) == w <==> EqualIgnoringCase(s, w)
  {
    forall i | 0 <= i < |s| && i < |w|
      ensures ToAsciiUpper(s[i]) == w[i] <==> SameIgnoringCase(s[i], w[i])
    {
      assert Upper(w)[i] == ToAsciiUpper(w[i]);
      UpperCharMatches(s[i], w[i]);
    }
    if EqualIgnoringCase(s, w) {
      assert forall i :: 0 <= i < |s| ==> Upper(s)[i] == w[i];
    }
  }

  /** A value is false exactly when it is empty or, ignoring case, `0`, `F`, `FALSE` or `NO`. */
  lemma TruthyIff(s: string)
    ensures !Truthy(s) <==> s == "" || EqualIgnoringCase(s, "0") || EqualIgnoringCase(s, "F")
                            || EqualIgnoringCase(s, "FALSE") || EqualIgnoringCase(s, "NO")
  {
    UpperMatches(s, "0");
    UpperMatches(s, "F");
    UpperMatches(s, "FALSE");
    UpperMatches(s, "NO");
  }

  /** Case does not matter to the false words, and anything else non-empty is true. */
  lemma FalseSpellings()
    ensures !Truthy("no") && !Truthy("No") && !Truthy("nO") && !Truthy("false") && !Truthy("False") && !Truthy("f")
    ensures Truthy("yes") && Truthy("1") && Truthy("nope") && Truthy("off")
  {
  }
}
