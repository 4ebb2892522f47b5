/**
 * Properties of the tokenizer. `Render` writes a token list back as text,
 * one token and one space at a time, escaping `"` and `\` inside strings;
 * tokenizing the rendering gives the list back. The error cases are stated
 * after any well-formed prefix, so they hold wherever in an expression the
 * offending character appears.
 */
module LexerProps {
  import opened Wrappers
  import opened Chars
  import opened Errors
  import opened Lexer

  /** A character of a string body as it is written between quotes. */
  function EscChar(c: char): string {
    if c == '"' || c == '\\' then ['\\', c] else [c]
  }

  function Escape(s: string): string {
    if s == [] then [] else EscChar(s[0]) + Escape(s[1..])
  }

  /** The source text of one token. */
  function Text(t: Token): string {
    match t
    case Ident(n) => n
    case Str(s) => "\"" + Escape(s) + "\""
    case Num(d) => d
    case And => "&&"
    case Or => "||"
    case Eq => "=="
    case Ne => "!="
    case Not => "!"
    case LParen => "("
    case RParen => ")"
  }

  /** Each token from index `k` on, followed by one space. */
  function RenderFrom(ts: seq<Token>, k: nat): string
    decreases |ts| - k
  {
    if k >= |ts| then [] else Text(ts[k]) + " " + RenderFrom(ts, k + 1)
  }

  /** The whole token list written out, each token followed by one space. */
  function Render(ts: seq<Token>): string {
    RenderFrom(ts, 0)
  }

  predicate AllDigits(d: string) {
    forall k :: 0 <= k < |d| ==> IsAsciiDigit(d[k])
  }

  /** The payloads `tokenize` can produce: identifiers are identifiers, numbers non-empty digit runs. */
  predicate WellFormed(t: Token) {
    match t
    case Ident(n) => IsIdent(n)
    case Num(d) => |d| > 0 && AllDigits(d)
    case _ => true
  }

  predicate AllWellFormed(ts: seq<Token>) {
    forall k :: 0 <= k < |ts| ==> WellFormed(ts[k])
  }

  /** A slice holding `a + b` holds `a` and then `b`. */
  lemma SliceSplit(cs: string, i: nat, a: string, b: string)
    requires i + |a| + |b| <= |cs| && cs[i..i + |a| + |b|] == a + b
    ensures cs[i..i + |a|] == a
    ensures cs[i + |a|..i + |a| + |b|] == b
  {
    assert cs[i..i + |a|] == cs[i..i + |a| + |b|][..|a|];
    assert cs[i + |a|..i + |a| + |b|] == cs[i..i + |a| + |b|][|a|..];
  }

  /** An escaped body is read back character by character, whatever follows it. */
  lemma {:induction false} EscapeScan(cs: string, j: nat, s: string, acc: string)
    requires j + |Escape(s)| <= |cs| && cs[j..j + |Escape(s)|] == Escape(s)
    ensures StrScan(cs, j, acc) == StrScan(cs, j + |Escape(s)|, acc + s)
    decreases |s|
  {
    if s == [] {
      assert acc + s == acc;
    } else {
      EscapeHead(cs, j, s);
      EscapeScan(cs, j + |EscChar(s[0])|, s[1..], acc + [s[0]]);
      EscapeCons(cs, j, j + |Escape(s)|, s, acc);
    }
  }

  /** An escaped non-empty body is its first character escaped, then the rest escaped. */
  lemma EscapeHead(cs: string, j: nat, s: string)
    requires s != [] && j + |Escape(s)| <= |cs| && cs[j..j + |Escape(s)|] == Escape(s)
    ensures j + |EscChar(s[0])| + |Escape(s[1..])| == j + |Escape(s)|
    ensures cs[j..j + |EscChar(s[0])|] == EscChar(s[0])
    ensures cs[j + |EscChar(s[0])|..j + |Escape(s)|] == Escape(s[1..])
  {
    assert Escape(s) == EscChar(s[0]) + Escape(s[1..]);
    SliceSplit(cs, j, EscChar(s[0]), Escape(s[1..]));
  }

  /**
   * The step of `EscapeScan`: the first character of `s`, as written at `j`,
   * is read back, and then the rest of `s` as the hypothesis says.
   */
  lemma EscapeCons(cs: string, j: nat, m: nat, s: string, acc: string)
    requires s != [] && j + |EscChar(s[0])| <= m <= |cs| && cs[j..j + |EscChar(s[0])|] == EscChar(s[0])
    requires StrScan(cs, j + |EscChar(s[0])|, acc + [s[0]]) == StrScan(cs, m, acc + [s[0]] + s[1..])
    ensures StrScan(cs, j, acc) == StrScan(cs, m, acc + s)
  {
    EscStep(cs, j, s[0], acc);
    ConsAppend(acc, s);
  }

  /** Appending a non-empty string is appending its head, then its tail. */
  lemma ConsAppend(acc: string, s: string)
    requires s != []
    ensures acc + [s[0]] + s[1..] == acc + s
  {
    assert s == [s[0]] + s[1..];
  }

  /** One character of a string body, as written, is read back and appended. */
  lemma EscStep(cs: string, j: nat, c: char, acc: string)
    requires j + |EscChar(c)| <= |cs| && cs[j..j + |EscChar(c)|] == EscChar(c)
    ensures StrScan(cs, j, acc) == StrScan(cs, j + |EscChar(c)|, acc + [c])
  {
    assert cs[j] == cs[j..j + |EscChar(c)|][0];
    if c == '"' || c == '\\' {
      assert cs[j + 1] == cs[j..j + 2][1];
    }
  }

  /** A run of identifier characters ended by any other character ends where `IdentEnd` says. */
  lemma {:induction false} IdentEndAt(cs: string, j: nat, k: nat)
    requires j <= k <= |cs|
    requires forall m :: j <= m < k ==> IsIdentChar(cs[m])
    requires k < |cs| ==> !IsIdentChar(cs[k])
    ensures IdentEnd(cs, j) == k
    decreases k - j
  {
    if j < k {
      IdentEndAt(cs, j + 1, k);
    }
  }

  /** A run of digits ended by any other character ends where `DigitEnd` says. */
  lemma {:induction false} DigitEndAt(cs: string, j: nat, k: nat)
    requires j <= k <= |cs|
    requires forall m :: j <= m < k ==> IsAsciiDigit(cs[m])
    requires k < |cs| ==> !IsAsciiDigit(cs[k])
    ensures DigitEnd(cs, j) == k
    decreases k - j
  {
    if j < k {
      DigitEndAt(cs, j + 1, k);
    }
  }

  /** Every character up to `IdentEnd` continues an identifier: with its ensures, the run is maximal. */
  lemma {:induction false} IdentEndRun(cs: string, j: nat)
    requires j <= |cs|
    ensures forall m :: j <= m < IdentEnd(cs, j) ==> IsIdentChar(cs[m])
    decreases |cs| - j
  {
    if j < |cs| && IsIdentChar(cs[j]) {
      IdentEndRun(cs, j + 1);
    }
  }

  /** Every character up to `DigitEnd` is a digit: with its ensures, the run is maximal. */
  lemma {:induction false} DigitEndRun(cs: string, j: nat)
    requires j <= |cs|
    ensures forall m :: j <= m < DigitEnd(cs, j) ==> IsAsciiDigit(cs[m])
    decreases |cs| - j
  {
    if j < |cs| && IsAsciiDigit(cs[j]) {
      DigitEndRun(cs, j + 1);
    }
  }

  lemma IdentScans(cs: string, i: nat, name: string)
    requires IsIdent(name)
    requires i + |name| < |cs| && cs[i..i + |name|] == name && cs[i + |name|] == ' '
    ensures ScanToken(cs, i) == Ok(([Ident(name)], i + |name|))
  {
    assert cs[i] == name[0];
    AllIdentCharsIff(name, 1);
    forall m | i + 1 <= m < i + |name| ensures IsIdentChar(cs[m]) {
      assert cs[m] == name[m - i];
    }
    IdentEndAt(cs, i + 1, i + |name|);
    SubIsSlice(cs, i, i + |name|);
  }

  lemma NumScans(cs: string, i: nat, d: string)
    requires |d| > 0 && AllDigits(d)
    requires i + |d| < |cs| && cs[i..i + |d|] == d && cs[i + |d|] == ' '
    ensures ScanToken(cs, i) == Ok(([Num(d)], i + |d|))
  {
    assert cs[i] == d[0];
    forall m | i + 1 <= m < i + |d| ensures IsAsciiDigit(cs[m]) {
      assert cs[m] == d[m - i];
    }
    DigitEndAt(cs, i + 1, i + |d|);
    SubIsSlice(cs, i, i + |d|);
  }

  lemma StrScans(cs: string, i: nat, s: string)
    requires i + |Text(Str(s))| <= |cs| && cs[i..i + |Text(Str(s))|] == Text(Str(s))
    ensures ScanToken(cs, i) == Ok(([Str(s)], i + |Text(Str(s))|))
  {
    var j := i + 1 + |Escape(s)|;
    SliceSplit(cs, i, "\"", Escape(s) + "\"");
    SliceSplit(cs, i + 1, Escape(s), "\"");
    EscapeScan(cs, i + 1, s, "");
    assert "" + s == s;
    assert cs[i] == '"';
    assert cs[j] == '"';
    assert StrScan(cs, j, s) == Some((s, j));
    assert StrScan(cs, i + 1, "") == Some((s, j));
  }

  lemma OperatorScans(cs: string, i: nat, t: Token)
    requires t.And? || t.Or? || t.Eq? || t.Ne? || t.Not? || t.LParen? || t.RParen?
    requires i + |Text(t)| < |cs| && cs[i..i + |Text(t)|] == Text(t) && cs[i + |Text(t)|] == ' '
    ensures ScanToken(cs, i) == Ok(([t], i + |Text(t)|))
  {
    assert cs[i] == Text(t)[0];
    if |Text(t)| == 2 {
      assert cs[i + 1] == Text(t)[1];
    }
  }

  /** A well-formed token written out and followed by a space is read back as that token. */
  lemma TokenScans(cs: string, i: nat, t: Token)
    requires WellFormed(t)
    requires i + |Text(t)| < |cs| && cs[i..i + |Text(t)|] == Text(t) && cs[i + |Text(t)|] == ' '
    ensures ScanToken(cs, i) == Ok(([t], i + |Text(t)|))
  {
    match t
    case Ident(name) => IdentScans(cs, i, name);
    case Num(d) => NumScans(cs, i, d);
    case Str(s) => StrScans(cs, i, s);
    case _ => OperatorScans(cs, i, t);
  }

  /** One pass of the scan, as `LexAcc` takes it. */
  lemma LexStep(cs: string, i: nat, acc: seq<Token>)
    requires i < |cs| && ScanToken(cs, i).Ok?
    ensures LexAcc(cs, i, acc) == LexAcc(cs, ScanToken(cs, i).value.1, acc + ScanToken(cs, i).value.0)
  {
  }

  /**
   * `w` occurs in `cs` at index `i`, compared from position `k` of `w` on.
   * Written recursively so that the solver unfolds it only on request.
   */
  predicate MatchFrom(cs: string, i: nat, w: string, k: nat)
    decreases |w| - k
  {
    k >= |w| || (i + k < |cs| && cs[i + k] == w[k] && MatchFrom(cs, i, w, k + 1))
  }

  /** `w` occurs in `cs` at index `i`. */
  predicate Occurs(cs: string, i: nat, w: string) {
    i + |w| <= |cs| && MatchFrom(cs, i, w, 0)
  }

  lemma {:induction false} MatchFromIff(cs: string, i: nat, w: string, k: nat)
    requires k <= |w| && i + |w| <= |cs|
    ensures MatchFrom(cs, i, w, k) <==> cs[i + k..i + |w|] == w[k..]
    decreases |w| - k
  {
    if k < |w| {
      MatchFromIff(cs, i, w, k + 1);
      assert cs[i + k..i + |w|] == [cs[i + k]] + cs[i + k + 1..i + |w|];
      assert w[k..] == [w[k]] + w[k + 1..];
    }
  }

  /** `Occurs` is the slice condition. */
  lemma OccursIff(cs: string, i: nat, w: string)
    ensures Occurs(cs, i, w) <==> i + |w| <= |cs| && cs[i..i + |w|] == w
  {
    if i + |w| <= |cs| {
      MatchFromIff(cs, i, w, 0);
      assert w[0..] == w;
    }
  }

  /** An occurrence of `a + b` is an occurrence of `a` followed by one of `b`. */
  lemma OccursSplit(cs: string, i: nat, a: string, b: string)
    requires Occurs(cs, i, a + b)
    ensures Occurs(cs, i, a) && Occurs(cs, i + |a|, b)
  {
    OccursIff(cs, i, a + b);
    SliceSplit(cs, i, a, b);
    OccursIff(cs, i, a);
    OccursIff(cs, i + |a|, b);
  }

  /** A well-formed token and the space after it are read back as that token. */
  lemma TokenThenSpace(cs: string, i: nat, t: Token, acc: seq<Token>)
    requires WellFormed(t)
    requires Occurs(cs, i, Text(t) + " ")
    ensures i + |Text(t)| + 1 <= |cs|
    ensures LexAcc(cs, i, acc) == LexAcc(cs, i + |Text(t)| + 1, acc + [t])
  {
    var n := |Text(t)|;
    OccursSplit(cs, i, Text(t), " ");
    OccursIff(cs, i, Text(t));
    OccursIff(cs, i + n, " ");
    assert cs[i + n] == cs[i + n..i + n + 1][0];
    TokenScans(cs, i, t);
    LexStep(cs, i, acc);
    assert ScanToken(cs, i + n) == Ok(([], i + n + 1));
    LexStep(cs, i + n, acc + [t]);
    assert acc + [t] + [] == acc + [t];
  }

  /**
   * The rendering of the well-formed tokens from index `k` on lies in `cs`
   * from `i`, one token and its space at a time.
   */
  predicate Laid(cs: string, i: nat, ts: seq<Token>, k: nat)
    decreases |ts| - k
  {
    k >= |ts| || (Occurs(cs, i, Text(ts[k]) + " ") && Laid(cs, i + |Text(ts[k])| + 1, ts, k + 1))
  }

  /** Every token from index `k` on is well formed. */
  predicate WellFormedFrom(ts: seq<Token>, k: nat)
    decreases |ts| - k
  {
    k >= |ts| || (WellFormed(ts[k]) && WellFormedFrom(ts, k + 1))
  }

  /** `AllWellFormed` read one index at a time. */
  lemma {:induction false} AllWellFormedFrom(ts: seq<Token>, k: nat)
    requires AllWellFormed(ts)
    ensures WellFormedFrom(ts, k)
    decreases |ts| - k
  {
    if k < |ts| {
      AllWellFormedFrom(ts, k + 1);
    }
  }

  /** The length of the rendering of the tokens from index `k` on. */
  function Width(ts: seq<Token>, k: nat): nat
    decreases |ts| - k
  {
    if k >= |ts| then 0 else |Text(ts[k])| + 1 + Width(ts, k + 1)
  }

  /** An occurrence of a rendering is an occurrence of each of its tokens in turn, and has its width. */
  lemma {:induction false} RenderLaid(cs: string, i: nat, ts: seq<Token>, k: nat)
    requires Occurs(cs, i, RenderFrom(ts, k))
    ensures Laid(cs, i, ts, k) && Width(ts, k) == |RenderFrom(ts, k)|
    decreases |ts| - k
  {
    if k < |ts| {
      OccursSplit(cs, i, Text(ts[k]) + " ", RenderFrom(ts, k + 1));
      RenderLaid(cs, i + |Text(ts[k])| + 1, ts, k + 1);
    }
  }

  /** The token at index `k`, laid out at `i`, is read back, and the scan moves past its space. */
  lemma LaidStep(cs: string, i: nat, ts: seq<Token>, k: nat)
    requires k < |ts| && WellFormed(ts[k]) && Laid(cs, i, ts, k)
    ensures i + |Text(ts[k])| + 1 <= |cs|
    ensures LexAcc(cs, i, ts[..k]) == LexAcc(cs, i + |Text(ts[k])| + 1, ts[..k + 1])
  {
    TokenThenSpace(cs, i, ts[k], ts[..k]);
    assert ts[..k] + [ts[k]] == ts[..k + 1];
  }

  /**
   * The rendering of the tokens from index `k` on, lying in `cs` from `i`
   * to `j`, is read back as those tokens, whatever surrounds it.
   */
  lemma {:induction false} RenderLexes(cs: string, i: nat, j: nat, ts: seq<Token>, k: nat)
    requires k <= |ts| && WellFormedFrom(ts, k)
    requires Laid(cs, i, ts, k) && j == i + Width(ts, k) && j <= |cs|
    ensures LexAcc(cs, i, ts[..k]) == LexAcc(cs, j, ts)
    decreases |ts| - k
  {
    if k == |ts| {
      assert j == i;
      assert ts[..k] == ts;
      assert LexAcc(cs, i, ts[..k]) == LexAcc(cs, j, ts);
    } else {
      LaidStep(cs, i, ts, k);
      RenderLexes(cs, i + |Text(ts[k])| + 1, j, ts, k + 1);
    }
  }

  /** The whole rendering of `ts`, at the front of `cs`, is read back as `ts`. */
  lemma RenderedPrefix(cs: string, ts: seq<Token>)
    requires AllWellFormed(ts)
    requires |Render(ts)| <= |cs| && cs[..|Render(ts)|] == Render(ts)
    ensures Lex(cs) == LexAcc(cs, |Render(ts)|, ts)
  {
    OccursIff(cs, 0, Render(ts));
    RenderLaid(cs, 0, ts, 0);
    AllWellFormedFrom(ts, 0);
    RenderLexes(cs, 0, |Render(ts)|, ts, 0);
    assert ts[..0] == [];
  }

  /** Tokenizing a rendering gives the token list back. */
  lemma RoundTrip(ts: seq<Token>)
    requires AllWellFormed(ts)
    ensures Lex(Render(ts)) == Ok(ts)
  {
    assert Render(ts)[..|Render(ts)|] == Render(ts);
    RenderedPrefix(Render(ts), ts);
  }

  /** After well-formed tokens, a lone `&`, `|` or `=` is an error. */
  lemma LoneOperator(cs: string, ts: seq<Token>)
    requires AllWellFormed(ts)
    requires |Render(ts)| < |cs| && cs[..|Render(ts)|] == Render(ts)
    requires cs[|Render(ts)|] in "&|="
    requires |Render(ts)| + 1 == |cs| || cs[|Render(ts)| + 1] != cs[|Render(ts)|]
    ensures Lex(cs) == Err(if cs[|Render(ts)|] == '&' then SingleAmp else if cs[|Render(ts)|] == '|' then SinglePipe else SingleEq)
  {
    RenderedPrefix(cs, ts);
  }

  /** After well-formed tokens, `!=` is one `Ne` token. */
  lemma BangEquals(cs: string, ts: seq<Token>)
    requires AllWellFormed(ts)
    requires |Render(ts)| + 1 < |cs| && cs[..|Render(ts)|] == Render(ts)
    requires cs[|Render(ts)|] == '!' && cs[|Render(ts)| + 1] == '='
    ensures Lex(cs) == LexAcc(cs, |Render(ts)| + 2, ts + [Ne])
  {
    RenderedPrefix(cs, ts);
  }

  /** After well-formed tokens, `!` not followed by `=` is a `Not` token. */
  lemma BangAlone(cs: string, ts: seq<Token>)
    requires AllWellFormed(ts)
    requires |Render(ts)| < |cs| && cs[..|Render(ts)|] == Render(ts)
    requires cs[|Render(ts)|] == '!'
    requires |Render(ts)| + 1 == |cs| || cs[|Render(ts)| + 1] != '='
    ensures Lex(cs) == LexAcc(cs, |Render(ts)| + 1, ts + [Not])
  {
    RenderedPrefix(cs, ts);
  }

  /** After well-formed tokens, a character that starts no token is an error naming it. */
  lemma UnknownChar(cs: string, ts: seq<Token>)
    requires AllWellFormed(ts)
    requires |Render(ts)| < |cs| && cs[..|Render(ts)|] == Render(ts)
    requires !IsWhitespace(cs[|Render(ts)|]) && !IsAsciiDigit(cs[|Render(ts)|]) && !IsIdentStart(cs[|Render(ts)|])
    requires cs[|Render(ts)|] !in "&|=!()\""
    ensures Lex(cs) == Err(UnexpectedChar(cs[|Render(ts)|]))
  {
    RenderedPrefix(cs, ts);
  }

  /** An escaped body that runs to the end of the input, or to a final lone backslash, never closes. */
  lemma EscapedUnclosed(cs: string, j: nat, s: string, acc: string)
    requires j + |Escape(s)| <= |cs| && cs[j..j + |Escape(s)|] == Escape(s)
    requires |cs| == j + |Escape(s)| || (|cs| == j + |Escape(s)| + 1 && cs[|cs| - 1] == '\\')
    ensures StrScan(cs, j, acc).None?
  {
    EscapeScan(cs, j, s, acc);
  }

  /** After well-formed tokens, a `"` whose escaped body runs to the end, or to a final lone backslash, is an error. */
  lemma UnclosedAfter(cs: string, ts: seq<Token>, s: string)
    requires AllWellFormed(ts)
    requires |Render(ts)| < |cs| && cs[..|Render(ts)|] == Render(ts) && cs[|Render(ts)|] == '"'
    requires |Render(ts)| + 1 + |Escape(s)| <= |cs| && cs[|Render(ts)| + 1..|Render(ts)| + 1 + |Escape(s)|] == Escape(s)
    requires |cs| == |Render(ts)| + 1 + |Escape(s)| || (|cs| == |Render(ts)| + 2 + |Escape(s)| && cs[|cs| - 1] == '\\')
    ensures Lex(cs) == Err(UnterminatedString)
  {
    RenderedPrefix(cs, ts);
    EscapedUnclosed(cs, |Render(ts)| + 1, s, "");
  }

  /**
   * After well-formed tokens, a string that is never closed is an error,
   * also when its last character is a backslash.
   */
  lemma Unterminated(cs: string, ts: seq<Token>, s: string)
    requires AllWellFormed(ts)
    requires cs == Render(ts) + "\"" + Escape(s) || cs == Render(ts) + "\"" + Escape(s) + "\\"
    ensures Lex(cs) == Err(UnterminatedString)
  {
    var r, e := Render(ts), Escape(s);
    var n := |r|;
    var body := r + "\"" + e;
    assert body[..n] == r && body[n] == '"' && body[n + 1..n + 1 + |e|] == e;
    if cs != body {
      assert cs[..|body|] == body;
    }
    UnclosedAfter(cs, ts, s);
  }

  /** The tokens produced by one pass are well formed. */
  lemma ScanWellFormed(cs: string, i: nat)
    requires i < |cs|
    requires ScanToken(cs, i).Ok?
    ensures AllWellFormed(ScanToken(cs, i).value.0)
  {
    var c := cs[i];
    if !IsWhitespace(c) && c !in "&|=!()\"" {
      if IsAsciiDigit(c) {
        var e := DigitEnd(cs, i + 1);
        DigitEndRun(cs, i + 1);
        SubIsSlice(cs, i, e);
        assert AllDigits(Sub(cs, i, e));
      } else if IsIdentStart(c) {
        var e := IdentEnd(cs, i + 1);
        var n := Sub(cs, i, e);
        IdentEndRun(cs, i + 1);
        SubIsSlice(cs, i, e);
        AllIdentCharsIff(n, 1);
        assert IsIdent(n);
      }
    }
  }

  /** Every token `tokenize` produces is well formed, and the tokens before `i` are kept in front. */
  lemma {:induction false} LexWellFormed(cs: string, i: nat, acc: seq<Token>)
    requires i <= |cs|
    requires AllWellFormed(acc)
    ensures LexAcc(cs, i, acc).Ok? ==> AllWellFormed(LexAcc(cs, i, acc).value)
    ensures LexAcc(cs, i, acc).Ok? ==> |acc| <= |LexAcc(cs, i, acc).value| && LexAcc(cs, i, acc).value[..|acc|] == acc
    decreases |cs| - i
  {
    if i < |cs| && ScanToken(cs, i).Ok? {
      var (found, next) := ScanToken(cs, i).value;
      ScanWellFormed(cs, i);
      assert AllWellFormed(acc + found) by {
        forall k | 0 <= k < |acc + found| ensures WellFormed((acc + found)[k]) {
          if k < |acc| {
            assert (acc + found)[k] == acc[k];
          } else {
            assert (acc + found)[k] == found[k - |acc|];
          }
        }
      }
      LexWellFormed(cs, next, acc + found);
      if LexAcc(cs, i, acc).Ok? {
        assert LexAcc(cs, i, acc).value[..|acc + found|] == acc + found;
        assert (acc + found)[..|acc|] == acc;
      }
    }
  }
}
