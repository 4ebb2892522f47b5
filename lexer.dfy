/**
 * The expression tokenizer `tokenize` (src/main.rs:321-420): one pass over
 * the characters of an `#if` expression, producing identifiers, quoted
 * strings with backslash escapes, digit runs and the seven operator tokens.
 *
 * `LexAcc` is the specification: the token list still to be produced from
 * index `i` on, given the tokens `acc` already produced, one `ScanToken`
 * pass at a time. `Tokenize` is the original loop, its body `ScanOne` and
 * the nested scans, proved equal to it.
 */
module Lexer {
  import opened Wrappers
  import opened Chars
  import opened Errors

  datatype Token =
    | Ident(name: string)
    | Str(text: string)
    | Num(digits: string)
    | And
    | Or
    | Eq
    | Ne
    | Not
    | LParen
    | RParen

  /** The end of the digit run starting at `j`: the first index at or after `j` that holds no digit. */
  function DigitEnd(cs: string, j: nat): (r: nat)
    requires j <= |cs|
    ensures j <= r <= |cs|
    ensures r < |cs| ==> !IsAsciiDigit(cs[r])
    decreases |cs| - j
  {
    if j < |cs| && IsAsciiDigit(cs[j]) then DigitEnd(cs, j + 1) else j
  }

  /** The end of the identifier-character run starting at `j`. */
  function IdentEnd(cs: string, j: nat): (r: nat)
    requires j <= |cs|
    ensures j <= r <= |cs|
    ensures r < |cs| ==> !IsIdentChar(cs[r])
    decreases |cs| - j
  {
    if j < |cs| && IsIdentChar(cs[j]) then IdentEnd(cs, j + 1) else j
  }

  /**
   * The body of a quoted string whose opening `"` lies just before `j`,
   * with `acc` read so far: a backslash and the character after it stand for
   * that character, and the string ends at the next `"`. The result is the
   * body and the index of the closing `"`; `None` when the input ends first,
   * including when it ends in a lone backslash.
   */
  function StrScan(cs: string, j: nat, acc: string): (r: Option<(string, nat)>)
    requires j <= |cs|
    ensures r.Some? ==> j <= r.value.1 < |cs| && cs[r.value.1] == '"'
    decreases |cs| - j
  {
    if j >= |cs| then None
    else if cs[j] == '"' then Some((acc, j))
    else if cs[j] == '\\' && j + 1 < |cs| then StrScan(cs, j + 2, acc + [cs[j + 1]])
    else StrScan(cs, j + 1, acc + [cs[j]])
  }

  /**
   * One pass of the tokenizer's loop at index `i < |cs|`: the token found
   * there (none for white space) and the index where the next pass starts,
   * or the error that stops the scan.
   */
  function ScanToken(cs: string, i: nat): (r: Result<(seq<Token>, nat), ExprError>)
    requires i < |cs|
    ensures r.Ok? ==> i < r.value.1 <= |cs| && |r.value.0| <= 1
  {
    var c := cs[i];
    if IsWhitespace(c) then Ok(([], i + 1))
    else if c == '&' then
      if i + 1 < |cs| && cs[i + 1] == '&' then Ok(([And], i + 2)) else Err(SingleAmp)
    else if c == '|' then
      if i + 1 < |cs| && cs[i + 1] == '|' then Ok(([Or], i + 2)) else Err(SinglePipe)
    else if c == '=' then
      if i + 1 < |cs| && cs[i + 1] == '=' then Ok(([Eq], i + 2)) else Err(SingleEq)
    else if c == '!' then
      if i + 1 < |cs| && cs[i + 1] == '=' then Ok(([Ne], i + 2)) else Ok(([Not], i + 1))
    else if c == '(' then Ok(([LParen], i + 1))
    else if c == ')' then Ok(([RParen], i + 1))
    else if c == '"' then
      match StrScan(cs, i + 1, "")
      case None => Err(UnterminatedString)
      case Some((body, close)) => Ok(([Str(body)], close + 1))
    else if IsAsciiDigit(c) then
      Ok(([Num(Sub(cs, i, DigitEnd(cs, i + 1)))], DigitEnd(cs, i + 1)))
    else if IsIdentStart(c) then
      Ok(([Ident(Sub(cs, i, IdentEnd(cs, i + 1)))], IdentEnd(cs, i + 1)))
    else Err(UnexpectedChar(c))
  }

  /** The tokens of `cs` from index `i` on, after the tokens `acc`; the first error stops the scan. */
  function LexAcc(cs: string, i: nat, acc: seq<Token>): (r: Result<seq<Token>, ExprError>)
    requires i <= |cs|
    ensures r.Ok? ==> acc <= r.value
    decreases |cs| - i
  {
    if i == |cs| then Ok(acc)
    else
      match ScanToken(cs, i)
      case Err(e) => Err(e)
      case Ok((found, next)) => LexAcc(cs, next, acc + found)
  }

  /** The tokens of a whole expression. */
  function Lex(cs: string): Result<seq<Token>, ExprError> {
    LexAcc(cs, 0, [])
  }

  /**
   * `tokenize`. Each pass of the loop is `ScanOne`; the tokens pushed so far
   * followed by the tokens of the unread rest are always the tokens of the
   * whole expression.
   */
  method Tokenize(expr: string) returns (r: Result<seq<Token>, ExprError>)
    ensures r == Lex(expr)
  {
    var tokens: seq<Token> := [];
    var i: nat := 0;
    var chars := expr;
    while i < |chars|
      invariant i <= |chars|
      invariant Lex(chars) == LexAcc(chars, i, tokens)
      decreases |chars| - i
    {
      var step := ScanOne(chars, i);
      if step.Err? {
        return Err(step.error);
      }
      tokens := tokens + step.value.0;
      i := step.value.1;
    }
    return Ok(tokens);
  }

  /** The body of the `tokenize` loop at index `i`: white space is skipped, anything else is one token or an error. */
  method ScanOne(chars: string, i: nat) returns (r: Result<(seq<Token>, nat), ExprError>)
    requires i < |chars|
    ensures r == ScanToken(chars, i)
  {
    var c := chars[i];
    if IsWhitespace(c) {
      return Ok(([], i + 1));
    }
    if c == '&' {
      if i + 1 < |chars| && chars[i + 1] == '&' {
        return Ok(([And], i + 2));
      }
      return Err(SingleAmp);
    } else if c == '|' {
      if i + 1 < |chars| && chars[i + 1] == '|' {
        return Ok(([Or], i + 2));
      }
      return Err(SinglePipe);
    } else if c == '=' {
      if i + 1 < |chars| && chars[i + 1] == '=' {
        return Ok(([Eq], i + 2));
      }
      return Err(SingleEq);
    } else if c == '!' {
      if i + 1 < |chars| && chars[i + 1] == '=' {
        return Ok(([Ne], i + 2));
      }
      return Ok(([Not], i + 1));
    } else if c == '(' {
      return Ok(([LParen], i + 1));
    } else if c == ')' {
      return Ok(([RParen], i + 1));
    } else if c == '"' {
      var s, close := ScanString(chars, i + 1);
      if close.None? {
        return Err(UnterminatedString);
      }
      return Ok(([Str(s)], close.value + 1));
    } else if IsAsciiDigit(c) {
      var s, next := ScanDigits(chars, i);
      return Ok(([Num(s)], next));
    } else if IsIdentStart(c) {
      var s, next := ScanIdent(chars, i);
      return Ok(([Ident(s)], next));
    }
    return Err(UnexpectedChar(c));
  }

  /**
   * The string loop of `tokenize`, entered just after the opening `"`: the
   * body read and the index of the closing `"`, or no index when the input
   * ends first.
   */
  method ScanString(chars: string, start: nat) returns (s: string, close: Option<nat>)
    requires start <= |chars|
    ensures close.Some? ==> StrScan(chars, start, "") == Some((s, close.value))
    ensures close.None? <==> StrScan(chars, start, "").None?
  {
    s := "";
    var i := start;
    while i < |chars|
      invariant start <= i <= |chars|
      invariant StrScan(chars, start, "") == StrScan(chars, i, s)
      decreases |chars| - i
    {
      var ch := chars[i];
      if ch == '"' {
        break;
      }
      if ch == '\\' && i + 1 < |chars| {
        var next := chars[i + 1];
        s := s + [next];
        i := i + 2;
        continue;
      }
      s := s + [ch];
      i := i + 1;
    }
    if i >= |chars| || chars[i] != '"' {
      return s, None;
    }
    return s, Some(i);
  }

  /** The digit loop of `tokenize`: the maximal digit run starting at `start` and the index after it. */
  method ScanDigits(chars: string, start: nat) returns (s: string, next: nat)
    requires start < |chars| && IsAsciiDigit(chars[start])
    ensures next == DigitEnd(chars, start + 1)
    ensures s == Sub(chars, start, next)
  {
    s := [chars[start]];
    var i := start + 1;
    while i < |chars| && IsAsciiDigit(chars[i])
      invariant start < i <= |chars|
      invariant s == Sub(chars, start, i)
      invariant DigitEnd(chars, start + 1) == DigitEnd(chars, i)
      decreases |chars| - i
    {
      s := s + [chars[i]];
      i := i + 1;
    }
    return s, i;
  }

  /** The identifier loop of `tokenize`: the maximal identifier run starting at `start` and the index after it. */
  method ScanIdent(chars: string, start: nat) returns (s: string, next: nat)
    requires start < |chars| && IsIdentStart(chars[start])
    ensures next == IdentEnd(chars, start + 1)
    ensures s == Sub(chars, start, next)
  {
    s := [chars[start]];
    var i := start + 1;
    while i < |chars| && IsIdentChar(chars[i])
      invariant start < i <= |chars|
      invariant s == Sub(chars, start, i)
      invariant IdentEnd(chars, start + 1) == IdentEnd(chars, i)
      decreases |chars| - i
    {
      s := s + [chars[i]];
      i := i + 1;
    }
    return s, i;
  }
}
