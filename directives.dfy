/**
 * Recognising directive lines (src/main.rs:107-173) and reading the
 * argument of `#include` (`parse_include_path`, src/main.rs:190-203).
 */
module Directives {
  import opened Wrappers
  import opened Chars
  import opened Definitions
  import opened Substitution

  /**
   * What a line is to `process_file`. `Include` keeps the text after `#`
   * and the white space, starting with the keyword, since that is what
   * `parse_include_path` is given; the conditional directives keep their
   * trimmed argument.
   */
  datatype Line =
    | Include(rest: string)
    | IfDef(name: string)
    | IfNDef(name: string)
    | If(expr: string)
    | Else
    | Endif
    | Text

  /**
   * A line is a directive only when `#` is its first character. The
   * keywords are tried as prefixes, in this order, so `#iffy` reads as `#if
   * fy` and `#elsewhere` as `#else`; a `#` line that matches none is text.
   */
  function Classify(raw: string): (l: Line)
    ensures l.Include? ==> StartsWith(l.rest, "include")
    ensures (|raw| == 0 || raw[0] != '#') ==> l == Text
  {
    if |raw| > 0 && raw[0] == '#' then Keyword(TrimStart(raw[1..])) else Text
  }

  /** The keyword dispatch on the text after `#` and any white space. */
  function Keyword(t: string): (l: Line)
    ensures l.Include? ==> l.rest == t && StartsWith(t, "include")
  {
    if StartsWith(t, "include") then Include(t)
    else if StartsWith(t, "ifdef") then IfDef(Trim(t[5..]))
    else if StartsWith(t, "ifndef") then IfNDef(Trim(t[6..]))
    else if StartsWith(t, "if") then If(Trim(t[2..]))
    else if StartsWith(t, "else") then Else
    else if StartsWith(t, "endif") then Endif
    else Text
  }

  /** A `#` line is text exactly when none of the keywords begins it; `ifdef` and `ifndef` begin with `if`. */
  lemma KeywordText(t: string)
    ensures Keyword(t) == Text <==>
      !StartsWith(t, "include") && !StartsWith(t, "if") && !StartsWith(t, "else") && !StartsWith(t, "endif")
  {
    assert "ifdef" == "if" + "def" && "ifndef" == "if" + "ndef";
    if StartsWith(t, "ifdef") {
      PrefixOfPrefix(t, "if", "def");
    }
    if StartsWith(t, "ifndef") {
      PrefixOfPrefix(t, "if", "ndef");
    }
  }

  /** Once `include` and the `if` family are ruled out, only `else` and `endif` are left. */
  lemma KeywordClosing(t: string)
    requires !StartsWith(t, "include") && !StartsWith(t, "if")
    ensures Keyword(t) == if StartsWith(t, "else") then Else else if StartsWith(t, "endif") then Endif else Text
  {
    assert "ifdef" == "if" + "def" && "ifndef" == "if" + "ndef";
    if StartsWith(t, "ifdef") {
      PrefixOfPrefix(t, "if", "def");
    }
    if StartsWith(t, "ifndef") {
      PrefixOfPrefix(t, "if", "ndef");
    }
  }

  lemma PrefixOfPrefix(t: string, a: string, b: string)
    requires StartsWith(t, a + b)
    ensures StartsWith(t, a)
  {
    assert t[..|a|] == (a + b)[..|a|];
  }

  /** `include` is tested first, so a text starting with it is always an include. */
  lemma KeywordInclude(t: string)
    requires StartsWith(t, "include")
    ensures Keyword(t) == Include(t)
  {
  }

  /** A text starting with `ifdef` is an `#ifdef` with the trimmed rest as its name. */
  lemma KeywordIfdef(t: string)
    requires StartsWith(t, "ifdef")
    ensures Keyword(t) == IfDef(Trim(t[5..]))
  {
    DiffersAt(t, "include", 1);
  }

  /** `#ifdef NAME` names `NAME`, for a name with no white space at either end. */
  lemma IfdefLine(name: string)
    requires name != [] && !IsWhitespace(name[0]) && !IsWhitespace(name[|name| - 1])
    ensures Classify("#ifdef " + name) == IfDef(name)
  {
    var u := " " + name;
    var t := "ifdef" + u;
    assert t[..5] == "ifdef" && t[5..] == u;
    assert "#ifdef " + name == "#" + t;
    ClassifyDirective(t);
    KeywordIfdef(t);
    TrimSpaced(name);
  }

  /** A `#` followed at once by a keyword hands that text to the keyword dispatch. */
  lemma ClassifyDirective(t: string)
    requires t != [] && !IsWhitespace(t[0])
    ensures Classify("#" + t) == Keyword(t)
  {
    assert ("#" + t)[1..] == t;
    TrimStartNone(t);
  }

  /** One leading space before text with no white space at either end is trimmed away. */
  lemma TrimSpaced(name: string)
    requires name != [] && !IsWhitespace(name[0]) && !IsWhitespace(name[|name| - 1])
    ensures Trim(" " + name) == name
  {
    var u := " " + name;
    assert u[0] == ' ' && u[1..] == name;
    assert TrimStart(u) == TrimStart(name);
    TrimNone(name);
  }

  /** A text differing from a word at some position within both does not start with it. */
  lemma DiffersAt(t: string, w: string, k: nat)
    requires k < |t| && k < |w| && t[k] != w[k]
    ensures !StartsWith(t, w)
  {
  }

  /** Keywords are matched as prefixes: `#iffy` is `#if fy`. */
  lemma IffyIsIf()
    ensures Classify("#iffy") == If("fy")
  {
    var t := "iffy";
    assert "#iffy"[1..] == t;
    TrimStartNone(t);
    DiffersAt(t, "ifdef", 2);
    DiffersAt(t, "ifndef", 2);
    KeywordIf(t);
    assert t[2..] == "fy";
    TrimNone("fy");
  }

  lemma KeywordIf(t: string)
    requires StartsWith(t, "if") && !StartsWith(t, "ifdef") && !StartsWith(t, "ifndef")
    ensures Keyword(t) == If(Trim(t[2..]))
  {
    DiffersAt(t, "include", 1);
  }

  /** Keywords are matched as prefixes: `#elsewhere` is `#else`. */
  lemma ElsewhereIsElse()
    ensures Classify("#elsewhere") == Else
  {
    var t := "elsewhere";
    assert "#elsewhere"[1..] == t;
    TrimStartNone(t);
    assert StartsWith(t, "else");
    KeywordElse(t);
  }

  lemma KeywordElse(t: string)
    requires StartsWith(t, "else")
    ensures Keyword(t) == Else
  {
    assert t[0] == 'e';
    DiffersAt(t, "include", 0);
    DiffersAt(t, "ifdef", 0);
    DiffersAt(t, "ifndef", 0);
    DiffersAt(t, "if", 0);
  }

  /** `ifndef` is not read as `ifdef`, though both begin with `if`. */
  lemma IfndefIsNotIfdef()
    ensures Classify("#ifndef X") == IfNDef("X")
  {
    var t := "ifndef X";
    assert "#ifndef X"[1..] == t;
    TrimStartNone(t);
    assert t[..6] == "ifndef";
    KeywordIfndef(t);
    assert t[6..] == " X";
    assert TrimStart(" X") == "X" by {
      assert " X"[1..] == "X";
    }
    assert TrimEnd("X") == "X";
  }

  lemma KeywordIfndef(t: string)
    requires StartsWith(t, "ifndef")
    ensures Keyword(t) == IfNDef(Trim(t[6..]))
  {
    DiffersAt(t, "include", 1);
    DiffersAt(t, "ifdef", 2);
  }

  /** A `#` word that is no keyword leaves the line text. */
  lemma UnknownDirectiveIsText(rest: string)
    ensures Classify("#notadirective" + rest) == Text
  {
    var t := "notadirective" + rest;
    assert ("#notadirective" + rest)[1..] == t;
    DiffersAt(t, "include", 0);
    DiffersAt(t, "ifdef", 0);
    DiffersAt(t, "ifndef", 0);
    DiffersAt(t, "if", 0);
    DiffersAt(t, "else", 0);
    DiffersAt(t, "endif", 0);
  }

  /** `cleaned.retain(|c| c != '"')`: every double quote removed, everything else kept in order. */
  function Unquote(s: string): (r: string)
    ensures '"' !in r
    ensures '"' !in s ==> r == s
    ensures forall c :: c != '"' ==> multiset(r)[c] == multiset(s)[c]
  {
    if s == [] then []
    else
      assert s == [s[0]] + s[1..];
      (if s[0] == '"' then [] else [s[0]]) + Unquote(s[1..])
  }

  /**
   * `parse_include_path`: the argument after the keyword, trimmed; nothing
   * when that is empty; otherwise quotes removed and `##name##` spans
   * substituted, and nothing when that leaves the empty string.
   */
  function IncludePath(rest: string, defs: Defs): (r: Option<string>)
    requires StartsWith(rest, "include")
    reads defs
    ensures r.Some? ==> r.value != ""
    ensures Trim(rest[7..]) == "" ==> r.None?
  {
    var after := Trim(rest[7..]);
    if after == [] then None
    else
      var replaced := Expand(Hash, defs, Unquote(after));
      if replaced == [] then None else Some(replaced)
  }

  /** `parse_include_path`, with the substitution done by the `replace_hash_vars` scanner. */
  method ParseIncludePath(rest: string, defs: Defs) returns (r: Option<string>)
    requires StartsWith(rest, "include")
    ensures r == IncludePath(rest, defs)
  {
    var after := Trim(rest[7..]);
    if after == [] {
      return None;
    }
    var cleaned := Unquote(after);
    var replaced := ReplaceHashVars(cleaned, defs);
    if replaced == [] {
      return None;
    }
    return Some(replaced);
  }

  /** A quoted argument with no `##` in it names the file between the quotes. */
  lemma QuotedPathVerbatim(rest: string, p: string, defs: Defs)
    requires rest == "include \"" + p + "\""
    requires p != [] && '"' !in p && !IsWhitespace(p[0]) && !IsWhitespace(p[|p| - 1])
    requires forall j :: !PairAt(p, '#', j)
    ensures IncludePath(rest, defs) == Some(p)
  {
    var q := "\"" + p + "\"";
    assert rest == "include " + q;
    ArgumentAfterKeyword(rest, q);
    UnquoteQuoted(p);
    NoPairUnchanged(Hash, defs, p);
  }

  /**
   * A quoted path holding one `##name##` span comes back with the span
   * replaced: by the name's value when it is an identifier that is
   * defined, and by nothing otherwise; an empty result gives no path.
   * The text before the span may not end with `#`, and neither side may
   * hold a `##` of its own.
   */
  lemma IncludeSpan(rest: string, a: string, n: string, b: string, defs: Defs)
    requires rest == "include \"" + a + "##" + n + "##" + b + "\""
    requires '"' !in a && '"' !in n && '"' !in b && '#' !in n
    requires forall j :: !PairAt(a + "#", '#', j)
    requires forall j :: !PairAt(b, '#', j)
    ensures defs.Valid() && IsIdent(n) && defs.IsDefined(n) ==>
              IncludePath(rest, defs) == if a + defs.values[n] + b == "" then None else Some(a + defs.values[n] + b)
    ensures !IsIdent(n) || !defs.IsDefined(n) ==>
              IncludePath(rest, defs) == if a + b == "" then None else Some(a + b)
  {
    var r := Resolve(n, defs);
    SpanPath(rest, a, n, b, defs);
    assert IncludePath(rest, defs) == if a + r + b == "" then None else Some(a + r + b);
    if !IsIdent(n) || !defs.IsDefined(n) {
      assert r == [];
      assert a + r == a;
    } else if defs.Valid() {
      assert r == defs.values[n];
    }
  }

  /** The path of `IncludeSpan`, in terms of what the name resolves to. */
  lemma SpanPath(rest: string, a: string, n: string, b: string, defs: Defs)
    requires rest == "include \"" + a + "##" + n + "##" + b + "\""
    requires '"' !in a && '"' !in n && '"' !in b && '#' !in n
    requires forall j :: !PairAt(a + "#", '#', j)
    requires forall j :: !PairAt(b, '#', j)
    ensures IncludePath(rest, defs) == if a + Resolve(n, defs) + b == "" then None else Some(a + Resolve(n, defs) + b)
  {
    var p := a + "##" + n + "##" + b;
    assert '"' !in p;
    QuotedPathExpanded(rest, p, defs);
    SpanExpanded(Hash, defs, a, n, b);
  }

  /** A quoted argument is the substituted text between the quotes, when that is not empty. */
  lemma QuotedPathExpanded(rest: string, p: string, defs: Defs)
    requires rest == "include \"" + p + "\""
    requires '"' !in p
    ensures IncludePath(rest, defs) == if Expand(Hash, defs, p) == "" then None else Some(Expand(Hash, defs, p))
  {
    var q := "\"" + p + "\"";
    assert rest == "include " + q;
    ArgumentAfterKeyword(rest, q);
    UnquoteQuoted(p);
  }

  /** `#include "inc/part_##SUF##.txt"` with `SUF` set to `x` names `inc/part_x.txt`. */
  lemma IncludeSuffixExample(defs: Defs)
    requires defs.Valid() && defs.IsDefined("SUF") && defs.values["SUF"] == "x"
    ensures IncludePath("include \"inc/part_##SUF##.txt\"", defs) == Some("inc/part_x.txt")
  {
    var rest := "include \"inc/part_##SUF##.txt\"";
    SuffixExampleParts(rest);
    NoMarkNoPair("inc/part_", '#');
    NoMarkNoPair(".txt", '#');
    IncludeSpan(rest, "inc/part_", "SUF", ".txt", defs);
  }

  /** How the example line splits around its span, and what it becomes with `x` in place. */
  lemma SuffixExampleParts(rest: string)
    requires rest == "include \"inc/part_##SUF##.txt\""
    ensures rest == "include \"" + "inc/part_" + "##" + "SUF" + "##" + ".txt" + "\""
    ensures "inc/part_" + "x" + ".txt" == "inc/part_x.txt"
    ensures IsIdent("SUF") && '"' !in "inc/part_" && '"' !in ".txt" && '"' !in "SUF" && '#' !in "SUF"
  {
  }

  /** After `include` and one space, an argument with no white space at either end is taken whole. */
  lemma ArgumentAfterKeyword(rest: string, q: string)
    requires rest == "include " + q
    requires q != [] && !IsWhitespace(q[0]) && !IsWhitespace(q[|q| - 1])
    ensures Trim(rest[7..]) == q
  {
    assert rest[7..] == " " + q;
    assert TrimStart(" " + q) == q by {
      assert (" " + q)[1..] == q;
    }
  }

  /** Unquoting a path between quotes gives the path back. */
  lemma UnquoteQuoted(p: string)
    requires '"' !in p
    ensures Unquote("\"" + p + "\"") == p
  {
    var q := "\"" + p + "\"";
    assert q == ['"'] + (p + ['"']);
    assert q[1..] == p + ['"'];
    UnquoteAppend(p, ['"']);
  }

  /** Removing quotes from a concatenation removes them from each part. */
  lemma {:induction false} UnquoteAppend(a: string, b: string)
    ensures Unquote(a + b) == Unquote(a) + Unquote(b)
    decreases |a|
  {
    if a != [] {
      var t := a[1..];
      var h := if a[0] == '"' then [] else [a[0]];
      assert a == [a[0]] + t;
      assert a + b == [a[0]] + (t + b);
      calc {
        Unquote(a + b);
        { UnquoteCons(a[0], t + b); }
        h + Unquote(t + b);
        { UnquoteAppend(t, b); }
        h + (Unquote(t) + Unquote(b));
        (h + Unquote(t)) + Unquote(b);
        { UnquoteCons(a[0], t); }
        Unquote(a) + Unquote(b);
      }
    } else {
      assert a + b == b;
    }
  }

  /** Removing quotes from a character followed by text. */
  lemma UnquoteCons(c: char, t: string)
    ensures Unquote([c] + t) == (if c == '"' then [] else [c]) + Unquote(t)
  {
    assert ([c] + t)[0] == c && ([c] + t)[1..] == t;
  }

}
