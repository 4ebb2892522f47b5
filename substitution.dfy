/**
 * The two substitution scanners (src/main.rs:205-273): `$$name$$` on
 * content lines and `##name##` in `#include` arguments. Both scan left to
 * right for a doubled sigil, look for the next doubled sigil, and replace the
 * whole span by what the enclosed name resolves to.
 *
 * `Expand` is the specification, defined on the rest of the input; the
 * methods are the original index-driven loops, proved equal to it.
 */
module Substitution {
  import opened Wrappers
  import opened Chars
  import opened Definitions

  datatype Sigil = Dollar | Hash

  function Mark(g: Sigil): char {
    match g
    case Dollar => '$'
    case Hash => '#'
  }

  /** A doubled sigil character starts at index `j` of `s`. */
  predicate PairAt(s: string, d: char, j: int) {
    0 <= j && j + 1 < |s| && s[j] == d && s[j + 1] == d
  }

  /** The first doubled `d` at or after `start`, if any (`find_double_*_end`). */
  function FindClose(s: string, d: char, start: nat): (r: Option<nat>)
    ensures r.Some? ==> start <= r.value && PairAt(s, d, r.value)
    decreases |s| - start
  {
    if start + 1 < |s| then
      if s[start] == d && s[start + 1] == d then Some(start) else FindClose(s, d, start + 1)
    else None
  }

  /** `FindClose` finds the first pair: none lies between `start` and it, and none at all when it fails. */
  lemma {:induction false} FindCloseFirst(s: string, d: char, start: nat)
    ensures FindClose(s, d, start).Some? ==> forall j :: start <= j < FindClose(s, d, start).value ==> !PairAt(s, d, j)
    ensures FindClose(s, d, start).None? ==> forall j :: start <= j ==> !PairAt(s, d, j)
    decreases |s| - start
  {
    if start + 1 < |s| && !(s[start] == d && s[start + 1] == d) {
      FindCloseFirst(s, d, start + 1);
    }
  }

  /**
   * What the name between the sigils becomes: the value of a valid
   * identifier, which is empty when the name is not defined; any other
   * span is deleted. The same function serves both scanners: the extra
   * `is_defined` test of the include-path form changes nothing, since
   * `get_value` of an undefined name is already empty.
   */
  function Resolve(name: string, defs: Defs): (r: string)
    reads defs
    ensures !IsIdent(name) || !defs.IsDefined(name) ==> r == ""
    ensures defs.Valid() && IsIdent(name) && defs.IsDefined(name) ==> r == defs.values[name]
  {
    if IsIdent(name) then defs.GetValue(name) else ""
  }

  /**
   * The substituted text of `s` from index `i` on: a doubled sigil that has
   * a closing doubled sigil further on is replaced, with both pairs, by what
   * the name between them resolves to; every other character is copied.
   */
  function ExpandFrom(g: Sigil, defs: Defs, s: string, i: nat): string
    requires i <= |s|
    reads defs
    decreases |s| - i
  {
    if i + 1 < |s| then
      if s[i] == Mark(g) && s[i + 1] == Mark(g) && FindClose(s, Mark(g), i + 2).Some? then
        var end := FindClose(s, Mark(g), i + 2).value;
        Resolve(Sub(s, i + 2, end), defs) + ExpandFrom(g, defs, s, end + 2)
      else
        [s[i]] + ExpandFrom(g, defs, s, i + 1)
    else if i < |s| then
      [s[i]]
    else
      []
  }

  /** The substituted text of the whole of `s`. */
  function Expand(g: Sigil, defs: Defs, s: string): string
    reads defs
  {
    ExpandFrom(g, defs, s, 0)
  }

  /** `x == a + (b + c)` regrouped, stated on plain names so that it is applied as a rewrite. */
  lemma Regroup(x: string, a: string, b: string, c: string, y: string)
    requires x == a + y
    requires y == b + c
    ensures x == (a + b) + c
  {
  }

  /** A span step keeps the scanners' loop invariant, with the resolved name appended. */
  lemma SpanStep(g: Sigil, defs: Defs, input: string, i: nat, end: nat, out: string)
    requires i + 1 < |input| && input[i] == Mark(g) && input[i + 1] == Mark(g)
    requires FindClose(input, Mark(g), i + 2) == Some(end)
    requires Expand(g, defs, input) == out + ExpandFrom(g, defs, input, i)
    ensures end + 2 <= |input|
    ensures Expand(g, defs, input) == (out + Resolve(Sub(input, i + 2, end), defs)) + ExpandFrom(g, defs, input, end + 2)
  {
    Regroup(Expand(g, defs, input), out, Resolve(Sub(input, i + 2, end), defs), ExpandFrom(g, defs, input, end + 2), ExpandFrom(g, defs, input, i));
  }

  /** A copying step keeps the scanners' loop invariant, with the character appended. */
  lemma CopyStep(g: Sigil, defs: Defs, input: string, i: nat, out: string)
    requires i + 1 < |input|
    requires !(input[i] == Mark(g) && input[i + 1] == Mark(g) && FindClose(input, Mark(g), i + 2).Some?)
    requires Expand(g, defs, input) == out + ExpandFrom(g, defs, input, i)
    ensures Expand(g, defs, input) == (out + [input[i]]) + ExpandFrom(g, defs, input, i + 1)
  {
    Regroup(Expand(g, defs, input), out, [input[i]], ExpandFrom(g, defs, input, i + 1), ExpandFrom(g, defs, input, i));
  }

  /** With no doubled sigil from `i` on, the rest of the input is copied unchanged. */
  lemma {:induction false} NoPairCopied(g: Sigil, defs: Defs, s: string, i: nat)
    requires i <= |s|
    requires FindClose(s, Mark(g), i).None?
    ensures ExpandFrom(g, defs, s, i) == s[i..]
    decreases |s| - i
  {
    if i + 1 < |s| {
      NoPairCopied(g, defs, s, i + 1);
      assert s[i..] == [s[i]] + s[i + 1..];
    } else if i < |s| {
      assert s[i..] == [s[i]];
    }
  }

  /** Input without any doubled sigil comes back unchanged. */
  lemma NoPairUnchanged(g: Sigil, defs: Defs, s: string)
    requires forall j :: !PairAt(s, Mark(g), j)
    ensures Expand(g, defs, s) == s
  {
    FindCloseFirst(s, Mark(g), 0);
    NoPairCopied(g, defs, s, 0);
  }

  /** An opening pair without a closing pair is copied, and so is everything after it. */
  lemma UnclosedCopied(g: Sigil, defs: Defs, s: string, i: nat)
    requires PairAt(s, Mark(g), i)
    requires FindClose(s, Mark(g), i + 2).None?
    ensures ExpandFrom(g, defs, s, i) == s[i..]
  {
    FindCloseFirst(s, Mark(g), i + 2);
    assert FindClose(s, Mark(g), i + 3).None?;
    NoPairCopied(g, defs, s, i + 2);
    assert s[i..] == [s[i]] + ([s[i + 1]] + s[i + 2..]);
  }

  /**
   * A span from an opening pair up to the first closing pair is replaced by
   * what the enclosed name resolves to; the scan resumes after the closing pair.
   */
  lemma SpanReplaced(g: Sigil, defs: Defs, s: string, i: nat, end: nat)
    requires PairAt(s, Mark(g), i)
    requires FindClose(s, Mark(g), i + 2) == Some(end)
    ensures end + 2 <= |s|
    ensures ExpandFrom(g, defs, s, i) == Resolve(s[i + 2..end], defs) + ExpandFrom(g, defs, s, end + 2)
  {
    SubIsSlice(s, i + 2, end);
  }

  /** Text without the sigil holds no doubled sigil, even with one sigil added at its end. */
  lemma NoMarkNoPair(s: string, d: char)
    requires d !in s
    ensures forall j :: !PairAt(s, d, j) && !PairAt(s + [d], d, j)
  {
    forall j | 0 <= j < |s|
      ensures (s + [d])[j] != d
    {
      assert (s + [d])[j] == s[j];
    }
  }

  /** A character that starts no doubled sigil is copied. */
  lemma CopyOne(g: Sigil, defs: Defs, s: string, i: nat)
    requires i < |s| && !PairAt(s, Mark(g), i)
    ensures ExpandFrom(g, defs, s, i) == [s[i]] + ExpandFrom(g, defs, s, i + 1)
  {
    if i + 1 == |s| {
      assert ExpandFrom(g, defs, s, i + 1) == [];
    }
  }

  /** With no doubled sigil starting in `[i, k)`, the characters there are copied one by one. */
  lemma {:induction false} PrefixCopied(g: Sigil, defs: Defs, s: string, i: nat, k: nat)
    requires i <= k <= |s|
    requires forall j :: i <= j < k ==> !PairAt(s, Mark(g), j)
    ensures ExpandFrom(g, defs, s, i) == s[i..k] + ExpandFrom(g, defs, s, k)
    decreases k - i
  {
    if i < k {
      CopyOne(g, defs, s, i);
      PrefixCopied(g, defs, s, i + 1, k);
      assert s[i..k] == [s[i]] + s[i + 1..k];
    } else {
      assert s[i..k] == [];
    }
  }

  /** The first doubled `d` at or after `start` is the one at `e` when none lies before it. */
  lemma {:induction false} FindCloseAt(s: string, d: char, start: nat, e: nat)
    requires start <= e && PairAt(s, d, e)
    requires forall j :: start <= j < e ==> !PairAt(s, d, j)
    ensures FindClose(s, d, start) == Some(e)
    decreases e - start
  {
    if start < e {
      assert !PairAt(s, d, start);
      FindCloseAt(s, d, start + 1, e);
    }
  }

  /** The doubled sigils of a head of `s` are those of `s` itself. */
  lemma HeadPairs(d: char, s: string, h: string)
    requires |h| <= |s| && s[..|h|] == h
    requires forall j :: !PairAt(h, d, j)
    ensures forall j :: 0 <= j < |h| - 1 ==> !PairAt(s, d, j)
  {
    forall j | 0 <= j < |h| - 1
      ensures !PairAt(s, d, j)
    {
      assert !PairAt(h, d, j);
      assert s[j] == h[j] && s[j + 1] == h[j + 1];
    }
  }

  /** A head `h` of `s` with no doubled sigil in it is copied, all but its last character. */
  lemma HeadCopied(g: Sigil, defs: Defs, s: string, h: string)
    requires 0 < |h| <= |s| && s[..|h|] == h
    requires forall j :: !PairAt(h, Mark(g), j)
    ensures ExpandFrom(g, defs, s, 0) == h[..|h| - 1] + ExpandFrom(g, defs, s, |h| - 1)
  {
    HeadPairs(Mark(g), s, h);
    PrefixCopied(g, defs, s, 0, |h| - 1);
    assert s[0..|h| - 1] == h[..|h| - 1];
  }

  /** The doubled sigils of a tail of `s` are those of `s` itself. */
  lemma TailPairs(d: char, s: string, k: nat)
    requires k <= |s|
    requires forall j :: !PairAt(s[k..], d, j)
    ensures forall j :: k <= j ==> !PairAt(s, d, j)
  {
    forall j | k <= j
      ensures !PairAt(s, d, j)
    {
      assert !PairAt(s[k..], d, j - k);
    }
  }

  /** A tail of `s` with no doubled sigil in it is copied to the end. */
  lemma TailCopied(g: Sigil, defs: Defs, s: string, k: nat)
    requires k <= |s|
    requires forall j :: !PairAt(s[k..], Mark(g), j)
    ensures ExpandFrom(g, defs, s, k) == s[k..]
  {
    TailPairs(Mark(g), s, k);
    PrefixCopied(g, defs, s, k, |s|);
    assert ExpandFrom(g, defs, s, |s|) == [];
    assert s[k..|s|] == s[k..];
  }

  /** A pair at `i`, then no sigil, then a pair at `e`: one span, replaced by what its name resolves to. */
  lemma NameSpan(g: Sigil, defs: Defs, s: string, i: nat, e: nat)
    requires i + 2 <= e && PairAt(s, Mark(g), i) && PairAt(s, Mark(g), e)
    requires forall j :: i + 2 <= j < e ==> s[j] != Mark(g)
    ensures ExpandFrom(g, defs, s, i) == Resolve(s[i + 2..e], defs) + ExpandFrom(g, defs, s, e + 2)
  {
    FindCloseAt(s, Mark(g), i + 2, e);
    SpanReplaced(g, defs, s, i, e);
  }

  /** Where the parts of `a ## n ## b` sit. */
  lemma SpanLayout(m: char, a: string, n: string, b: string, s: string)
    requires s == a + [m, m] + n + [m, m] + b
    requires m !in n
    ensures s[..|a| + 1] == a + [m]
    ensures PairAt(s, m, |a|) && PairAt(s, m, |a| + 2 + |n|)
    ensures forall j :: |a| + 2 <= j < |a| + 2 + |n| ==> s[j] != m
    ensures s[|a| + 2..|a| + 2 + |n|] == n
    ensures s[|a| + 2 + |n| + 2..] == b
  {
    var e := |a| + 2 + |n|;
    assert s[|a|] == m && s[|a| + 1] == m && s[e] == m && s[e + 1] == m;
    forall j | |a| + 2 <= j < e
      ensures s[j] != m
    {
      assert s[j] == n[j - |a| - 2];
    }
  }

  /**
   * One `##name##` span between text with no doubled sigil of its own is
   * replaced by what the name resolves to, and the text around it is kept.
   * `a` may not end with the sigil, since that would open the span one
   * character early.
   */
  lemma SpanExpanded(g: Sigil, defs: Defs, a: string, n: string, b: string)
    requires Mark(g) !in n
    requires forall j :: !PairAt(a + [Mark(g)], Mark(g), j)
    requires forall j :: !PairAt(b, Mark(g), j)
    ensures Expand(g, defs, a + [Mark(g), Mark(g)] + n + [Mark(g), Mark(g)] + b) == a + Resolve(n, defs) + b
  {
    var m := Mark(g);
    var s := a + [m, m] + n + [m, m] + b;
    var e := |a| + 2 + |n|;
    SpanHead(g, defs, a, n, b, s);
    SpanLayout(m, a, n, b, s);
    SpanThenTail(g, defs, s, |a|, e, b);
  }

  /** The text before a `##name##` span is copied. */
  lemma SpanHead(g: Sigil, defs: Defs, a: string, n: string, b: string, s: string)
    requires s == a + [Mark(g), Mark(g)] + n + [Mark(g), Mark(g)] + b
    requires Mark(g) !in n
    requires forall j :: !PairAt(a + [Mark(g)], Mark(g), j)
    ensures ExpandFrom(g, defs, s, 0) == a + ExpandFrom(g, defs, s, |a|)
  {
    var h := a + [Mark(g)];
    SpanLayout(Mark(g), a, n, b, s);
    assert h[..|h| - 1] == a;
    HeadCopied(g, defs, s, h);
  }

  /** A span from `i` to `e` followed by a tail `t` with no doubled sigil: the resolved name, then `t`. */
  lemma SpanThenTail(g: Sigil, defs: Defs, s: string, i: nat, e: nat, t: string)
    requires i + 2 <= e && PairAt(s, Mark(g), i) && PairAt(s, Mark(g), e)
    requires forall j :: i + 2 <= j < e ==> s[j] != Mark(g)
    requires s[e + 2..] == t && forall j :: !PairAt(t, Mark(g), j)
    ensures ExpandFrom(g, defs, s, i) == Resolve(s[i + 2..e], defs) + t
  {
    NameSpan(g, defs, s, i, e);
    TailCopied(g, defs, s, e + 2);
  }

  /** `find_double_hash_end`. */
  method FindDoubleHashEnd(bytes: string, start: nat) returns (r: Option<nat>)
    ensures r == FindClose(bytes, '#', start)
  {
    var j := start;
    while j + 1 < |bytes|
      invariant start <= j
      invariant FindClose(bytes, '#', start) == FindClose(bytes, '#', j)
      decreases |bytes| - j
    {
      if bytes[j] == '#' && bytes[j + 1] == '#' {
        return Some(j);
      }
      j := j + 1;
    }
    return None;
  }

  /** `find_double_dollar_end`. */
  method FindDoubleDollarEnd(bytes: string, start: nat) returns (r: Option<nat>)
    ensures r == FindClose(bytes, '$', start)
  {
    var j := start;
    while j + 1 < |bytes|
      invariant start <= j
      invariant FindClose(bytes, '$', start) == FindClose(bytes, '$', j)
      decreases |bytes| - j
    {
      if bytes[j] == '$' && bytes[j + 1] == '$' {
        return Some(j);
      }
      j := j + 1;
    }
    return None;
  }

  /**
   * `replace_hash_vars`. What is built so far followed by the expansion of
   * the unread rest is always the expansion of the whole input.
   */
  method ReplaceHashVars(input: string, defs: Defs) returns (out: string)
    ensures out == Expand(Hash, defs, input)
  {
    out := "";
    var i: nat := 0;
    while i + 1 < |input|
      invariant i <= |input|
      invariant Expand(Hash, defs, input) == out + ExpandFrom(Hash, defs, input, i)
      decreases |input| - i
    {
      out, i := HashStep(input, defs, out, i);
    }
    if i < |input| {
      out := out + [input[i]];
    } else {
      assert out + [] == out;
    }
  }

  /** One pass of the `replace_hash_vars` loop body: a whole span, or one copied character. */
  method HashStep(input: string, defs: Defs, out0: string, i0: nat) returns (out: string, i: nat)
    requires i0 + 1 < |input|
    requires Expand(Hash, defs, input) == out0 + ExpandFrom(Hash, defs, input, i0)
    ensures i0 < i <= |input|
    ensures Expand(Hash, defs, input) == out + ExpandFrom(Hash, defs, input, i)
  {
    out, i := out0, i0;
    if input[i] == '#' && input[i + 1] == '#' {
      var found := FindDoubleHashEnd(input, i + 2);
      if found.Some? {
        var end := found.value;
        var name := input[i + 2..end];
        SubIsSlice(input, i + 2, end);
        SpanStep(Hash, defs, input, i, end, out);
        if IsIdent(name) && defs.IsDefined(name) {
          out := out + defs.GetValue(name);
        } else {
          assert out + Resolve(name, defs) == out;
        }
        i := end + 2;
        return;
      }
    }
    CopyStep(Hash, defs, input, i, out);
    out := out + [input[i]];
    i := i + 1;
  }

  /** `replace_dollar_vars`: the same scan over `$$`, where every valid identifier is looked up. */
  method ReplaceDollarVars(input: string, defs: Defs) returns (out: string)
    ensures out == Expand(Dollar, defs, input)
  {
    out := "";
    var i: nat := 0;
    while i + 1 < |input|
      invariant i <= |input|
      invariant Expand(Dollar, defs, input) == out + ExpandFrom(Dollar, defs, input, i)
      decreases |input| - i
    {
      out, i := DollarStep(input, defs, out, i);
    }
    if i < |input| {
      out := out + [input[i]];
    } else {
      assert out + [] == out;
    }
  }

  /** One pass of the `replace_dollar_vars` loop body. */
  method DollarStep(input: string, defs: Defs, out0: string, i0: nat) returns (out: string, i: nat)
    requires i0 + 1 < |input|
    requires Expand(Dollar, defs, input) == out0 + ExpandFrom(Dollar, defs, input, i0)
    ensures i0 < i <= |input|
    ensures Expand(Dollar, defs, input) == out + ExpandFrom(Dollar, defs, input, i)
  {
    out, i := out0, i0;
    if input[i] == '$' && input[i + 1] == '$' {
      var found := FindDoubleDollarEnd(input, i + 2);
      if found.Some? {
        var end := found.value;
        var name := input[i + 2..end];
        SubIsSlice(input, i + 2, end);
        SpanStep(Dollar, defs, input, i, end, out);
        if IsIdent(name) {
          out := out + defs.GetValue(name);
        } else {
          assert out + Resolve(name, defs) == out;
        }
        i := end + 2;
        return;
      }
    }
    CopyStep(Dollar, defs, input, i, out);
    out := out + [input[i]];
    i := i + 1;
  }
}
