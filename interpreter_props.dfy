/**
 * What `process_file` does to whole files and runs of lines: text lines
 * are written exactly when active, a skipped region writes nothing, the
 * structural errors and where they stop, and what an `#include` line adds.
 */
module InterpreterProps {
  import opened Wrappers
  import opened Errors
  import opened Definitions
  import opened Substitution
  import opened Evaluator
  import opened Conditions
  import opened Directives
  import opened Interpreter

  /** Lines `i` to `j` of a file as written when active: each with `$$name$$` substituted and a newline. */
  function Emitted(lines: seq<string>, defs: Defs, i: nat, j: nat): string
    requires i <= j <= |lines|
    reads defs
    decreases j - i
  {
    if i == j then "" else Expand(Dollar, defs, lines[i]) + "\n" + Emitted(lines, defs, i + 1, j)
  }

  /** Lines `i` to `j` each followed by a newline. */
  function Unlines(lines: seq<string>, i: nat, j: nat): string
    requires i <= j <= |lines|
    decreases j - i
  {
    if i == j then "" else lines[i] + "\n" + Unlines(lines, i + 1, j)
  }

  /** Lines `i` to `j` are all text (no directive is recognised on them). */
  predicate AllText(lines: seq<string>, i: nat, j: nat) {
    j <= |lines| && forall k :: i <= k < j ==> Classify(lines[k]) == Text
  }

  /** Actions `i` to `j` write lines `i` to `j`, substituted. */
  predicate Writes(acts: seq<Act>, lines: seq<string>, defs: Defs, i: nat, j: nat)
    reads defs
  {
    j <= |acts| && j <= |lines| && forall k :: i <= k < j ==> acts[k] == Write(Expand(Dollar, defs, lines[k]) + "\n")
  }

  /** Actions `i` to `j` only write text or splice files in: none touches the conditions. */
  predicate Quiet(acts: seq<Act>, i: nat, j: nat) {
    j <= |acts| && forall k :: i <= k < j ==> acts[k].Write? || acts[k].Splice?
  }

  /** What each kind of line asks of the line loop. */
  lemma ActAt(lines: seq<string>, defs: Defs, k: nat)
    requires k < |lines|
    ensures Classify(lines[k]) == Text ==> Acts(lines, defs)[k] == Write(Expand(Dollar, defs, lines[k]) + "\n")
    ensures Classify(lines[k]).Include? ==> Acts(lines, defs)[k] == Splice(IncludePath(Classify(lines[k]).rest, defs))
    ensures Classify(lines[k]).IfDef? ==> Acts(lines, defs)[k] == Open(Ok(defs.IsDefined(Classify(lines[k]).name)))
    ensures Classify(lines[k]).IfNDef? ==> Acts(lines, defs)[k] == Open(Ok(!defs.IsDefined(Classify(lines[k]).name)))
    ensures Classify(lines[k]).If? ==> Acts(lines, defs)[k] == Open(Evaluate(Classify(lines[k]).expr, defs))
    ensures Classify(lines[k]) == Else ==> Acts(lines, defs)[k] == Flip
    ensures Classify(lines[k]) == Endif ==> Acts(lines, defs)[k] == Close
  {
    ActsAt(lines, defs, k);
  }

  lemma TextActs(lines: seq<string>, defs: Defs, i: nat, j: nat)
    requires AllText(lines, i, j)
    ensures Writes(Acts(lines, defs), lines, defs, i, j)
  {
    forall k | i <= k < j
      ensures Acts(lines, defs)[k] == Write(Expand(Dollar, defs, lines[k]) + "\n")
    {
      ActAt(lines, defs, k);
    }
  }

  lemma QuietActs(lines: seq<string>, defs: Defs, i: nat, j: nat)
    requires j <= |lines|
    requires forall k :: i <= k < j ==> Classify(lines[k]) == Text || Classify(lines[k]).Include?
    ensures Quiet(Acts(lines, defs), i, j)
  {
    forall k | i <= k < j
      ensures Acts(lines, defs)[k].Write? || Acts(lines, defs)[k].Splice?
    {
      ActAt(lines, defs, k);
    }
  }

  lemma Regrouped(a: string, b: string, rest: string)
    ensures (a + b) + rest == a + (b + rest)
  {
  }

  /**
   * A run of text lines writes each line, substituted, exactly when the
   * lines are active, and leaves the conditions as they are.
   */
  lemma {:induction false} TextRun(fs: FileSystem, base: Path, acts: seq<Act>, lines: seq<string>, defs: Defs, fuel: nat,
                                   i: nat, j: nat, c: Cond)
    requires i <= j && Writes(acts, lines, defs, i, j)
    ensures Lines(fs, base, acts, defs, fuel, i, c)
         == Then(if c.active then Emitted(lines, defs, i, j) else "", Lines(fs, base, acts, defs, fuel, j, c))
    decreases j - i
  {
    var rest := Lines(fs, base, acts, defs, fuel, j, c);
    if i == j {
      assert "" + rest.text == rest.text;
    } else {
      var w := Expand(Dollar, defs, lines[i]) + "\n";
      WriteStep(fs, base, acts, defs, fuel, i, c, w);
      TextRun(fs, base, acts, lines, defs, fuel, i + 1, j, c);
      if c.active {
        Regrouped(w, Emitted(lines, defs, i + 1, j), rest.text);
      } else {
        assert "" + rest.text == rest.text;
      }
    }
  }

  /** With no `$$` in them, text lines are written verbatim. */
  lemma {:induction false} EmittedVerbatim(lines: seq<string>, defs: Defs, i: nat, j: nat)
    requires i <= j <= |lines|
    requires forall k, p :: i <= k < j ==> !PairAt(lines[k], '$', p)
    ensures Emitted(lines, defs, i, j) == Unlines(lines, i, j)
    decreases j - i
  {
    if i < j {
      NoPairUnchanged(Dollar, defs, lines[i]);
      EmittedVerbatim(lines, defs, i + 1, j);
    }
  }

  /** A file with no directive writes all its lines, substituted, and succeeds. */
  lemma DirectiveFreeFile(fs: FileSystem, path: Path, defs: Defs, fuel: nat)
    requires path in fs.files && AllText(fs.files[path], 0, |fs.files[path]|)
    ensures Process(fs, path, defs, fuel) == Outcome(Ok(()), Emitted(fs.files[path], defs, 0, |fs.files[path]|))
  {
    var lines := fs.files[path];
    TextActs(lines, defs, 0, |lines|);
    TextRun(fs, fs.dir(path), Acts(lines, defs), lines, defs, fuel, 0, |lines|, Initial);
    var e := Emitted(lines, defs, 0, |lines|);
    assert e + "" == e;
  }

  /** A file with no directive and no `$$` comes out as it went in, a newline after every line. */
  lemma VerbatimFile(fs: FileSystem, path: Path, defs: Defs, fuel: nat)
    requires path in fs.files && AllText(fs.files[path], 0, |fs.files[path]|)
    requires forall k, p :: 0 <= k < |fs.files[path]| ==> !PairAt(fs.files[path][k], '$', p)
    ensures Process(fs, path, defs, fuel) == Outcome(Ok(()), Unlines(fs.files[path], 0, |fs.files[path]|))
  {
    DirectiveFreeFile(fs, path, defs, fuel);
    EmittedVerbatim(fs.files[path], defs, 0, |fs.files[path]|);
  }

  /** A file that cannot be read is no error and writes nothing. */
  lemma MissingFile(fs: FileSystem, path: Path, defs: Defs, fuel: nat)
    requires path !in fs.files
    ensures Process(fs, path, defs, fuel) == Outcome(Ok(()), "")
  {
  }

  /**
   * While the lines are inactive, text lines and include lines write
   * nothing and change nothing: an include in a skipped region is not
   * followed.
   */
  lemma {:induction false} SkippedRegion(fs: FileSystem, base: Path, acts: seq<Act>, defs: Defs, fuel: nat,
                                         i: nat, j: nat, c: Cond)
    requires i <= j && Quiet(acts, i, j) && !c.active
    ensures Lines(fs, base, acts, defs, fuel, i, c) == Lines(fs, base, acts, defs, fuel, j, c)
    decreases j - i
  {
    if i < j {
      if acts[i].Write? {
        WriteStep(fs, base, acts, defs, fuel, i, c, acts[i].text);
        var after := Lines(fs, base, acts, defs, fuel, i + 1, c);
        assert "" + after.text == after.text;
      } else {
        SpliceSkipped(fs, base, acts, defs, fuel, i, c);
      }
      SkippedRegion(fs, base, acts, defs, fuel, i + 1, j, c);
    }
  }

  /**
   * An active include line with a usable path and fuel left writes what
   * the included file writes, even when that file fails: its error is
   * dropped and the including file goes on as if the line were not there.
   * The include line itself is never written.
   */
  lemma IncludeFollowed(fs: FileSystem, base: Path, lines: seq<string>, defs: Defs, fuel: nat, sub: nat,
                        i: nat, c: Cond, rest: string, p: Path)
    requires i < |lines| && Classify(lines[i]) == Include(rest) && IncludePath(rest, defs) == Some(p)
    requires c.active && fuel == sub + 1
    ensures Lines(fs, base, Acts(lines, defs), defs, fuel, i, c).result == Lines(fs, base, Acts(lines, defs), defs, fuel, i + 1, c).result
    ensures Lines(fs, base, Acts(lines, defs), defs, fuel, i, c).text
         == Process(fs, fs.join(base, p), defs, sub).text + Lines(fs, base, Acts(lines, defs), defs, fuel, i + 1, c).text
  {
    ActAt(lines, defs, i);
    SpliceTaken(fs, base, Acts(lines, defs), defs, fuel, sub, i, c, p);
  }

  /** An include line that is inactive, or whose argument names no file, writes nothing and changes nothing. */
  lemma IncludeIgnored(fs: FileSystem, base: Path, lines: seq<string>, defs: Defs, fuel: nat, i: nat, c: Cond, rest: string)
    requires i < |lines| && Classify(lines[i]) == Include(rest) && (!c.active || IncludePath(rest, defs).None?)
    ensures Lines(fs, base, Acts(lines, defs), defs, fuel, i, c) == Lines(fs, base, Acts(lines, defs), defs, fuel, i + 1, c)
  {
    ActAt(lines, defs, i);
    SpliceSkipped(fs, base, Acts(lines, defs), defs, fuel, i, c);
  }

  /**
   * `#if` with a bad expression stops processing with that error whatever
   * the state, so also inside a region that is being skipped.
   */
  lemma BadCondition(fs: FileSystem, base: Path, lines: seq<string>, defs: Defs, fuel: nat,
                     i: nat, c: Cond, expr: string, e: ExprError)
    requires i < |lines| && Classify(lines[i]) == If(expr) && Evaluate(expr, defs) == Err(e)
    ensures Lines(fs, base, Acts(lines, defs), defs, fuel, i, c) == Outcome(Err(InvalidExpression(e)), "")
  {
    ActAt(lines, defs, i);
  }

  /** `#else` or `#endif` with no open frame stops processing with a structural error. */
  lemma Unopened(fs: FileSystem, base: Path, lines: seq<string>, defs: Defs, fuel: nat, i: nat, c: Cond)
    requires i < |lines| && c.stack == [] && (Classify(lines[i]) == Else || Classify(lines[i]) == Endif)
    ensures Lines(fs, base, Acts(lines, defs), defs, fuel, i, c)
         == Outcome(Err(InvalidStructure(if Classify(lines[i]) == Else then ElseWithoutIf else EndifWithoutIf)), "")
  {
    ActAt(lines, defs, i);
  }

  /**
   * A stray `#endif` (or `#else`) after text lines: the text written
   * before it stays in the output and the file fails.
   */
  lemma StrayClose(fs: FileSystem, path: Path, defs: Defs, fuel: nat)
    requires path in fs.files && |fs.files[path]| > 0
    requires AllText(fs.files[path], 0, |fs.files[path]| - 1)
    requires Classify(fs.files[path][|fs.files[path]| - 1]) == Endif || Classify(fs.files[path][|fs.files[path]| - 1]) == Else
    ensures Process(fs, path, defs, fuel).result.Err?
    ensures Process(fs, path, defs, fuel).text == Emitted(fs.files[path], defs, 0, |fs.files[path]| - 1)
  {
    var lines := fs.files[path];
    var n := |lines| - 1;
    var acts := Acts(lines, defs);
    var base := fs.dir(path);
    assert Process(fs, path, defs, fuel) == Lines(fs, base, acts, defs, fuel, 0, Initial);
    TextActs(lines, defs, 0, n);
    TextRun(fs, base, acts, lines, defs, fuel, 0, n, Initial);
    Unopened(fs, base, lines, defs, fuel, n, Initial);
    var stop := Lines(fs, base, acts, defs, fuel, n, Initial);
    assert stop.result.Err? && stop.text == "";
    var e := Emitted(lines, defs, 0, n);
    assert e + "" == e;
  }

  /**
   * `#ifdef name` followed only by text: the text is written when `name`
   * is defined, and the missing `#endif` is reported at the end.
   */
  lemma UnclosedIfdef(fs: FileSystem, path: Path, defs: Defs, fuel: nat, name: string)
    requires path in fs.files && |fs.files[path]| > 0
    requires Classify(fs.files[path][0]) == IfDef(name) && AllText(fs.files[path], 1, |fs.files[path]|)
    ensures Process(fs, path, defs, fuel)
         == Outcome(Err(InvalidStructure(MissingEndif)),
                    if defs.IsDefined(name) then Emitted(fs.files[path], defs, 1, |fs.files[path]|) else "")
  {
    var lines := fs.files[path];
    var acts := Acts(lines, defs);
    var base := fs.dir(path);
    var cond := defs.IsDefined(name);
    ActAt(lines, defs, 0);
    OpenStep(fs, base, acts, defs, fuel, 0, Initial, cond);
    TextActs(lines, defs, 1, |lines|);
    TextRun(fs, base, acts, lines, defs, fuel, 1, |lines|, Push(Initial, cond));
    var e := if cond then Emitted(lines, defs, 1, |lines|) else "";
    assert e + "" == e;
  }

  /**
   * `#ifdef name`, text A, `#else`, text B, `#endif`: exactly one of A and
   * B is written, A when `name` is defined.
   */
  lemma IfdefElse(fs: FileSystem, path: Path, defs: Defs, fuel: nat, name: string, m: nat)
    requires path in fs.files && 0 < m < |fs.files[path]| - 1
    requires Classify(fs.files[path][0]) == IfDef(name) && AllText(fs.files[path], 1, m)
    requires Classify(fs.files[path][m]) == Else && AllText(fs.files[path], m + 1, |fs.files[path]| - 1)
    requires Classify(fs.files[path][|fs.files[path]| - 1]) == Endif
    ensures Process(fs, path, defs, fuel)
         == Outcome(Ok(()), if defs.IsDefined(name) then Emitted(fs.files[path], defs, 1, m)
                            else Emitted(fs.files[path], defs, m + 1, |fs.files[path]| - 1))
  {
    var lines := fs.files[path];
    var acts := Acts(lines, defs);
    var base := fs.dir(path);
    var cond := defs.IsDefined(name);
    ActAt(lines, defs, 0);
    ActAt(lines, defs, m);
    ActAt(lines, defs, |lines| - 1);
    TextActs(lines, defs, 1, m);
    TextActs(lines, defs, m + 1, |lines| - 1);
    OpenStep(fs, base, acts, defs, fuel, 0, Initial, cond);
    IfdefElseBody(fs, base, acts, lines, defs, fuel, m, cond);
  }

  /**
   * After `#ifdef` opened a frame with condition `cond`: text A, `#else`,
   * text B and `#endif` write A when `cond` holds and B otherwise.
   */
  lemma IfdefElseBody(fs: FileSystem, base: Path, acts: seq<Act>, lines: seq<string>, defs: Defs, fuel: nat,
                      m: nat, cond: bool)
    requires 0 < m < |acts| - 1 && |acts| == |lines|
    requires Writes(acts, lines, defs, 1, m) && acts[m] == Flip
    requires Writes(acts, lines, defs, m + 1, |acts| - 1) && acts[|acts| - 1] == Close
    ensures Lines(fs, base, acts, defs, fuel, 1, Push(Initial, cond))
         == Outcome(Ok(()), if cond then Emitted(lines, defs, 1, m) else Emitted(lines, defs, m + 1, |lines| - 1))
  {
    var c1 := Push(Initial, cond);
    TextRun(fs, base, acts, lines, defs, fuel, 1, m, c1);
    TogglePush(Initial, cond);
    var c2 := Cond([CondFrame(true, !cond, true)], !cond);
    assert Initial.stack + [CondFrame(true, !cond, true)] == c2.stack;
    assert Toggle(c1) == Ok(c2);
    FlipStep(fs, base, acts, defs, fuel, m, c1);
    ElseBranch(fs, base, acts, lines, defs, fuel, m, !cond);
    IfdefElseText(cond, if cond then Emitted(lines, defs, 1, m) else "",
                  if !cond then Emitted(lines, defs, m + 1, |lines| - 1) else "");
  }

  /** In the frame `#else` left with condition `cond`: text B and `#endif` write B exactly when `cond` holds. */
  lemma ElseBranch(fs: FileSystem, base: Path, acts: seq<Act>, lines: seq<string>, defs: Defs, fuel: nat,
                   m: nat, cond: bool)
    requires 0 < m < |acts| - 1 && |acts| == |lines|
    requires Writes(acts, lines, defs, m + 1, |acts| - 1) && acts[|acts| - 1] == Close
    ensures Lines(fs, base, acts, defs, fuel, m + 1, Cond([CondFrame(true, cond, true)], cond))
         == Outcome(Ok(()), (if cond then Emitted(lines, defs, m + 1, |lines| - 1) else "") + "")
  {
    var n := |acts| - 1;
    var c2 := Cond([CondFrame(true, cond, true)], cond);
    var last := Lines(fs, base, acts, defs, fuel, n + 1, Initial);
    assert last == Outcome(Ok(()), "");
    assert Pop(c2) == Ok(Initial);
    CloseStep(fs, base, acts, defs, fuel, n, c2);
    assert Lines(fs, base, acts, defs, fuel, n, c2) == last;
    TextRun(fs, base, acts, lines, defs, fuel, m + 1, n, c2);
  }

  lemma IfdefElseText(cond: bool, a: string, b: string)
    requires cond ==> b == ""
    requires !cond ==> a == ""
    ensures a + (b + "") == if cond then a else b
  {
  }

  /**
   * `#ifdef name` over text and include lines, then `#if` with a bad
   * expression: when `name` is undefined the skipped lines write nothing,
   * and the bad expression still fails the file.
   */
  lemma BadConditionWhileSkipping(fs: FileSystem, path: Path, defs: Defs, fuel: nat, name: string, m: nat,
                                  expr: string, e: ExprError)
    requires path in fs.files && 0 < m < |fs.files[path]|
    requires Classify(fs.files[path][0]) == IfDef(name) && !defs.IsDefined(name)
    requires forall k :: 1 <= k < m ==> Classify(fs.files[path][k]) == Text || Classify(fs.files[path][k]).Include?
    requires Classify(fs.files[path][m]) == If(expr) && Evaluate(expr, defs) == Err(e)
    ensures Process(fs, path, defs, fuel) == Outcome(Err(InvalidExpression(e)), "")
  {
    var lines := fs.files[path];
    var acts := Acts(lines, defs);
    var base := fs.dir(path);
    var c := Push(Initial, false);
    ActAt(lines, defs, 0);
    OpenStep(fs, base, acts, defs, fuel, 0, Initial, false);
    QuietActs(lines, defs, 1, m);
    SkippedRegion(fs, base, acts, defs, fuel, 1, m, c);
    BadCondition(fs, base, lines, defs, fuel, m, c, expr, e);
  }
}
