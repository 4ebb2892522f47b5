/**
 * `process_file` (src/main.rs:97-188): read a file line by line, follow
 * the conditional directives, splice in included files and append every
 * active text line, with its `$$name$$` spans substituted, to the output.
 *
 * The file system is a value: the lines of every readable file, the
 * directory of a path and path joining. Recursion into included files has
 * no bound in the original; here it is bounded by `fuel`, and an include
 * met with no fuel left is skipped.
 */
module Interpreter {
  import opened Wrappers
  import opened Errors
  import opened Chars
  import opened Definitions
  import opened Substitution
  import opened Evaluator
  import opened Conditions
  import opened Directives

  type Path = string

  /**
   * What `process_file` sees of the file system: the contents of each
   * readable file, already split into lines (a path that is absent cannot
   * be read); `path.parent()`, or `.` when there is none; and `Path::join`.
   */
  datatype FileSystem = FileSystem(files: map<Path, seq<string>>, dir: Path -> Path, join: (Path, Path) -> Path)

  /** The result of processing and the text it appended to the output. */
  datatype Outcome = Outcome(result: Result<(), Error>, text: string)

  /** `text` written before what `o` writes. */
  function Then(text: string, o: Outcome): Outcome {
    Outcome(o.result, text + o.text)
  }

  /**
   * What a line asks of the line loop, with everything that depends only on
   * the line and the definitions worked out: the path an include names, the
   * condition an opening directive computes (which may be an expression
   * error), or the substituted text of a text line.
   */
  datatype Act =
    | Splice(path: Option<Path>)
    | Open(cond: Result<bool, ExprError>)
    | Flip
    | Close
    | Write(text: string)

  /**
   * The action of one line. `#if` evaluates its expression here, whatever
   * the state of the conditions, so a bad expression in a skipped region
   * still fails. A text line is written with its `$$name$$` spans
   * substituted and a newline.
   */
  function Meaning(raw: string, defs: Defs): (a: Act)
    reads defs
  {
    match Classify(raw)
    case Include(rest) => Splice(IncludePath(rest, defs))
    case IfDef(name) => Open(Ok(defs.IsDefined(name)))
    case IfNDef(name) => Open(Ok(!defs.IsDefined(name)))
    case If(expr) => Open(Evaluate(expr, defs))
    case Else => Flip
    case Endif => Close
    case Text => Write(Expand(Dollar, defs, raw) + "\n")
  }

  /** The actions of a file's lines, in order. */
  function Acts(lines: seq<string>, defs: Defs): (r: seq<Act>)
    reads defs
    ensures |r| == |lines|
  {
    if lines == [] then [] else [Meaning(lines[0], defs)] + Acts(lines[1..], defs)
  }

  /** The action at position `k` is that of line `k`. */
  lemma {:induction false} ActsAt(lines: seq<string>, defs: Defs, k: nat)
    requires k < |lines|
    ensures Acts(lines, defs)[k] == Meaning(lines[k], defs)
    decreases k
  {
    if k > 0 {
      ActsAt(lines[1..], defs, k - 1);
    }
  }

  /** `process_file` on `path`: a file that cannot be read is no error and adds nothing. */
  function Process(fs: FileSystem, path: Path, defs: Defs, fuel: nat): Outcome
    reads defs
    decreases fuel, 1
  {
    if path !in fs.files then Outcome(Ok(()), "")
    else Lines(fs, fs.dir(path), Acts(fs.files[path], defs), defs, fuel, 0, Initial)
  }

  /**
   * The line loop from line `i` on, in state `c`. An include line is never
   * written itself; an active one splices in what the included file writes,
   * relative to the including file's directory, and that file's error is
   * dropped. A failing directive stops the loop with nothing more written.
   * At the end every frame must be closed.
   */
  function Lines(fs: FileSystem, base: Path, acts: seq<Act>, defs: Defs, fuel: nat, i: nat, c: Cond): Outcome
    requires i <= |acts|
    reads defs
    decreases fuel, 0, |acts| - i
  {
    if i == |acts| then
      Outcome(if c.stack == [] then Ok(()) else Err(InvalidStructure(MissingEndif)), "")
    else
      match acts[i]
      case Splice(p) =>
        var child := if c.active && fuel > 0 && p.Some? then Process(fs, fs.join(base, p.value), defs, fuel - 1).text else "";
        Then(child, Lines(fs, base, acts, defs, fuel, i + 1, c))
      case Write(t) =>
        Then(if c.active then t else "", Lines(fs, base, acts, defs, fuel, i + 1, c))
      case Open(cond) =>
        (match cond
         case Err(e) => Outcome(Err(InvalidExpression(e)), "")
         case Ok(b) => Lines(fs, base, acts, defs, fuel, i + 1, Push(c, b)))
      case Flip =>
        (match Toggle(c)
         case Err(e) => Outcome(Err(InvalidStructure(e)), "")
         case Ok(c') => Lines(fs, base, acts, defs, fuel, i + 1, c'))
      case Close =>
        (match Pop(c)
         case Err(e) => Outcome(Err(InvalidStructure(e)), "")
         case Ok(c') => Lines(fs, base, acts, defs, fuel, i + 1, c'))
  }

  /**
   * Having written `out0` before and `out` now, what is left to do is
   * `rest`: together they give the result and the text of `whole`.
   */
  predicate Resumes(whole: Outcome, out0: string, out: string, rest: Outcome) {
    whole.result == rest.result && out0 + whole.text == out + rest.text
  }

  /**
   * `process_file`, appending to `out0`. The returned result and the
   * appended text are those of `Process`; what was in the buffer before
   * stays, even when processing fails.
   */
  method ProcessFile(fs: FileSystem, path: Path, defs: Defs, out0: string, fuel: nat)
    returns (r: Result<(), Error>, out: string)
    ensures r == Process(fs, path, defs, fuel).result
    ensures out == out0 + Process(fs, path, defs, fuel).text
    decreases fuel, 3
  {
    if path !in fs.files {
      return Ok(()), out0;
    }
    var content := fs.files[path];
    ghost var acts := Acts(content, defs);
    var base := fs.dir(path);
    var stack: seq<CondFrame> := [];
    var active := true;
    out := out0;
    var i := 0;
    while i < |content|
      invariant i <= |content|
      invariant Consistent(Cond(stack, active))
      invariant Resumes(Process(fs, path, defs, fuel), out0, out, Lines(fs, base, acts, defs, fuel, i, Cond(stack, active)))
      decreases |content| - i
    {
      var stop: bool;
      ActsAt(content, defs, i);
      stop, r, out, stack, active := ProcessLine(fs, base, content, acts, defs, fuel, i, stack, active, out);
      if stop {
        assert out + "" == out;
        return;
      }
      i := i + 1;
    }
    assert out + "" == out;
    if |stack| > 0 {
      return Err(InvalidStructure(MissingEndif)), out;
    }
    return Ok(()), out;
  }

  /** Appending in steps is appending at once. */
  lemma Appended(a: string, b: string, rest: string)
    ensures a + (b + rest) == (a + b) + rest
  {
  }

  /** The text after `#` and any white space decides what a `#` line is. */
  lemma HashLine(raw: string)
    requires |raw| > 0 && raw[0] == '#'
    ensures Classify(raw) == Keyword(TrimStart(raw[1..]))
  {
  }

  /**
   * One pass of the line loop of `process_file`. `stop` is set when a
   * directive fails and the function returns with `r`.
   */
  method ProcessLine(fs: FileSystem, base: Path, content: seq<string>, ghost acts: seq<Act>, defs: Defs, fuel: nat, i: nat,
                     stack0: seq<CondFrame>, active0: bool, out0: string)
    returns (stop: bool, r: Result<(), Error>, out: string, stack: seq<CondFrame>, active: bool)
    requires i < |content| == |acts| && acts[i] == Meaning(content[i], defs)
    requires Consistent(Cond(stack0, active0))
    ensures !stop ==> Consistent(Cond(stack, active))
    ensures stop ==> r.Err? && Resumes(Lines(fs, base, acts, defs, fuel, i, Cond(stack0, active0)), out0, out, Outcome(r, ""))
    ensures !stop ==> Resumes(Lines(fs, base, acts, defs, fuel, i, Cond(stack0, active0)), out0, out,
                              Lines(fs, base, acts, defs, fuel, i + 1, Cond(stack, active)))
    decreases fuel, 2
  {
    var rawLine := content[i];
    if |rawLine| > 0 && rawLine[0] == '#' {
      var handled;
      handled, stop, r, out, stack, active := DirectiveLine(fs, base, acts, defs, fuel, i, stack0, active0, out0, rawLine);
      if handled {
        return;
      }
    }
    stop, r, stack, active := false, Ok(()), stack0, active0;
    out := TextLine(fs, base, acts, defs, fuel, i, Cond(stack, active), out0, rawLine);
  }

  /**
   * A line starting with `#`: the keywords are tried in order. `handled`
   * is false when none matches and the line is to be treated as text.
   */
  method DirectiveLine(fs: FileSystem, base: Path, ghost acts: seq<Act>, defs: Defs, fuel: nat, i: nat,
                       stack0: seq<CondFrame>, active0: bool, out0: string, rawLine: string)
    returns (handled: bool, stop: bool, r: Result<(), Error>, out: string, stack: seq<CondFrame>, active: bool)
    requires |rawLine| > 0 && rawLine[0] == '#'
    requires i < |acts| && acts[i] == Meaning(rawLine, defs)
    requires Consistent(Cond(stack0, active0))
    ensures !handled ==> Classify(rawLine) == Text
    ensures handled && !stop ==> Consistent(Cond(stack, active))
    ensures handled && stop ==> r.Err? && Resumes(Lines(fs, base, acts, defs, fuel, i, Cond(stack0, active0)), out0, out, Outcome(r, ""))
    ensures handled && !stop ==> Resumes(Lines(fs, base, acts, defs, fuel, i, Cond(stack0, active0)), out0, out,
                                         Lines(fs, base, acts, defs, fuel, i + 1, Cond(stack, active)))
    decreases fuel, 1
  {
    handled, stop, r, out, stack, active := true, false, Ok(()), out0, stack0, active0;
    var trimmed := TrimStart(rawLine[1..]);
    HashLine(rawLine);
    if StartsWith(trimmed, "include") {
      out := IncludeLine(fs, base, acts, defs, fuel, i, Cond(stack, active), out, trimmed);
      return;
    }
    assert out0 + "" == out0;
    if StartsWith(trimmed, "if") {
      stop, r, stack, active := OpeningLine(fs, base, acts, defs, fuel, i, stack, active, rawLine, trimmed);
      return;
    }
    KeywordClosing(trimmed);
    if StartsWith(trimmed, "else") || StartsWith(trimmed, "endif") {
      stop, r, stack, active := ClosingLine(fs, base, acts, defs, fuel, i, stack, active, rawLine, trimmed);
      return;
    }
    handled := false;
  }

  /**
   * `#ifdef`, `#ifndef` and `#if`, tried in this order after `#include`
   * (all three begin with `if`): each pushes a frame, and `#if` fails on a
   * bad expression.
   */
  method OpeningLine(fs: FileSystem, base: Path, ghost acts: seq<Act>, defs: Defs, fuel: nat, i: nat,
                     stack0: seq<CondFrame>, active0: bool, rawLine: string, trimmed: string)
    returns (stop: bool, r: Result<(), Error>, stack: seq<CondFrame>, active: bool)
    requires i < |acts| && acts[i] == Meaning(rawLine, defs)
    requires Classify(rawLine) == Keyword(trimmed) && !StartsWith(trimmed, "include") && StartsWith(trimmed, "if")
    requires Consistent(Cond(stack0, active0))
    ensures !stop ==> Consistent(Cond(stack, active))
    ensures stop ==> r.Err? && Lines(fs, base, acts, defs, fuel, i, Cond(stack0, active0)) == Outcome(r, "")
    ensures !stop ==> Lines(fs, base, acts, defs, fuel, i, Cond(stack0, active0)) == Lines(fs, base, acts, defs, fuel, i + 1, Cond(stack, active))
  {
    stop, r, stack, active := false, Ok(()), stack0, active0;
    if StartsWith(trimmed, "ifdef") {
      var name := Trim(trimmed[5..]);
      var cond := defs.IsDefined(name);
      stack, active := PushFrame(fs, base, acts, defs, fuel, i, stack, active, cond);
    } else if StartsWith(trimmed, "ifndef") {
      var name := Trim(trimmed[6..]);
      var cond := !defs.IsDefined(name);
      stack, active := PushFrame(fs, base, acts, defs, fuel, i, stack, active, cond);
    } else {
      var expr := Trim(trimmed[2..]);
      var value := EvalExpr(expr, defs);
      if value.Err? {
        return true, Err(InvalidExpression(value.error)), stack, active;
      }
      var cond := value.value;
      stack, active := PushFrame(fs, base, acts, defs, fuel, i, stack, active, cond);
    }
  }

  /** `#else` and `#endif`, tried last. */
  method ClosingLine(fs: FileSystem, base: Path, ghost acts: seq<Act>, defs: Defs, fuel: nat, i: nat,
                     stack0: seq<CondFrame>, active0: bool, rawLine: string, trimmed: string)
    returns (stop: bool, r: Result<(), Error>, stack: seq<CondFrame>, active: bool)
    requires i < |acts| && acts[i] == Meaning(rawLine, defs)
    requires Classify(rawLine) == if StartsWith(trimmed, "else") then Else else Endif
    requires Consistent(Cond(stack0, active0))
    ensures !stop ==> Consistent(Cond(stack, active))
    ensures stop ==> r.Err? && Lines(fs, base, acts, defs, fuel, i, Cond(stack0, active0)) == Outcome(r, "")
    ensures !stop ==> Lines(fs, base, acts, defs, fuel, i, Cond(stack0, active0)) == Lines(fs, base, acts, defs, fuel, i + 1, Cond(stack, active))
  {
    if StartsWith(trimmed, "else") {
      stop, r, stack, active := ElseLine(fs, base, acts, defs, fuel, i, stack0, active0);
    } else {
      stop, r, stack, active := EndifLine(fs, base, acts, defs, fuel, i, stack0, active0);
    }
  }

  /** An `#include` line: an active one with a usable path processes the named file into the output, ignoring its result. */
  method IncludeLine(fs: FileSystem, base: Path, ghost acts: seq<Act>, defs: Defs, fuel: nat, i: nat,
                     c: Cond, out0: string, trimmed: string)
    returns (out: string)
    requires StartsWith(trimmed, "include")
    requires i < |acts| && acts[i] == Splice(IncludePath(trimmed, defs))
    ensures Resumes(Lines(fs, base, acts, defs, fuel, i, c), out0, out, Lines(fs, base, acts, defs, fuel, i + 1, c))
    decreases fuel, 0
  {
    out := out0;
    if c.active && fuel > 0 {
      var includePath := ParseIncludePath(trimmed, defs);
      if includePath.Some? {
        var joined := fs.join(base, includePath.value);
        var sub: nat := fuel - 1;
        var _, grown := ProcessFile(fs, joined, defs, out0, sub);
        out := grown;
        SpliceTaken(fs, base, acts, defs, fuel, sub, i, c, includePath.value);
        Appended(out0, Process(fs, joined, defs, sub).text, Lines(fs, base, acts, defs, fuel, i + 1, c).text);
        return;
      }
    }
    SpliceSkipped(fs, base, acts, defs, fuel, i, c);
  }

  /** An active include line with a path and fuel left writes what the included file writes, and leaves the state as it is. */
  lemma SpliceTaken(fs: FileSystem, base: Path, acts: seq<Act>, defs: Defs, fuel: nat, sub: nat, i: nat, c: Cond, path: Path)
    requires i < |acts| && acts[i] == Splice(Some(path)) && c.active && fuel == sub + 1
    ensures Lines(fs, base, acts, defs, fuel, i, c)
         == Then(Process(fs, fs.join(base, path), defs, sub).text, Lines(fs, base, acts, defs, fuel, i + 1, c))
  {
  }

  /** Any other include line writes nothing. */
  lemma SpliceSkipped(fs: FileSystem, base: Path, acts: seq<Act>, defs: Defs, fuel: nat, i: nat, c: Cond)
    requires i < |acts| && acts[i].Splice? && !(c.active && fuel > 0 && acts[i].path.Some?)
    ensures Lines(fs, base, acts, defs, fuel, i, c) == Lines(fs, base, acts, defs, fuel, i + 1, c)
  {
    assert "" + Lines(fs, base, acts, defs, fuel, i + 1, c).text == Lines(fs, base, acts, defs, fuel, i + 1, c).text;
  }

  /** A text line writes its text when active and leaves the state as it is. */
  lemma WriteStep(fs: FileSystem, base: Path, acts: seq<Act>, defs: Defs, fuel: nat, i: nat, c: Cond, t: string)
    requires i < |acts| && acts[i] == Write(t)
    ensures Lines(fs, base, acts, defs, fuel, i, c) == Then(if c.active then t else "", Lines(fs, base, acts, defs, fuel, i + 1, c))
  {
  }

  /** An opening directive whose condition came out as `b` pushes a frame. */
  lemma OpenStep(fs: FileSystem, base: Path, acts: seq<Act>, defs: Defs, fuel: nat, i: nat, c: Cond, b: bool)
    requires i < |acts| && acts[i] == Open(Ok(b))
    ensures Lines(fs, base, acts, defs, fuel, i, c) == Lines(fs, base, acts, defs, fuel, i + 1, Push(c, b))
  {
  }

  /** `#else` inside a frame goes on in the toggled state. */
  lemma FlipStep(fs: FileSystem, base: Path, acts: seq<Act>, defs: Defs, fuel: nat, i: nat, c: Cond)
    requires i < |acts| && acts[i] == Flip && c.stack != []
    ensures Lines(fs, base, acts, defs, fuel, i, c) == Lines(fs, base, acts, defs, fuel, i + 1, Toggle(c).value)
  {
  }

  /** `#endif` inside a frame goes on in the popped state. */
  lemma CloseStep(fs: FileSystem, base: Path, acts: seq<Act>, defs: Defs, fuel: nat, i: nat, c: Cond)
    requires i < |acts| && acts[i] == Close && c.stack != []
    ensures Lines(fs, base, acts, defs, fuel, i, c) == Lines(fs, base, acts, defs, fuel, i + 1, Pop(c).value)
  {
  }

  /** `#ifdef`, `#ifndef` or `#if` whose condition came out as `cond`: a new frame is pushed. */
  method PushFrame(fs: FileSystem, base: Path, ghost acts: seq<Act>, defs: Defs, fuel: nat, i: nat,
                   stack0: seq<CondFrame>, active0: bool, cond: bool)
    returns (stack: seq<CondFrame>, active: bool)
    requires i < |acts| && acts[i] == Open(Ok(cond))
    requires Consistent(Cond(stack0, active0))
    ensures Consistent(Cond(stack, active))
    ensures Lines(fs, base, acts, defs, fuel, i, Cond(stack0, active0)) == Lines(fs, base, acts, defs, fuel, i + 1, Cond(stack, active))
  {
    PushConsistent(Cond(stack0, active0), cond);
    stack := stack0 + [CondFrame(active0, cond, false)];
    active := active0 && cond;
  }

  /** `#else`: the first one in the top frame flips it; with no frame open it fails. */
  method ElseLine(fs: FileSystem, base: Path, ghost acts: seq<Act>, defs: Defs, fuel: nat, i: nat,
                  stack0: seq<CondFrame>, active0: bool)
    returns (stop: bool, r: Result<(), Error>, stack: seq<CondFrame>, active: bool)
    requires i < |acts| && acts[i] == Flip
    requires Consistent(Cond(stack0, active0))
    ensures stop ==> r.Err? && Lines(fs, base, acts, defs, fuel, i, Cond(stack0, active0)) == Outcome(r, "")
    ensures !stop ==> Consistent(Cond(stack, active))
    ensures !stop ==> Lines(fs, base, acts, defs, fuel, i, Cond(stack0, active0)) == Lines(fs, base, acts, defs, fuel, i + 1, Cond(stack, active))
  {
    stop, r, stack, active := false, Ok(()), stack0, active0;
    if stack == [] {
      return true, Err(InvalidStructure(ElseWithoutIf)), stack, active;
    }
    ToggleConsistent(Cond(stack, active));
    var top := stack[|stack| - 1];
    if !top.elseSeen {
      top := top.(elseSeen := true, active := !top.active);
      stack := stack[|stack| - 1 := top];
      active := top.parentActive && top.active;
    }
  }

  /** `#endif`: the top frame is popped and the flag it recorded restored; with no frame open it fails. */
  method EndifLine(fs: FileSystem, base: Path, ghost acts: seq<Act>, defs: Defs, fuel: nat, i: nat,
                   stack0: seq<CondFrame>, active0: bool)
    returns (stop: bool, r: Result<(), Error>, stack: seq<CondFrame>, active: bool)
    requires i < |acts| && acts[i] == Close
    requires Consistent(Cond(stack0, active0))
    ensures stop ==> r.Err? && Lines(fs, base, acts, defs, fuel, i, Cond(stack0, active0)) == Outcome(r, "")
    ensures !stop ==> Consistent(Cond(stack, active))
    ensures !stop ==> Lines(fs, base, acts, defs, fuel, i, Cond(stack0, active0)) == Lines(fs, base, acts, defs, fuel, i + 1, Cond(stack, active))
  {
    stop, r, stack, active := false, Ok(()), stack0, active0;
    if stack == [] {
      return true, Err(InvalidStructure(EndifWithoutIf)), stack, active;
    }
    PopConsistent(Cond(stack, active));
    var top := stack[|stack| - 1];
    stack := stack[..|stack| - 1];
    active := top.parentActive;
  }

  /** A text line: written, with its `$$name$$` spans substituted and a newline, when active. */
  method TextLine(fs: FileSystem, base: Path, ghost acts: seq<Act>, defs: Defs, fuel: nat, i: nat, c: Cond, out0: string,
                  rawLine: string)
    returns (out: string)
    requires i < |acts| && Classify(rawLine) == Text && acts[i] == Meaning(rawLine, defs)
    ensures Resumes(Lines(fs, base, acts, defs, fuel, i, c), out0, out, Lines(fs, base, acts, defs, fuel, i + 1, c))
  {
    ghost var t := Expand(Dollar, defs, rawLine) + "\n";
    assert acts[i] == Write(t);
    out := out0;
    if c.active {
      var replaced := ReplaceDollarVars(rawLine, defs);
      assert replaced + "\n" == t;
      out := out + replaced + "\n";
      Appended(out0, replaced, "\n");
    } else {
      assert out0 + "" == out0;
    }
    WriteStep(fs, base, acts, defs, fuel, i, c, t);
    Appended(out0, if c.active then t else "", Lines(fs, base, acts, defs, fuel, i + 1, c).text);
  }
}
