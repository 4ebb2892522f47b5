/**
 * The argument loop of `main` (src/main.rs:53-74) and what `main` does
 * with its result (src/main.rs:76-95). Each `-DKEY[=VALUE]` argument is
 * applied to the definition store in order, so a later setting of a key
 * overrides an earlier one; the first argument that is not a `-D` option
 * names the input file, and later ones are ignored.
 */
module CommandLine {
  import opened Wrappers
  import opened Chars
  import opened Errors
  import opened Definitions
  import opened Interpreter

  /** The position of the first `=` in `s`, where `split_once('=')` splits. */
  function FindEq(s: string): (r: Option<nat>)
    ensures r.Some? ==> r.value < |s| && s[r.value] == '='
    ensures r.Some? ==> forall j :: 0 <= j < r.value ==> s[j] != '='
    ensures r.None? ==> forall j :: 0 <= j < |s| ==> s[j] != '='
  {
    if s == [] then None
    else if s[0] == '=' then Some(0)
    else
      match FindEq(s[1..])
      case None => None
      case Some(k) => Some(k + 1)
  }

  /** An argument that `strip_prefix("-D")` accepts; it is never taken as the input file. */
  predicate IsOption(arg: string) {
    StartsWith(arg, "-D")
  }

  /**
   * What one argument asks of the store, as a key and what `set_defined`
   * is given for it. `-DKEY=VALUE` sets `KEY` to `VALUE` (split at the
   * first `=`), `-DKEY=` marks `KEY` explicitly undefined and `-DKEY` sets
   * it to `TRUE`. A bare `-D` and a non-option ask nothing.
   */
  function Setting(arg: string): (r: Option<(string, Option<string>)>)
    ensures r.Some? <==> IsOption(arg) && |arg| > 2
    ensures r.Some? && r.value.1.Some? ==> r.value.1.value != ""
  {
    if IsOption(arg) && |arg| > 2 then
      var rest := arg[2..];
      match FindEq(rest)
      case None => Some((rest, Some("TRUE")))
      case Some(k) => Some((rest[..k], if k + 1 == |rest| then None else Some(rest[k + 1..])))
    else None
  }

  /** What `is_defined` and `get_value` report for one key. */
  datatype Entry = Entry(defined: bool, value: string)

  /** The entry of `key` after one argument, given its entry before. */
  function Apply(e: Entry, key: string, arg: string): Entry {
    match Setting(arg)
    case None => e
    case Some((k, v)) => if k != key then e else Entry(v.Some?, if v.Some? then v.value else "")
  }

  /** The entry of `key` after the arguments `args`, in order, given its entry before them. */
  function After(args: seq<string>, key: string, e: Entry): Entry
    decreases |args|
  {
    if args == [] then e else Apply(After(args[..|args| - 1], key, e), key, args[|args| - 1])
  }

  /** The entry the store reports for `key`. */
  function EntryOf(defs: Defs, key: string): Entry
    reads defs
  {
    Entry(defs.IsDefined(key), defs.GetValue(key))
  }

  /** The input file: the first argument that is not a `-D` option. */
  function InputArg(args: seq<string>): (r: Option<string>)
    ensures r.Some? ==> r.value in args && !IsOption(r.value)
    ensures r.None? <==> forall k :: 0 <= k < |args| ==> IsOption(args[k])
  {
    if args == [] then None
    else if !IsOption(args[0]) then Some(args[0])
    else InputArg(args[1..])
  }

  /**
   * The loop over `env::args().skip(1)`: every option applied to `defs` in
   * order, and the first other argument kept as the input file.
   */
  method ParseArgs(args: seq<string>, defs: Defs) returns (input: Option<string>)
    modifies defs
    ensures input == InputArg(args)
    ensures old(defs.Valid()) ==> defs.Valid()
    ensures forall key :: EntryOf(defs, key) == After(args, key, old(EntryOf(defs, key)))
  {
    input := None;
    var i := 0;
    while i < |args|
      invariant i <= |args|
      invariant input == InputArg(args[..i])
      invariant old(defs.Valid()) ==> defs.Valid()
      invariant forall key :: EntryOf(defs, key) == After(args[..i], key, old(EntryOf(defs, key)))
      decreases |args| - i
    {
      var arg := args[i];
      InputStep(args[..i], arg);
      assert args[..i + 1] == args[..i] + [arg];
      if IsOption(arg) {
        DefineOption(arg, defs);
      } else if input.None? {
        input := Some(arg);
      }
      forall key
        ensures After(args[..i + 1], key, old(EntryOf(defs, key))) == Apply(After(args[..i], key, old(EntryOf(defs, key))), key, arg)
      {
        AfterStep(args[..i], arg, key, old(EntryOf(defs, key)));
      }
      i := i + 1;
    }
    assert args[..i] == args;
  }

  /**
   * The body of the loop for one `-D` argument: a bare `-D` is skipped;
   * otherwise the text after `-D` is split at its first `=` and passed to
   * `set_defined`.
   */
  method DefineOption(arg: string, defs: Defs)
    requires IsOption(arg)
    modifies defs
    ensures old(defs.Valid()) ==> defs.Valid()
    ensures forall key :: EntryOf(defs, key) == Apply(old(EntryOf(defs, key)), key, arg)
  {
    var rest := arg[2..];
    if rest == [] {
      return;
    }
    var eq := FindEq(rest);
    match eq {
      case None =>
        defs.SetDefined(rest, Some("TRUE"));
      case Some(k) =>
        var key := rest[..k];
        var value := rest[k + 1..];
        if value == [] {
          defs.SetDefined(key, None);
        } else {
          defs.SetDefined(key, Some(value));
        }
    }
  }

  /** `After` takes the arguments one at a time, the last one last. */
  lemma AfterStep(args: seq<string>, arg: string, key: string, e: Entry)
    ensures After(args + [arg], key, e) == Apply(After(args, key, e), key, arg)
  {
    assert (args + [arg])[..|args|] == args;
  }

  /** Taking one more argument into account: the input already chosen stays, or this argument becomes it. */
  lemma InputStep(args: seq<string>, arg: string)
    ensures InputArg(args + [arg]) == if InputArg(args).Some? || IsOption(arg) then InputArg(args) else Some(arg)
    decreases |args|
  {
    if args != [] {
      assert (args + [arg])[1..] == args[1..] + [arg];
      InputStep(args[1..], arg);
    }
  }

  /** The last setting of a key decides its entry, whatever came before it. */
  lemma LastSettingWins(args: seq<string>, arg: string, key: string, v: Option<string>, e: Entry)
    requires Setting(arg) == Some((key, v))
    ensures After(args + [arg], key, e) == Entry(v.Some?, if v.Some? then v.value else "")
  {
    AfterStep(args, arg, key, e);
  }

  /** A key no argument sets keeps the entry it had. */
  lemma {:induction false} UnsetKeyUnchanged(args: seq<string>, key: string, e: Entry)
    requires forall k :: 0 <= k < |args| ==> Setting(args[k]).None? || Setting(args[k]).value.0 != key
    ensures After(args, key, e) == e
    decreases |args|
  {
    if args != [] {
      UnsetKeyUnchanged(args[..|args| - 1], key, e);
    }
  }

  /** `-DKEY=` leaves the key undefined with the empty value, even after an earlier `-DKEY=VALUE`. */
  lemma EmptyValueUndefines(args: seq<string>, key: string, e: Entry)
    requires '=' !in key
    ensures After(args + ["-D" + key + "="], key, e) == Entry(false, "")
  {
    var arg := "-D" + key + "=";
    assert arg[..2] == "-D";
    assert arg[2..] == key + "=";
    FindFirstEq(key, "");
    LastSettingWins(args, arg, key, None, e);
  }

  /** `-DKEY` with no `=` defines the key as `TRUE`. */
  lemma BareKeyIsTrue(args: seq<string>, key: string, e: Entry)
    requires key != [] && '=' !in key
    ensures After(args + ["-D" + key], key, e) == Entry(true, "TRUE")
  {
    var arg := "-D" + key;
    assert arg[..2] == "-D";
    assert arg[2..] == key;
    assert FindEq(key).None?;
    LastSettingWins(args, arg, key, Some("TRUE"), e);
  }

  /** A value may itself hold `=`: only the first `=` separates key and value. */
  lemma ValueKeepsLaterEq(args: seq<string>, key: string, value: string, e: Entry)
    requires '=' !in key && value != []
    ensures After(args + ["-D" + key + "=" + value], key, e) == Entry(true, value)
  {
    var arg := "-D" + key + "=" + value;
    assert arg[..2] == "-D";
    assert arg[2..] == key + "=" + value;
    FindFirstEq(key, value);
    var rest := key + "=" + value;
    assert rest[..|key|] == key && rest[|key| + 1..] == value;
    LastSettingWins(args, arg, key, Some(value), e);
  }

  /** In `key + "=" + tail`, with no `=` in `key`, the first `=` is the one after `key`. */
  lemma {:induction false} FindFirstEq(key: string, tail: string)
    requires '=' !in key
    ensures FindEq(key + "=" + tail) == Some(|key|)
    decreases |key|
  {
    if key == [] {
      assert (key + "=" + tail)[0] == '=';
    } else {
      assert (key + "=" + tail)[1..] == key[1..] + "=" + tail;
      assert key[0] in key;
      FindFirstEq(key[1..], tail);
    }
  }

  /** The usage line printed when no input file is named. */
  const Usage := "usage: textpp [-DKEY[=VALUE]] <input-file>"

  /** What a run of the program leaves behind: exit status, standard output and standard error. */
  datatype Exit = Exit(code: int, stdout: string, stderr: string)

  /**
   * `main`: with no input file, the usage line and status 2; otherwise the
   * input is processed with the definitions from the options, and either
   * the whole output is printed with status 0 or, on an error, only its
   * message with status 1 — the partial output is dropped.
   */
  method Run(fs: FileSystem, args: seq<string>, fuel: nat) returns (defs: Defs, x: Exit)
    ensures fresh(defs) && defs.Valid()
    ensures forall key :: EntryOf(defs, key) == After(args, key, Entry(false, ""))
    ensures InputArg(args).None? ==> x == Exit(2, "", Usage + "\n")
    ensures InputArg(args).Some? ==>
      var o := Process(fs, InputArg(args).value, defs, fuel);
      x == if o.result.Ok? then Exit(0, o.text, "") else Exit(1, "", Message(o.result.error) + "\n")
  {
    defs := new Defs();
    var input := ParseArgs(args, defs);
    if input.None? {
      return defs, Exit(2, "", Usage + "\n");
    }
    var r, out := ProcessFile(fs, input.value, defs, "", fuel);
    assert out == Process(fs, input.value, defs, fuel).text;
    match r {
      case Ok(_) =>
        x := Exit(0, out, "");
      case Err(e) =>
        x := Exit(1, "", Message(e) + "\n");
    }
  }
}
