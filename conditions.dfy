/**
 * The conditional-nesting automaton of `process_file` (src/main.rs:103-185):
 * a stack of `CondFrame`s and the `current_active` flag. `#ifdef`, `#ifndef`
 * and `#if` push a frame, `#else` flips the top frame once, `#endif` pops it.
 */
module Conditions {
  import opened Wrappers
  import opened Errors

  /** `CondFrame`: the flag before the frame was opened, the branch taken, and whether `#else` was seen. */
  datatype CondFrame = CondFrame(parentActive: bool, active: bool, elseSeen: bool)

  /** The automaton's state: the frame stack and `current_active`. */
  datatype Cond = Cond(stack: seq<CondFrame>, active: bool)

  /** Before the first line: no frame, output on. */
  const Initial := Cond([], true)

  function Top(c: Cond): CondFrame
    requires c.stack != []
  {
    c.stack[|c.stack| - 1]
  }

  /** `#ifdef`, `#ifndef` or `#if` with condition `cond`: push a frame recording the flag as it was. */
  function Push(c: Cond, cond: bool): (r: Cond)
    ensures |r.stack| == |c.stack| + 1
  {
    Cond(c.stack + [CondFrame(c.active, cond, false)], c.active && cond)
  }

  /**
   * `#else`: the first one in a frame takes the other branch and marks the
   * frame; any later one in the same frame changes nothing. With no frame
   * open it is a structural error.
   */
  function Toggle(c: Cond): (r: Result<Cond, StructureError>)
    ensures r.Err? <==> c.stack == []
    ensures r.Err? ==> r.error == ElseWithoutIf
    ensures r.Ok? ==> |r.value.stack| == |c.stack| && Top(r.value).elseSeen
    ensures r.Ok? && !Top(c).elseSeen ==>
      Top(r.value) == CondFrame(Top(c).parentActive, !Top(c).active, true) &&
      r.value.active == (Top(c).parentActive && !Top(c).active)
    ensures r.Ok? && Top(c).elseSeen ==> r.value == c
  {
    if c.stack == [] then Err(ElseWithoutIf)
    else
      var top := Top(c);
      if !top.elseSeen then
        var flipped := CondFrame(top.parentActive, !top.active, true);
        Ok(Cond(c.stack[|c.stack| - 1 := flipped], top.parentActive && !top.active))
      else Ok(c)
  }

  /** `#endif`: pop the top frame and restore the flag it recorded. With no frame open it is a structural error. */
  function Pop(c: Cond): (r: Result<Cond, StructureError>)
    ensures r.Err? <==> c.stack == []
    ensures r.Err? ==> r.error == EndifWithoutIf
    ensures r.Ok? ==> |r.value.stack| == |c.stack| - 1 && r.value.active == Top(c).parentActive
  {
    if c.stack == [] then Err(EndifWithoutIf)
    else Ok(Cond(c.stack[..|c.stack| - 1], Top(c).parentActive))
  }

  /** Each frame's recorded flag is the flag that held inside the frame below it. */
  predicate Chained(stack: seq<CondFrame>) {
    forall k :: 0 < k < |stack| ==> stack[k].parentActive == (stack[k - 1].parentActive && stack[k - 1].active)
  }

  /**
   * The invariant of the line loop: with no frame open the flag is on;
   * otherwise the bottom frame was opened with the flag on, each frame
   * recorded the flag of the one below, and the flag is the top frame's
   * recorded flag and its branch.
   */
  predicate Consistent(c: Cond) {
    if c.stack == [] then c.active
    else c.stack[0].parentActive && Chained(c.stack) && c.active == (Top(c).parentActive && Top(c).active)
  }

  lemma InitialConsistent()
    ensures Consistent(Initial)
  {
  }

  /** Pushing keeps the invariant, and the new frame records the flag as it was before. */
  lemma PushConsistent(c: Cond, cond: bool)
    requires Consistent(c)
    ensures Consistent(Push(c, cond))
    ensures Top(Push(c, cond)) == CondFrame(c.active, cond, false)
  {
    var s := Push(c, cond).stack;
    assert s[..|c.stack|] == c.stack;
    if c.stack != [] {
      assert s[0] == c.stack[0];
      forall k | 0 < k < |s|
        ensures s[k].parentActive == (s[k - 1].parentActive && s[k - 1].active)
      {
        if k < |c.stack| {
          assert s[k] == c.stack[k] && s[k - 1] == c.stack[k - 1];
        } else {
          assert s[k - 1] == Top(c);
        }
      }
    }
  }

  /** `#else` keeps the invariant. */
  lemma ToggleConsistent(c: Cond)
    requires Consistent(c) && c.stack != []
    ensures Consistent(Toggle(c).value)
  {
    var r := Toggle(c).value;
    if !Top(c).elseSeen {
      var n := |c.stack|;
      assert r.stack[..n - 1] == c.stack[..n - 1];
      forall k | 0 < k < n
        ensures r.stack[k].parentActive == (r.stack[k - 1].parentActive && r.stack[k - 1].active)
      {
        assert r.stack[k - 1] == c.stack[k - 1];
        if k < n - 1 {
          assert r.stack[k] == c.stack[k];
        }
      }
      if n == 1 {
        assert r.stack[0].parentActive == Top(c).parentActive;
      } else {
        assert r.stack[0] == c.stack[0];
      }
    }
  }

  /** `#endif` keeps the invariant. */
  lemma PopConsistent(c: Cond)
    requires Consistent(c) && c.stack != []
    ensures Consistent(Pop(c).value)
  {
    var r := Pop(c).value;
    var n := |c.stack|;
    forall k | 0 <= k < n - 1
      ensures r.stack[k] == c.stack[k]
    {
    }
    if n > 1 {
      assert Top(c).parentActive == (Top(r).parentActive && Top(r).active);
    }
  }

  /** `#endif` right after an opening directive gives back the state before it, whatever the condition. */
  lemma PopPush(c: Cond, cond: bool)
    ensures Pop(Push(c, cond)) == Ok(c)
  {
    assert Push(c, cond).stack[..|c.stack|] == c.stack;
  }

  /** `#else` right after an opening directive takes the other branch, under the same outer flag. */
  lemma TogglePush(c: Cond, cond: bool)
    ensures Toggle(Push(c, cond)) == Ok(Cond(c.stack + [CondFrame(c.active, !cond, true)], c.active && !cond))
  {
    var s := Push(c, cond).stack;
    assert s[..|c.stack|] == c.stack;
    assert s[|c.stack| := CondFrame(c.active, !cond, true)] == c.stack + [CondFrame(c.active, !cond, true)];
  }

  /** Only the first `#else` of a frame acts: a second one leaves stack and flag as they are. */
  lemma ToggleOnce(c: Cond)
    requires c.stack != []
    ensures Toggle(Toggle(c).value) == Toggle(c)
  {
  }

  /** `#endif` after `#else` still restores the flag from before the frame was opened. */
  lemma PopToggle(c: Cond)
    requires c.stack != []
    ensures Pop(Toggle(c).value) == Ok(Cond(c.stack[..|c.stack| - 1], Top(c).parentActive))
  {
    var r := Toggle(c).value;
    assert r.stack[..|r.stack| - 1] == c.stack[..|c.stack| - 1];
  }

  /** In a chained stack whose bottom frame was opened with the flag on, frame `k` recorded the flag on exactly when every frame below it takes its branch. */
  lemma {:induction false} RecordedIffBelowTaken(stack: seq<CondFrame>, k: nat)
    requires Chained(stack) && k < |stack| && stack[0].parentActive
    ensures stack[k].parentActive <==> forall j :: 0 <= j < k ==> stack[j].active
  {
    if k > 0 {
      RecordedIffBelowTaken(stack, k - 1);
    }
  }

  /** Under the invariant, lines are active exactly when every open frame takes its branch. */
  lemma ActiveIffAllTaken(c: Cond)
    requires Consistent(c)
    ensures c.active <==> forall k :: 0 <= k < |c.stack| ==> c.stack[k].active
  {
    if c.stack != [] {
      RecordedIffBelowTaken(c.stack, |c.stack| - 1);
    }
  }
}
