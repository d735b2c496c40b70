/** The overlay's navigation cursor, `modalPlace` in js/scripts.js, and the
    wrap-around moves the Next and Prev controls make. The bound is the
    configured batch size, `employeeNum`, not the length of the fetched
    list. */
module Cursor {

  /** `employeeNum`: how many records are requested. */
  const EmployeeNum: int := 12

  /** `modalMax`: the last position the cursor visits before wrapping. */
  const ModalMax: int := EmployeeNum - 1

  predicate InRange(c: int) { 0 <= c <= ModalMax }

  /** Next: from the last position back to 0, otherwise one further. On a
      position in range this is a step of one modulo the batch size. */
  function NextPlace(c: int): (r: int)
    ensures InRange(c) ==> InRange(r) && r == (c + 1) % EmployeeNum
    ensures !InRange(c) ==> r == c + 1
  {
    if c == ModalMax then 0 else c + 1
  }

  /** Prev: from 0 round to the last position, otherwise one back. On a
      position in range this is a step of minus one modulo the batch size. */
  function PrevPlace(c: int): (r: int)
    ensures InRange(c) ==> InRange(r) && r == (c - 1) % EmployeeNum
    ensures !InRange(c) ==> r == c - 1
  {
    if c == 0 then ModalMax else c - 1
  }

  datatype Step = Next | Prev

  function Move(c: int, step: Step): int
  {
    match step
    case Next => NextPlace(c)
    case Prev => PrevPlace(c)
  }

  /** The cursor after pressing the controls in `steps`, in order. */
  function Walk(c: int, steps: seq<Step>): int
    decreases steps
  {
    if steps == [] then c else Walk(Move(c, steps[0]), steps[1..])
  }

  /** Every position the cursor holds along `steps`, the start included. */
  function Trace(c: int, steps: seq<Step>): (t: seq<int>)
    decreases steps
    ensures |t| == |steps| + 1 && t[0] == c && t[|steps|] == Walk(c, steps)
    ensures forall i :: 0 <= i <= |steps| ==> t[i] == Walk(c, steps[..i])
  {
    if steps == [] then [c]
    else
      var rest := Trace(Move(c, steps[0]), steps[1..]);
      assert forall i :: 1 <= i <= |steps| ==>
        steps[..i][0] == steps[0] && steps[..i][1..] == steps[1..][..i - 1];
      [c] + rest
  }

  function Count(steps: seq<Step>, s: Step): nat
  {
    if steps == [] then 0
    else (if steps[0] == s then 1 else 0) + Count(steps[1..], s)
  }

  /** Next pressed k times in a row. */
  function NextTimes(c: int, k: nat): int
  {
    if k == 0 then c else NextPlace(NextTimes(c, k - 1))
  }

  /** Prev undoes Next on every integer except -1, whose successor 0 is sent
      back round to the last position. */
  lemma PrevUndoesNext(c: int)
    ensures PrevPlace(NextPlace(c)) == c <==> c != -1
  {
  }

  /** Next undoes Prev on every integer except the batch size itself, whose
      predecessor is the last position, which Next wraps to 0. */
  lemma NextUndoesPrev(c: int)
    ensures NextPlace(PrevPlace(c)) == c <==> c != EmployeeNum
  {
  }

  lemma {:induction false} ModShift(x: int, a: int)
    ensures (x % EmployeeNum + a) % EmployeeNum == (x + a) % EmployeeNum
  {
  }

  /** From a position in range, any sequence of presses lands where counting
      Next as +1 and Prev as -1 modulo the batch size says, so the cursor
      never leaves the range. */
  lemma {:induction false} WalkIsModular(c: int, steps: seq<Step>)
    requires InRange(c)
    ensures Walk(c, steps) == (c + Count(steps, Next) - Count(steps, Prev)) % EmployeeNum
    ensures InRange(Walk(c, steps))
    decreases steps
  {
    if steps != [] {
      var c' := Move(c, steps[0]);
      var rest := steps[1..];
      WalkIsModular(c', rest);
      var delta := Count(rest, Next) - Count(rest, Prev);
      if steps[0] == Next {
        ModShift(c + 1, delta);
        assert (c + Count(steps, Next) - Count(steps, Prev)) == c + 1 + delta;
      } else {
        ModShift(c - 1, delta);
        assert (c + Count(steps, Next) - Count(steps, Prev)) == c - 1 + delta;
      }
    }
  }

  /** Pressing Next k times from a position in range adds k modulo the batch
      size. */
  lemma {:induction false} NextTimesIsModular(c: int, k: nat)
    requires InRange(c)
    ensures NextTimes(c, k) == (c + k) % EmployeeNum
  {
    if k > 0 {
      NextTimesIsModular(c, k - 1);
      ModShift(c + k - 1, 1);
    }
  }

  /** Pressing Next as many times as there are records brings the cursor
      back to where it started. */
  lemma NextCycle(c: int)
    requires InRange(c)
    ensures NextTimes(c, EmployeeNum) == c
  {
    NextTimesIsModular(c, EmployeeNum);
  }

  /** From a position in range, every position the cursor visits along any
      sequence of presses is in range. */
  lemma TraceStaysInRange(c: int, steps: seq<Step>)
    requires InRange(c)
    ensures forall i :: 0 <= i < |Trace(c, steps)| ==> InRange(Trace(c, steps)[i])
  {
    forall i | 0 <= i < |Trace(c, steps)| ensures InRange(Trace(c, steps)[i]) {
      WalkIsModular(c, steps[..i]);
    }
  }

  /** Opening card 0, then Next, Next, Prev shows records 0, 1, 2, 1. */
  lemma TraceExample()
    ensures Trace(0, [Next, Next, Prev]) == [0, 1, 2, 1]
  {
    assert [Next, Next, Prev][1..] == [Next, Prev];
    assert [Next, Prev][1..] == [Prev];
  }
}
