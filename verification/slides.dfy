/**
  The position/direction pair that every slideshow on the portfolio page keeps:
  the project carousel, the certification carousel and the rotating "about"
  text. Positions wrap around a circular list of `n` items; the direction
  records the sign of the last navigation and only chooses where the entering
  and leaving slides come from.
 */
module Slides {

  import opened Modular

  /** -1 after a backwards move, +1 after a forwards move, 0 before any move. */
  type Direction = d: int | -1 <= d <= 1

  datatype Slide = Slide(index: nat, direction: Direction)

  /** Every slideshow starts on its first item with no direction. */
  const Initial: Slide := Slide(0, 0)

  predicate InRange(s: Slide, n: nat) {
    s.index < n
  }

  /** One step forwards, wrapping from the last item to the first. */
  function Forward(s: Slide, n: nat): (r: Slide)
    requires InRange(s, n)
    ensures InRange(r, n)
    ensures r.direction == 1
    ensures r.index == if s.index == n - 1 then 0 else s.index + 1
  {
    Slide((s.index + 1) % n, 1)
  }

  /** One step backwards, wrapping from the first item to the last. */
  function Backward(s: Slide, n: nat): (r: Slide)
    requires InRange(s, n)
    ensures InRange(r, n)
    ensures r.direction == -1
    ensures r.index == if s.index == 0 then n - 1 else s.index - 1
  {
    Slide((s.index - 1 + n) % n, -1)
  }

  /**
    A click on indicator dot `k`: the direction is forwards exactly when the
    dot lies after the current item, so clicking the current dot moves nowhere
    but still sets the direction backwards.
   */
  function Jump(s: Slide, k: nat): (r: Slide)
    ensures r.index == k
    ensures r.direction == 1 <==> s.index < k
    ensures r.direction == -1 <==> k <= s.index
  {
    Slide(k, if k > s.index then 1 else -1)
  }

  lemma BackwardUndoesForward(s: Slide, n: nat)
    requires InRange(s, n)
    ensures Backward(Forward(s, n), n).index == s.index
  {
  }

  lemma ForwardUndoesBackward(s: Slide, n: nat)
    requires InRange(s, n)
    ensures Forward(Backward(s, n), n).index == s.index
  {
  }

  /** Clicking the dot right after the current one is the same as a forward step. */
  lemma JumpToSuccessorIsForward(s: Slide, n: nat)
    requires s.index + 1 < n
    ensures Jump(s, s.index + 1) == Forward(s, n)
  {
  }

  /** Clicking the dot right before the current one is the same as a backward step. */
  lemma JumpToPredecessorIsBackward(s: Slide, n: nat)
    requires 0 < s.index < n
    ensures Jump(s, s.index - 1) == Backward(s, n)
  {
  }

  /** `k` forward steps in a row. */
  function ForwardTimes(s: Slide, n: nat, k: nat): (r: Slide)
    requires InRange(s, n)
    ensures InRange(r, n)
    decreases k
  {
    if k == 0 then s else ForwardTimes(Forward(s, n), n, k - 1)
  }

  /** After `k` forward steps the slideshow stands `k` places further on, modulo `n`. */
  lemma {:induction false} ForwardTimesIndex(s: Slide, n: nat, k: nat)
    requires InRange(s, n)
    ensures ForwardTimes(s, n, k).index == (s.index + k) % n
    ensures k > 0 ==> ForwardTimes(s, n, k).direction == 1
    decreases k
  {
    if k > 0 {
      var f := Forward(s, n);
      ForwardTimesIndex(f, n, k - 1);
      assert f.index == (s.index + 1) % n;
      ModAddLeft(s.index + 1, k - 1, n);
    }
  }

  /** `n` forward steps bring every slideshow of `n` items back to where it started. */
  lemma FullCycle(s: Slide, n: nat)
    requires InRange(s, n)
    ensures ForwardTimes(s, n, n).index == s.index
  {
    WrapOnce(s.index, n);
    ForwardTimesIndex(s, n, n);
  }

  /** Horizontal offsets of the entering and the leaving slide. */
  datatype Offsets = Offsets(enter: int, exit: int)

  /**
    The variant table: moving forwards, the new slide enters from the positive
    side and the old one leaves towards the negative side; moving backwards it
    is the other way round. With no direction yet, both sit on the negative side.
   */
  function Variants(d: Direction, magnitude: int): (r: Offsets)
    requires magnitude > 0
    ensures d == 1 ==> r == Offsets(magnitude, -magnitude)
    ensures d == -1 ==> r == Offsets(-magnitude, magnitude)
    ensures d == 0 ==> r == Offsets(-magnitude, -magnitude)
    ensures r.enter == magnitude <==> d > 0
    ensures r.exit == magnitude <==> d < 0
  {
    Offsets(if d > 0 then magnitude else -magnitude, if d < 0 then magnitude else -magnitude)
  }

  /** For a real move the slide leaves on the side opposite to where the next one enters. */
  lemma ExitOpposesEnter(d: Direction, magnitude: int)
    requires magnitude > 0
    requires d != 0
    ensures Variants(d, magnitude).exit == -Variants(d, magnitude).enter
  {
  }
}
