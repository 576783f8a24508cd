/**
 * The whole lock: four wheels indexed by the four slide directions
 * (0 = up, 1 = right, 2 = down, 3 = left). A slide in direction d pushes
 * the wheel before d to shift -1, wheel d to shift 0 and the wheel after
 * d to shift +1; the wheel opposite d is not touched.
 */
module Locks {
  import opened Wheels

  /** A slide direction, which is also the index of a wheel. */
  type Dir = d: int | 0 <= d < 4

  /** Number of wheels in a lock. */
  const WheelCount: nat := 4

  /** The wheel before `d`, going round. */
  function Prior(d: Dir): (r: Dir)
    ensures r == (d + 3) % WheelCount
  {
    if d == 0 then 3 else d - 1
  }

  /** The wheel after `d`, going round. */
  function Next(d: Dir): (r: Dir)
    ensures r == (d + 1) % WheelCount
  {
    if d == 3 then 0 else d + 1
  }

  /** The wheel a slide in direction `d` leaves alone. */
  function Opposite(d: Dir): (r: Dir)
    ensures r != Prior(d) && r != d && r != Next(d)
  {
    (d + 2) % WheelCount
  }

  /** Prior and Next undo each other, and a slide's three wheels are distinct. */
  lemma PriorNext(d: Dir)
    ensures Prior(Next(d)) == d && Next(Prior(d)) == d
    ensures Prior(d) != d && d != Next(d) && Prior(d) != Next(d)
  {
  }

  /** The value of a lock: its four wheels in index order. */
  type LockState = seq<Wheel>

  predicate ValidState(s: LockState) {
    |s| == WheelCount && forall i | 0 <= i < |s| :: s[i].Valid()
  }

  /** The reset lock: every wheel neutral. */
  function Initial(): (s: LockState)
    ensures ValidState(s)
    ensures forall i | 0 <= i < |s| :: s[i] == Neutral()
  {
    [Neutral(), Neutral(), Neutral(), Neutral()]
  }

  /** A slide on a lock value, advancing the prior, own and next wheel in that order. */
  function SlideState(s: LockState, d: Dir): (r: LockState)
    requires ValidState(s)
    ensures ValidState(r)
  {
    var p, n := Prior(d), Next(d);
    var s1 := s[p := s[p].Advance(-1)];
    var s2 := s1[d := s1[d].Advance(0)];
    s2[n := s2[n].Advance(1)]
  }

  /**
   * The effect of a slide wheel by wheel: each of the three wheels it
   * moves gets the slide's shift for it and a position by the Advance
   * rule (the prior wheel always steps, the own wheel steps unless it
   * leaned -1, the next wheel steps only if it already leaned +1); the
   * opposite wheel is unchanged.
   */
  lemma SlideEffect(s: LockState, d: Dir)
    requires ValidState(s)
    ensures var r := SlideState(s, d);
      && r[Prior(d)].Shift() == -1
      && r[Prior(d)].Pos() == (s[Prior(d)].Pos() + 1) % Positions
      && r[d].Shift() == 0
      && r[d].Pos() == (if s[d].Shift() < 0 then s[d].Pos() else (s[d].Pos() + 1) % Positions)
      && r[Next(d)].Shift() == 1
      && r[Next(d)].Pos() == (if s[Next(d)].Shift() < 1 then s[Next(d)].Pos() else (s[Next(d)].Pos() + 1) % Positions)
      && r[Opposite(d)] == s[Opposite(d)]
  {
    var p, n := Prior(d), Next(d);
    var s1 := s[p := s[p].Advance(-1)];
    var s2 := s1[d := s1[d].Advance(0)];
    var r := s2[n := s2[n].Advance(1)];
    assert r == SlideState(s, d);
    assert r[p] == s[p].Advance(-1);
    assert r[d] == s[d].Advance(0);
    assert r[n] == s[n].Advance(1);
    AdvanceRule(s[p], -1);
    AdvanceRule(s[d], 0);
    AdvanceRule(s[n], 1);
    PartsRoundTrip(s[p]);
  }

  /**
   * Sliding up from the reset lock: the top wheel steps to position 1
   * (code 4), the right wheel only leans +1 (code 2), the bottom wheel
   * stays neutral (code 1) and the left wheel steps to 1 leaning -1
   * (code 3).
   */
  lemma FirstSlideUp()
    ensures SlideState(Initial(), 0) == [Wheel(4), Wheel(2), Wheel(1), Wheel(3)]
  {
    var n := Neutral();
    assert n.Advance(-1) == Wheel(3) && n.Advance(0) == Wheel(4) && n.Advance(1) == Wheel(2);
    var s1 := Initial()[3 := Wheel(3)];
    var s2 := s1[0 := Wheel(4)];
    assert SlideState(Initial(), 0) == s2[1 := Wheel(2)];
  }

  /** The lock reached by sliding through `moves` from the reset lock. */
  function Replay(moves: seq<Dir>): (r: LockState)
    ensures ValidState(r)
  {
    if moves == [] then Initial()
    else SlideState(Replay(moves[..|moves| - 1]), moves[|moves| - 1])
  }

  /** Replaying one more move is one more slide. */
  lemma ReplaySnoc(moves: seq<Dir>, d: Dir)
    ensures Replay(moves + [d]) == SlideState(Replay(moves), d)
  {
    assert (moves + [d])[..|moves|] == moves;
  }

  /**
   * The derived ordering of locks: lexicographic over the wheels' codes.
   * It is used only to give the map of results a deterministic order.
   */
  predicate LockLess(a: LockState, b: LockState)
    decreases |a|
  {
    |a| > 0 && |b| > 0 &&
    (a[0].code < b[0].code || (a[0] == b[0] && LockLess(a[1..], b[1..])))
  }

  lemma {:induction false} LockLessIrreflexive(a: LockState)
    ensures !LockLess(a, a)
    decreases |a|
  {
    if |a| > 0 {
      LockLessIrreflexive(a[1..]);
    }
  }

  lemma {:induction false} LockLessTransitive(a: LockState, b: LockState, c: LockState)
    requires LockLess(a, b) && LockLess(b, c)
    ensures LockLess(a, c)
    decreases |a|
  {
    if a[0] == b[0] && b[0] == c[0] {
      LockLessTransitive(a[1..], b[1..], c[1..]);
    }
  }

  /** Any two distinct locks of the same length are ordered one way or the other. */
  lemma {:induction false} LockLessTotal(a: LockState, b: LockState)
    requires |a| == |b| && a != b
    ensures LockLess(a, b) || LockLess(b, a)
    decreases |a|
  {
    if a[0] == b[0] {
      assert a == [a[0]] + a[1..] && b == [b[0]] + b[1..];
      LockLessTotal(a[1..], b[1..]);
    }
  }

  /** A lock object, updated in place by slides. */
  class Lock {
    const wheels: array<Wheel>

    ghost predicate Valid()
      reads wheels
    {
      wheels.Length == WheelCount && ValidState(wheels[..])
    }

    function State(): LockState
      reads wheels
    {
      wheels[..]
    }

    /** A lock in the reset position. */
    constructor ()
      ensures Valid() && fresh(wheels)
      ensures State() == Initial()
    {
      wheels := new Wheel[4](_ => Neutral());
    }

    /** Slides in direction `d`: prior wheel to -1, own wheel to 0, next wheel to +1. */
    method Slide(d: Dir)
      requires Valid()
      modifies wheels
      ensures Valid()
      ensures State() == SlideState(old(State()), d)
    {
      var p, n := Prior(d), Next(d);
      wheels[p] := wheels[p].Advance(-1);
      wheels[d] := wheels[d].Advance(0);
      wheels[n] := wheels[n].Advance(1);
    }

    /** Resets every wheel to neutral. */
    method Reset()
      requires Valid()
      modifies wheels
      ensures Valid()
      ensures State() == Initial()
    {
      for i := 0 to wheels.Length
        invariant forall j | 0 <= j < i :: wheels[j] == Neutral()
      {
        wheels[i] := Neutral();
      }
    }
  }
}
