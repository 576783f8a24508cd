/**
 * The exhaustive enumeration: every move sequence of length 1 .. max is
 * replayed on a fresh lock, and the results are gathered per final lock
 * state: how many sequences reach it, the first one enumerated, and all
 * of them in enumeration order.
 *
 * The gathering is stated for any function `reach` from a sequence to
 * the state it ends in; the program uses `Replay`. Keeping the lemmas
 * generic keeps the slide arithmetic out of them.
 */
module Enumeration {
  import opened Locks
  import opened Moves

  /** How a lock state was reached. */
  datatype Target = Target(count: nat, first: MoveSeq, all: seq<MoveSeq>)

  /** The aggregation map, keyed by final lock state. */
  type Results = map<LockState, Target>

  /**
   * Records one sequence against the state it reaches: a new entry starts
   * from count 0 with this sequence as its first, then the sequence is
   * appended and the count incremented.
   */
  function Record(m: Results, key: LockState, moves: MoveSeq): Results
  {
    var t := if key in m then m[key] else Target(0, moves, []);
    m[key := Target(t.count + 1, t.first, t.all + [moves])]
  }

  /** The map built by recording `ss` in order into an empty map. */
  function Aggregate(ss: seq<MoveSeq>, reach: MoveSeq -> LockState): Results
  {
    if ss == [] then map[]
    else
      var last := ss[|ss| - 1];
      Record(Aggregate(ss[..|ss| - 1], reach), reach(last), last)
  }

  lemma AggregateSnoc(ss: seq<MoveSeq>, m: MoveSeq, reach: MoveSeq -> LockState)
    ensures Aggregate(ss + [m], reach) == Record(Aggregate(ss, reach), reach(m), m)
  {
    assert (ss + [m])[..|ss|] == ss;
  }

  /** Recording one more sequence, with its entry so far spelled out. */
  lemma RecordStep(ss: seq<MoveSeq>, m: MoveSeq, reach: MoveSeq -> LockState,
                   all: Results, key: LockState, t: Target)
    requires all == Aggregate(ss, reach) && key == reach(m)
    requires t == if key in all then all[key] else Target(0, m, [])
    ensures Aggregate(ss + [m], reach) == all[key := Target(t.count + 1, t.first, t.all + [m])]
  {
    AggregateSnoc(ss, m, reach);
  }

  /** The sequences of `ss` that reach `key`, in their order in `ss`. */
  function Reaching(ss: seq<MoveSeq>, reach: MoveSeq -> LockState, key: LockState): seq<MoveSeq>
  {
    if ss == [] then []
    else
      var last := ss[|ss| - 1];
      Reaching(ss[..|ss| - 1], reach, key) + (if reach(last) == key then [last] else [])
  }

  lemma ReachingSnoc(ss: seq<MoveSeq>, m: MoveSeq, reach: MoveSeq -> LockState, key: LockState)
    ensures Reaching(ss + [m], reach, key) ==
            Reaching(ss, reach, key) + (if reach(m) == key then [m] else [])
  {
    assert (ss + [m])[..|ss|] == ss;
  }

  /** Reaching picks out exactly the members of `ss` that reach `key`. */
  lemma {:induction false} ReachingMembers(ss: seq<MoveSeq>, reach: MoveSeq -> LockState,
                                           key: LockState, m: MoveSeq)
    ensures m in Reaching(ss, reach, key) <==> m in ss && reach(m) == key
  {
    if ss != [] {
      var init, last := ss[..|ss| - 1], ss[|ss| - 1];
      ReachingMembers(init, reach, key, m);
      assert ss == init + [last];
    }
  }

  /**
   * What the aggregation records: a state is a key exactly when some
   * sequence reaches it, and its entry holds all the sequences reaching
   * it in enumeration order, their number, and the first of them.
   */
  lemma {:induction false} AggregateIsReaching(ss: seq<MoveSeq>, reach: MoveSeq -> LockState,
                                               key: LockState)
    ensures key in Aggregate(ss, reach) <==> Reaching(ss, reach, key) != []
    ensures key in Aggregate(ss, reach) ==>
              var r := Reaching(ss, reach, key);
              Aggregate(ss, reach)[key] == Target(|r|, r[0], r)
  {
    if ss != [] {
      var init := ss[..|ss| - 1];
      AggregateIsReaching(init, reach, key);
    }
  }

  /**
   * Every entry is consistent: the count is the number of listed
   * sequences, at least one; the first is the first listed; and each
   * listed sequence was enumerated and reaches the key.
   */
  lemma EntryConsistent(ss: seq<MoveSeq>, reach: MoveSeq -> LockState, key: LockState)
    requires key in Aggregate(ss, reach)
    ensures var t := Aggregate(ss, reach)[key];
            t.count == |t.all| >= 1 && t.first == t.all[0] &&
            forall m | m in t.all :: m in ss && reach(m) == key
  {
    AggregateIsReaching(ss, reach, key);
    forall m | m in Aggregate(ss, reach)[key].all ensures m in ss && reach(m) == key {
      ReachingMembers(ss, reach, key, m);
    }
  }

  /** Every enumerated sequence is filed under the state it reaches. */
  lemma Filed(ss: seq<MoveSeq>, reach: MoveSeq -> LockState, m: MoveSeq)
    requires m in ss
    ensures reach(m) in Aggregate(ss, reach) && m in Aggregate(ss, reach)[reach(m)].all
  {
    ReachingMembers(ss, reach, reach(m), m);
    AggregateIsReaching(ss, reach, reach(m));
  }

  /** A key of the map is reached by some enumerated sequence. */
  lemma KeyReached(ss: seq<MoveSeq>, reach: MoveSeq -> LockState, key: LockState) returns (m: MoveSeq)
    requires key in Aggregate(ss, reach)
    ensures m in ss && reach(m) == key
  {
    AggregateIsReaching(ss, reach, key);
    m := Reaching(ss, reach, key)[0];
    ReachingMembers(ss, reach, key, m);
  }

  /** The first sequence reaching a state sits no later in `ss` than any other reaching it. */
  lemma {:induction false} FirstIsEarliest(ss: seq<MoveSeq>, reach: MoveSeq -> LockState,
                                           key: LockState, j: nat) returns (i: nat)
    requires j < |ss| && reach(ss[j]) == key
    ensures Reaching(ss, reach, key) != []
    ensures i <= j && ss[i] == Reaching(ss, reach, key)[0]
  {
    var init, last := ss[..|ss| - 1], ss[|ss| - 1];
    assert ss == init + [last];
    ReachingSnoc(init, last, reach, key);
    if j < |init| {
      i := FirstIsEarliest(init, reach, key, j);
    } else if Reaching(init, reach, key) != [] {
      i := FirstIndex(init, reach, key);
    } else {
      i := j;
    }
  }

  /** The first sequence reaching a state has a position in `ss`. */
  lemma {:induction false} FirstIndex(ss: seq<MoveSeq>, reach: MoveSeq -> LockState,
                                      key: LockState) returns (i: nat)
    requires Reaching(ss, reach, key) != []
    ensures i < |ss| && ss[i] == Reaching(ss, reach, key)[0]
  {
    var init, last := ss[..|ss| - 1], ss[|ss| - 1];
    assert ss == init + [last];
    ReachingSnoc(init, last, reach, key);
    if Reaching(init, reach, key) != [] {
      i := FirstIndex(init, reach, key);
    } else {
      i := |ss| - 1;
    }
  }

  /** The recorded first sequence of a state sits no later in `ss` than any other reaching it. */
  lemma FirstRecorded(ss: seq<MoveSeq>, reach: MoveSeq -> LockState,
                      key: LockState, j: nat) returns (i: nat)
    requires j < |ss| && reach(ss[j]) == key
    ensures key in Aggregate(ss, reach)
    ensures i <= j && Aggregate(ss, reach)[key].first == ss[i]
  {
    i := FirstIsEarliest(ss, reach, key, j);
    AggregateIsReaching(ss, reach, key);
  }

  /**
   * Over the whole enumeration, the recorded first sequence of a state is
   * a shortest sequence reaching it, and among those of that length the
   * one with the smallest number.
   */
  lemma FirstIsShortest(max: nat, reach: MoveSeq -> LockState, key: LockState, m: MoveSeq)
    requires 1 <= |m| <= max && reach(m) == key
    ensures key in Aggregate(Sequences(max), reach)
    ensures var first := Aggregate(Sequences(max), reach)[key].first;
            |first| < |m| || (|first| == |m| && Encode(first) <= Encode(m))
  {
    var ss := Sequences(max);
    var j := SequenceIndex(max, m);
    var i := FirstRecorded(ss, reach, key, j);
    assert |ss[i]| < |m| || (|ss[i]| == |m| && Encode(ss[i]) <= Encode(m)) by {
      if i < j {
        SequencesOrder(max, i, j);
      }
    }
  }

  /**
   * The keys of the results are exactly the states some sequence of
   * 1 .. max moves reaches.
   */
  lemma ResultsAreReachable(max: nat, reach: MoveSeq -> LockState, key: LockState)
    ensures key in Aggregate(Sequences(max), reach) <==>
            exists m: MoveSeq | 1 <= |m| <= max :: reach(m) == key
  {
    var ss := Sequences(max);
    if key in Aggregate(ss, reach) {
      var m := KeyReached(ss, reach, key);
      SequencesComplete(max, m);
    }
    if m: MoveSeq :| 1 <= |m| <= max && reach(m) == key {
      SequencesComplete(max, m);
      Filed(ss, reach, m);
    }
  }

  /** The sequences visited before number `binary` of length `moves + 1`. */
  function VisitedBefore(moves: nat, binary: nat): seq<MoveSeq>
  {
    Sequences(moves) + Batch(moves + 1, binary)
  }

  lemma VisitedStart(moves: nat)
    ensures VisitedBefore(moves, 0) == Sequences(moves)
  {
    assert Sequences(moves) + [] == Sequences(moves);
  }

  lemma VisitedNext(moves: nat, binary: nat)
    ensures VisitedBefore(moves, binary + 1) ==
            VisitedBefore(moves, binary) + [Decode(binary, moves + 1)]
  {
    var prev, batch := Sequences(moves), Batch(moves + 1, binary);
    assert prev + (batch + [Decode(binary, moves + 1)]) == (prev + batch) + [Decode(binary, moves + 1)];
  }

  /** One step of the enumeration records sequence number `binary` of length `moves + 1`. */
  lemma VisitStep(all: Results, moves: nat, binary: nat, reach: MoveSeq -> LockState,
                  moveSeq: MoveSeq, key: LockState, t: Target)
    requires all == Aggregate(VisitedBefore(moves, binary), reach)
    requires moveSeq == Decode(binary, moves + 1) && key == reach(moveSeq)
    requires t == if key in all then all[key] else Target(0, moveSeq, [])
    ensures Aggregate(VisitedBefore(moves, binary + 1), reach) ==
            all[key := Target(t.count + 1, t.first, t.all + [moveSeq])]
  {
    VisitedNext(moves, binary);
    RecordStep(VisitedBefore(moves, binary), moveSeq, reach, all, key, t);
  }

  /**
   * Replays sequence number `binary` of length `n` on a fresh lock,
   * taking its base-4 digits least significant first.
   */
  method ReplayNumber(binary: nat, n: nat) returns (moveSeq: MoveSeq, key: LockState)
    ensures moveSeq == Decode(binary, n) && key == Replay(moveSeq)
  {
    var lock := new Lock();
    var tmp := binary;
    moveSeq := [];
    for k := 0 to n
      invariant lock.Valid()
      invariant moveSeq == Decode(binary, k) && tmp == binary / Pow4(k)
      invariant lock.State() == Replay(moveSeq)
    {
      var d := tmp % 4;
      lock.Slide(d);
      ReplaySnoc(moveSeq, d);
      DecodeSnoc(binary, k);
      moveSeq := moveSeq + [d];
      tmp := tmp / 4;
    }
    key := lock.State();
  }

  /**
   * Replays sequence number `binary` of length `moves + 1` and records it:
   * a new state gets an entry with this sequence as its first, then the
   * entry's count is incremented and the sequence appended.
   */
  method Visit(all0: Results, moves: nat, binary: nat) returns (all: Results)
    requires all0 == Aggregate(VisitedBefore(moves, binary), Replay)
    ensures all == Aggregate(VisitedBefore(moves, binary + 1), Replay)
  {
    var moveSeq, key := ReplayNumber(binary, moves + 1);
    var t := if key in all0 then all0[key] else Target(0, moveSeq, []);
    VisitStep(all0, moves, binary, Replay, moveSeq, key, t);
    all := all0[key := Target(t.count + 1, t.first, t.all + [moveSeq])];
  }

  /**
   * Visits all 4^(moves+1) sequences of length `moves + 1` in increasing
   * order of their number, recording each into `all`.
   */
  method EnumerateLength(all0: Results, moves: nat) returns (all: Results)
    requires moves < 31
    requires all0 == Aggregate(Sequences(moves), Replay)
    ensures all == Aggregate(Sequences(moves + 1), Replay)
  {
    var limit := Pow4(moves + 1);
    all := all0;
    VisitedStart(moves);
    for binary := 0 to limit
      invariant all == Aggregate(VisitedBefore(moves, binary), Replay)
    {
      all := Visit(all, moves, binary);
    }
  }

  /**
   * Enumerates every move sequence of length 1 .. max, replays each on a
   * fresh lock and gathers the results per final lock state. `max` is
   * at most 31 because the loop bound 4^n is computed as a 64-bit shift.
   */
  method Enumerate(max: nat) returns (all: Results)
    requires max <= 31
    ensures all == Aggregate(Sequences(max), Replay)
  {
    all := map[];
    for moves := 0 to max
      invariant all == Aggregate(Sequences(moves), Replay)
    {
      all := EnumerateLength(all, moves);
    }
  }
}
