/**
 * What the program does with the gathered results: it lists the map's
 * (state, target) pairs in key order, counts the unique states and the
 * duplicate sequences, orders the list by count, then by the length of
 * each first sequence, then by state (a stable sort by length followed
 * by a stable sort by count), and reports the leading entries that share
 * the smallest count.
 */
module Reporting {
  import opened Locks
  import opened Moves
  import opened Enumeration

  /** One (state, target) pair of the results. */
  datatype Entry = Entry(lock: LockState, target: Target)

  /** Sort key of the second sort: how many sequences reach the state. */
  function Count(e: Entry): nat {
    e.target.count
  }

  /** Sort key of the first sort: the length of the first sequence found. */
  function FirstLength(e: Entry): nat {
    |e.target.first|
  }

  /** The map's key order on entries. */
  predicate ByLock(x: Entry, y: Entry) {
    LockLess(x.lock, y.lock)
  }

  /** Ordered by `key`, ties broken by `before`. */
  predicate KeyThen(key: Entry -> nat, before: (Entry, Entry) -> bool, x: Entry, y: Entry) {
    key(x) < key(y) || (key(x) == key(y) && before(x, y))
  }

  /** The order after the first sort: first length, then key order. */
  predicate ByLength(x: Entry, y: Entry) {
    KeyThen(FirstLength, ByLock, x, y)
  }

  /** Each pair of entries of `s` is in `before` order. */
  predicate Ordered(s: seq<Entry>, before: (Entry, Entry) -> bool) {
    forall p, q | 0 <= p < q < |s| :: before(s[p], s[q])
  }

  /** Each pair of entries of `s` is in `key` order, ties in `before` order. */
  predicate SortedBy(s: seq<Entry>, key: Entry -> nat, before: (Entry, Entry) -> bool) {
    forall p, q | 0 <= p < q < |s| :: KeyThen(key, before, s[p], s[q])
  }

  /** All keys of the map are four-wheel states. */
  predicate FourWheelKeys(all: Results) {
    forall k | k in all :: |k| == WheelCount
  }

  /** `es` lists exactly the (key, value) pairs of `all`. */
  predicate Lists(es: seq<Entry>, all: Results) {
    (forall e | e in es :: e.lock in all && all[e.lock] == e.target) &&
    (forall k | k in all :: Entry(k, all[k]) in es)
  }

  /**
   * The least key of a non-empty set of four-wheel states, found by one
   * pass that keeps the least seen so far.
   */
  method MinKey(keys: set<LockState>) returns (k: LockState)
    requires keys != {} && forall a | a in keys :: |a| == WheelCount
    ensures k in keys && forall b | b in keys && b != k :: LockLess(k, b)
  {
    k :| k in keys;
    var rest := keys - {k};
    while rest != {}
      invariant rest <= keys && k in keys && k !in rest
      invariant forall b | b in keys && b !in rest && b != k :: LockLess(k, b)
      decreases |rest|
    {
      var x :| x in rest;
      if LockLess(x, k) {
        forall b | b in keys && b !in rest && b != k
          ensures LockLess(x, b)
        {
          LockLessTransitive(x, k, b);
        }
        k := x;
      } else {
        LockLessTotal(k, x);
      }
      rest := rest - {x};
    }
  }

  /**
   * The map's pairs in key order, as its in-order traversal yields them:
   * each round takes the least key not yet listed.
   */
  method Collect(all: Results) returns (es: seq<Entry>)
    requires FourWheelKeys(all)
    ensures |es| == |all|
    ensures Ordered(es, ByLock)
    ensures Lists(es, all)
  {
    es := [];
    var rest := all.Keys;
    while rest != {}
      invariant rest <= all.Keys
      invariant |es| + |rest| == |all|
      invariant Ordered(es, ByLock)
      invariant forall e | e in es :: e.lock in all && e.lock !in rest && all[e.lock] == e.target
      invariant forall k | k in all && k !in rest :: Entry(k, all[k]) in es
      invariant forall p, b | 0 <= p < |es| && b in rest :: LockLess(es[p].lock, b)
      decreases |rest|
    {
      var k := MinKey(rest);
      es := es + [Entry(k, all[k])];
      rest := rest - {k};
    }
  }

  /** Number of sequences beyond the first, summed over the entries. */
  function Dups(es: seq<Entry>): nat
    requires forall i | 0 <= i < |es| :: es[i].target.count >= 1
  {
    if es == [] then 0 else (es[0].target.count - 1) + Dups(es[1..])
  }

  /** Total of the entries' counts. */
  function CountSum(es: seq<Entry>): nat {
    if es == [] then 0 else es[0].target.count + CountSum(es[1..])
  }

  /** Unique states plus duplicates is the sum of the counts. */
  lemma {:induction false} DupsAndUniques(es: seq<Entry>)
    requires forall i | 0 <= i < |es| :: es[i].target.count >= 1
    ensures |es| + Dups(es) == CountSum(es)
  {
    if es != [] {
      DupsAndUniques(es[1..]);
    }
  }

  /** Number of entries of `es` whose lock is `k`. */
  function Occurrences(es: seq<Entry>, k: LockState): nat {
    if es == [] then 0 else (if es[0].lock == k then 1 else 0) + Occurrences(es[1..], k)
  }

  /** Total, over the entries, of how many sequences of `ss` reach each entry's lock. */
  function ReachSum(ss: seq<MoveSeq>, reach: MoveSeq -> LockState, es: seq<Entry>): nat {
    if es == [] then 0 else |Reaching(ss, reach, es[0].lock)| + ReachSum(ss, reach, es[1..])
  }

  lemma {:induction false} OccursOnce(es: seq<Entry>, k: LockState)
    requires Ordered(es, ByLock)
    requires exists i | 0 <= i < |es| :: es[i].lock == k
    ensures Occurrences(es, k) == 1
  {
    var i :| 0 <= i < |es| && es[i].lock == k;
    if i == 0 {
      NotAfter(es[1..], k);
    } else {
      assert es[1..][i - 1].lock == k;
      OccursOnce(es[1..], k);
      assert ByLock(es[0], es[i]);
      LockLessIrreflexive(k);
    }
  }

  lemma {:induction false} NotAfter(es: seq<Entry>, k: LockState)
    requires forall i | 0 <= i < |es| :: LockLess(k, es[i].lock)
    ensures Occurrences(es, k) == 0
  {
    if es != [] {
      LockLessIrreflexive(k);
      NotAfter(es[1..], k);
    }
  }

  lemma {:induction false} ReachSumSnoc(ss: seq<MoveSeq>, m: MoveSeq, reach: MoveSeq -> LockState,
                                        es: seq<Entry>)
    ensures ReachSum(ss + [m], reach, es) == ReachSum(ss, reach, es) + Occurrences(es, reach(m))
  {
    if es != [] {
      ReachingSnoc(ss, m, reach, es[0].lock);
      ReachSumSnoc(ss, m, reach, es[1..]);
    }
  }

  /**
   * Every sequence of `ss` is counted exactly once when the entries hold
   * each state `ss` reaches, once each.
   */
  lemma {:induction false} ReachSumAll(ss: seq<MoveSeq>, reach: MoveSeq -> LockState, es: seq<Entry>)
    requires Ordered(es, ByLock)
    requires forall m | m in ss :: exists i | 0 <= i < |es| :: es[i].lock == reach(m)
    ensures ReachSum(ss, reach, es) == |ss|
  {
    if ss == [] {
      ReachSumEmpty(reach, es);
    } else {
      var init, last := ss[..|ss| - 1], ss[|ss| - 1];
      assert ss == init + [last];
      forall m | m in init
        ensures exists i | 0 <= i < |es| :: es[i].lock == reach(m)
      {
        assert m in ss;
      }
      ReachSumAll(init, reach, es);
      ReachSumSnoc(init, last, reach, es);
      OccursOnce(es, reach(last));
    }
  }

  lemma {:induction false} ReachSumEmpty(reach: MoveSeq -> LockState, es: seq<Entry>)
    ensures ReachSum([], reach, es) == 0
  {
    if es != [] {
      ReachSumEmpty(reach, es[1..]);
    }
  }

  /** Each listed count is the number of sequences reaching the entry's lock. */
  lemma {:induction false} CountsAreReaching(ss: seq<MoveSeq>, reach: MoveSeq -> LockState,
                                             es: seq<Entry>)
    requires forall e | e in es :: e.lock in Aggregate(ss, reach) && Aggregate(ss, reach)[e.lock] == e.target
    ensures CountSum(es) == ReachSum(ss, reach, es)
  {
    if es != [] {
      AggregateIsReaching(ss, reach, es[0].lock);
      CountsAreReaching(ss, reach, es[1..]);
    }
  }

  /**
   * Summed over a key-ordered listing of the map, the counts add up to
   * the number of sequences enumerated.
   */
  lemma CountsAddUp(ss: seq<MoveSeq>, reach: MoveSeq -> LockState, es: seq<Entry>)
    requires Ordered(es, ByLock) && Lists(es, Aggregate(ss, reach))
    ensures CountSum(es) == |ss|
  {
    CountsAreReaching(ss, reach, es);
    forall m | m in ss
      ensures exists i | 0 <= i < |es| :: es[i].lock == reach(m)
    {
      Filed(ss, reach, m);
      var e := Entry(reach(m), Aggregate(ss, reach)[reach(m)]);
      assert e in es;
      var i :| 0 <= i < |es| && es[i] == e;
    }
    ReachSumAll(ss, reach, es);
  }

  /** Every entry of a listing of the map has a count of at least one. */
  lemma CountsPositive(ss: seq<MoveSeq>, reach: MoveSeq -> LockState, es: seq<Entry>)
    requires Lists(es, Aggregate(ss, reach))
    ensures forall i | 0 <= i < |es| :: es[i].target.count >= 1
  {
    forall i | 0 <= i < |es|
      ensures es[i].target.count >= 1
    {
      assert es[i] in es;
      EntryConsistent(ss, reach, es[i].lock);
    }
  }

  /** The states the enumeration files its sequences under are four-wheel states. */
  lemma ReplayKeys(ss: seq<MoveSeq>)
    ensures FourWheelKeys(Aggregate(ss, Replay))
  {
    forall k | k in Aggregate(ss, Replay)
      ensures |k| == WheelCount
    {
      var m := KeyReached(ss, Replay, k);
    }
  }

  /** The first `n` entries of `s` are in `key` order, ties in `before` order. */
  predicate SortedUpTo(s: seq<Entry>, n: nat, key: Entry -> nat, before: (Entry, Entry) -> bool) {
    forall p, q | 0 <= p < q < n && q < |s| :: KeyThen(key, before, s[p], s[q])
  }

  /** Every entry from position `n` on is in `before` order after every entry before it. */
  predicate BeforeFrom(s: seq<Entry>, n: nat, before: (Entry, Entry) -> bool) {
    forall p, q | 0 <= p < q < |s| && n <= q :: before(s[p], s[q])
  }

  /**
   * Sorts `a` in place by `key`, keeping entries with equal keys in their
   * previous order (a stable sort). Given that the entries were in
   * `before` order, they end in `key` order with ties in `before` order.
   */
  method StableSort(a: array<Entry>, key: Entry -> nat, ghost before: (Entry, Entry) -> bool)
    requires Ordered(a[..], before)
    modifies a
    ensures SortedBy(a[..], key, before)
    ensures multiset(a[..]) == multiset(old(a[..]))
  {
    for i := 0 to a.Length
      invariant multiset(a[..]) == multiset(old(a[..]))
      invariant SortedUpTo(a[..], i, key, before)
      invariant BeforeFrom(a[..], i, before)
    {
      Insert(a, i, key, before);
    }
  }

  /**
   * The state of one insertion round, entry `i` being at position `j`:
   * the rest of the first i + 1 entries are sorted, the moving entry has
   * a smaller key than every entry it has passed, every entry still
   * ahead of it precedes it in `before` order, and the entries after `i`
   * are untouched and after all the first i + 1 in `before` order.
   */
  ghost predicate Inserting(s: seq<Entry>, s0: seq<Entry>, i: nat, j: nat,
                            key: Entry -> nat, before: (Entry, Entry) -> bool)
  {
    j <= i < |s| == |s0| &&
    multiset(s) == multiset(s0) &&
    s[i + 1..] == s0[i + 1..] &&
    (forall p, q | 0 <= p < q <= i && p != j && q != j :: KeyThen(key, before, s[p], s[q])) &&
    (forall q | j < q <= i :: key(s[j]) < key(s[q])) &&
    (forall p | 0 <= p < j :: before(s[p], s[j])) &&
    BeforeFrom(s, i + 1, before)
  }

  lemma InsertStart(s: seq<Entry>, i: nat, key: Entry -> nat, before: (Entry, Entry) -> bool)
    requires i < |s| && SortedUpTo(s, i, key, before) && BeforeFrom(s, i, before)
    ensures Inserting(s, s, i, i, key, before)
  {
  }

  /** Swapping the moving entry with a predecessor of larger key keeps the round's state. */
  lemma InsertSwap(s: seq<Entry>, s0: seq<Entry>, i: nat, j: nat,
                   key: Entry -> nat, before: (Entry, Entry) -> bool)
    requires Inserting(s, s0, i, j, key, before) && 0 < j && key(s[j - 1]) > key(s[j])
    ensures Inserting(s[j - 1 := s[j]][j := s[j - 1]], s0, i, j - 1, key, before)
  {
    var t := s[j - 1 := s[j]][j := s[j - 1]];
    assert t[i + 1..] == s[i + 1..];
    SwapMultiset(s, j);
    SwapSorted(s, i, j, key, before);
    SwapBeforeFrom(s, i, j, before);
  }

  /** After the swap, the entries other than the moving one are still sorted. */
  lemma SwapSorted(s: seq<Entry>, i: nat, j: nat, key: Entry -> nat, before: (Entry, Entry) -> bool)
    requires 0 < j <= i < |s|
    requires forall p, q | 0 <= p < q <= i && p != j && q != j :: KeyThen(key, before, s[p], s[q])
    ensures var t := s[j - 1 := s[j]][j := s[j - 1]];
      forall p, q | 0 <= p < q <= i && p != j - 1 && q != j - 1 :: KeyThen(key, before, t[p], t[q])
  {
    var t := s[j - 1 := s[j]][j := s[j - 1]];
    forall p, q | 0 <= p < q <= i && p != j - 1 && q != j - 1
      ensures KeyThen(key, before, t[p], t[q])
    {
      var p', q' := if p == j then j - 1 else p, if q == j then j - 1 else q;
      assert t[p] == s[p'] && t[q] == s[q'];
    }
  }

  /** The swap stays within the first i + 1 entries, so those after still follow them all. */
  lemma SwapBeforeFrom(s: seq<Entry>, i: nat, j: nat, before: (Entry, Entry) -> bool)
    requires 0 < j <= i < |s| && BeforeFrom(s, i + 1, before)
    ensures BeforeFrom(s[j - 1 := s[j]][j := s[j - 1]], i + 1, before)
  {
    var t := s[j - 1 := s[j]][j := s[j - 1]];
    forall p, q | 0 <= p < q < |t| && i + 1 <= q
      ensures before(t[p], t[q])
    {
      var p' := if p == j then j - 1 else if p == j - 1 then j else p;
      assert t[p] == s[p'] && t[q] == s[q];
    }
  }

  /** Swapping two neighbours keeps the same entries. */
  lemma SwapMultiset(s: seq<Entry>, j: nat)
    requires 0 < j < |s|
    ensures multiset(s[j - 1 := s[j]][j := s[j - 1]]) == multiset(s)
  {
    var t := s[j - 1 := s[j]][j := s[j - 1]];
    assert t == s[..j - 1] + [s[j], s[j - 1]] + s[j + 1..];
    assert s == s[..j - 1] + [s[j - 1], s[j]] + s[j + 1..];
  }

  /** When the moving entry stops, the first i + 1 entries are sorted. */
  lemma InsertStop(s: seq<Entry>, s0: seq<Entry>, i: nat, j: nat,
                   key: Entry -> nat, before: (Entry, Entry) -> bool)
    requires Inserting(s, s0, i, j, key, before) && (j == 0 || key(s[j - 1]) <= key(s[j]))
    ensures SortedUpTo(s, i + 1, key, before)
  {
    forall p, q | 0 <= p < q < i + 1
      ensures KeyThen(key, before, s[p], s[q])
    {
      if q == j && p < j - 1 {
        assert KeyThen(key, before, s[p], s[j - 1]);
      }
    }
  }

  /**
   * One round of the sort: moves `a[i]` left past every entry of the
   * sorted prefix with a larger key, and no further.
   */
  method Insert(a: array<Entry>, i: nat, key: Entry -> nat, ghost before: (Entry, Entry) -> bool)
    requires i < a.Length
    requires SortedUpTo(a[..], i, key, before) && BeforeFrom(a[..], i, before)
    modifies a
    ensures multiset(a[..]) == multiset(old(a[..]))
    ensures a[i + 1..] == old(a[i + 1..])
    ensures SortedUpTo(a[..], i + 1, key, before) && BeforeFrom(a[..], i + 1, before)
  {
    var j: nat := i;
    InsertStart(a[..], i, key, before);
    while j > 0 && key(a[j - 1]) > key(a[j])
      invariant Inserting(a[..], old(a[..]), i, j, key, before)
    {
      ghost var s := a[..];
      InsertSwap(s, old(a[..]), i, j, key, before);
      a[j - 1], a[j] := a[j], a[j - 1];
      assert a[..] == s[j - 1 := s[j]][j := s[j - 1]];
      j := j - 1;
    }
    InsertStop(a[..], old(a[..]), i, j, key, before);
  }

  /**
   * The best entries: walking the sorted list from the front, every entry
   * with the first entry's count until one differs, or only the first
   * entry unless all bests are wanted.
   */
  method SelectBests(moves: seq<Entry>, showBests: bool) returns (bests: seq<Entry>)
    requires |moves| > 0
    ensures 1 <= |bests| <= |moves| && bests == moves[..|bests|]
    ensures forall i | 0 <= i < |bests| :: bests[i].target.count == moves[0].target.count
    ensures !showBests ==> |bests| == 1
    ensures showBests ==> |bests| == |moves| || moves[|bests|].target.count != moves[0].target.count
  {
    var bestCount := moves[0].target.count;
    bests := [];
    for i := 0 to |moves|
      invariant bests == moves[..i]
      invariant forall p | 0 <= p < i :: moves[p].target.count == bestCount
      invariant !showBests ==> i == 0
    {
      if moves[i].target.count != bestCount {
        break;
      }
      bests := bests + [moves[i]];
      if !showBests {
        break;
      }
    }
  }

  /**
   * On a list sorted by count, the bests have the smallest count, and
   * when all bests are wanted they are every entry with that count.
   */
  lemma BestsAreLeast(moves: seq<Entry>, bests: seq<Entry>, showBests: bool, before: (Entry, Entry) -> bool)
    requires SortedBy(moves, Count, before)
    requires 1 <= |bests| <= |moves| && bests == moves[..|bests|]
    requires forall i | 0 <= i < |bests| :: bests[i].target.count == moves[0].target.count
    requires showBests ==> |bests| == |moves| || moves[|bests|].target.count != moves[0].target.count
    ensures forall e | e in moves :: bests[0].target.count <= e.target.count
    ensures showBests ==> forall e | e in moves && e.target.count == bests[0].target.count :: e in bests
  {
    forall e | e in moves
      ensures bests[0].target.count <= e.target.count
    {
      var q :| 0 <= q < |moves| && moves[q] == e;
      if q > 0 {
        assert KeyThen(Count, before, moves[0], moves[q]);
      }
    }
    if showBests {
      forall e | e in moves && e.target.count == bests[0].target.count
        ensures e in bests
      {
        var q :| 0 <= q < |moves| && moves[q] == e;
        assert q < |bests|;
        assert moves[q] == bests[q];
      }
    }
  }

  /**
   * The program's two sorts: by the length of each first sequence, then
   * by count, both stable, starting from the map's key order.
   */
  method Rank(entries: seq<Entry>) returns (moves: seq<Entry>)
    requires Ordered(entries, ByLock)
    ensures multiset(moves) == multiset(entries)
    ensures SortedBy(moves, Count, ByLength)
  {
    var arr := new Entry[|entries|](i requires 0 <= i < |entries| => entries[i]);
    assert arr[..] == entries;
    StableSort(arr, FirstLength, ByLock);
    StableSort(arr, Count, ByLength);
    moves := arr[..];
  }

  /** Reordering a listing of the map is still a listing of it. */
  lemma ListsPermuted(es: seq<Entry>, es': seq<Entry>, all: Results)
    requires Lists(es, all) && multiset(es') == multiset(es)
    ensures Lists(es', all)
  {
    forall e ensures e in es' <==> e in es {
      assert e in es' <==> e in multiset(es');
      assert e in es <==> e in multiset(es);
    }
  }

  /**
   * The counting part of the report for the results `all` of visiting
   * `ss`: the unique states are the map's size, and unique states plus
   * duplicate sequences add up to every sequence visited.
   */
  method Tally(all: Results, ghost ss: seq<MoveSeq>, ghost reach: MoveSeq -> LockState)
    returns (uniques: nat, dups: nat, entries: seq<Entry>)
    requires all == Aggregate(ss, reach) && FourWheelKeys(all)
    ensures uniques == |all| && uniques + dups == |ss|
    ensures |entries| == |all| && Ordered(entries, ByLock) && Lists(entries, all)
  {
    entries := Collect(all);
    CountsPositive(ss, reach, entries);
    CountsAddUp(ss, reach, entries);
    DupsAndUniques(entries);
    uniques := |all|;
    dups := Dups(entries);
  }

  /** The report's order is a strict order: no entry precedes itself. */
  lemma ByCountIrreflexive(x: Entry)
    ensures !KeyThen(Count, ByLength, x, x)
  {
    LockLessIrreflexive(x.lock);
  }

  /** The report's order is asymmetric. */
  lemma ByCountAsymmetric(x: Entry, y: Entry)
    requires KeyThen(Count, ByLength, x, y)
    ensures !KeyThen(Count, ByLength, y, x)
  {
    if KeyThen(Count, ByLength, y, x) {
      LockLessTransitive(x.lock, y.lock, x.lock);
      LockLessIrreflexive(x.lock);
    }
  }

  /**
   * A list sorted by the report's order is determined by the entries it
   * holds: two such lists with the same entries are equal.
   */
  lemma {:induction false} SortedUnique(a: seq<Entry>, b: seq<Entry>)
    requires SortedBy(a, Count, ByLength) && SortedBy(b, Count, ByLength)
    requires forall e :: e in a <==> e in b
    ensures a == b
  {
    assert b != [] ==> b[0] in b;
    if a != [] {
      assert a[0] in b && b != [];
      assert b[0] in a;
      var i :| 0 <= i < |a| && a[i] == b[0];
      var j :| 0 <= j < |b| && b[j] == a[0];
      if i > 0 && j > 0 {
        ByCountAsymmetric(a[0], a[i]);
      } else if i > 0 {
        ByCountIrreflexive(a[0]);
      } else if j > 0 {
        ByCountIrreflexive(b[0]);
      }
      forall e ensures e in a[1..] <==> e in b[1..] {
        if e in a[1..] {
          var p :| 1 <= p < |a| && a[p] == e;
          ByCountIrreflexive(e);
          assert e != a[0];
          assert e in b;
        }
        if e in b[1..] {
          var q :| 1 <= q < |b| && b[q] == e;
          ByCountIrreflexive(e);
          assert e != b[0];
          assert e in a;
        }
      }
      SortedUnique(a[1..], b[1..]);
      assert a == [a[0]] + a[1..] && b == [b[0]] + b[1..];
    }
  }

  /**
   * The sorted report is a function of the results alone: any two
   * listings of the map in the report's order are the same list, so
   * nothing observable depends on the order the map was traversed in.
   */
  lemma ReportDeterministic(a: seq<Entry>, b: seq<Entry>, all: Results)
    requires Lists(a, all) && Lists(b, all)
    requires SortedBy(a, Count, ByLength) && SortedBy(b, Count, ByLength)
    ensures a == b
  {
    forall e ensures e in a <==> e in b {
      if e in a {
        assert e == Entry(e.lock, all[e.lock]);
      }
      if e in b {
        assert e == Entry(e.lock, all[e.lock]);
      }
    }
    SortedUnique(a, b);
  }

  /**
   * Everything the program reports after enumerating sequences of up to
   * `max` moves: the number of unique states, the number of duplicate
   * sequences, the sorted list of entries and the best entries.
   */
  method Run(max: nat, showBests: bool)
    returns (uniques: nat, dups: nat, moves: seq<Entry>, bests: seq<Entry>)
    requires 1 <= max <= 31
    ensures uniques == |Aggregate(Sequences(max), Replay)|
    ensures uniques + dups == TotalSequences(max)
    ensures |moves| == uniques && Lists(moves, Aggregate(Sequences(max), Replay))
    ensures SortedBy(moves, Count, ByLength)
    ensures 1 <= |bests| <= |moves| && bests == moves[..|bests|]
    ensures forall e | e in moves :: bests[0].target.count <= e.target.count
    ensures forall e | e in bests :: e.target.count == bests[0].target.count
    ensures !showBests ==> |bests| == 1
    ensures showBests ==> forall e | e in moves && e.target.count == bests[0].target.count :: e in bests
  {
    var all := Enumerate(max);
    ReplayKeys(Sequences(max));
    SequencesShape(max);
    var entries;
    uniques, dups, entries := Tally(all, Sequences(max), Replay);
    moves := Rank(entries);
    ListsPermuted(entries, moves, all);
    assert |moves| == |multiset(moves)| == |multiset(entries)| == |entries|;
    bests := SelectBests(moves, showBests);
    BestsAreLeast(moves, bests, showBests, ByLength);
  }
}
