/**
 * Move sequences and the order in which they are enumerated.
 *
 * A sequence of n moves is numbered by an integer `binary` in
 * 0 .. 4^n - 1: move i is base-4 digit i of `binary`, least significant
 * first, i.e. `(binary >> 2i) & 3`. Lengths 1 .. max are visited in
 * increasing order, and within a length `binary` counts up.
 */
module Moves {
  import opened Locks

  /** The directions taken to reach a lock state, in order. */
  type MoveSeq = seq<Dir>

  function Pow4(n: nat): (r: nat)
    ensures r >= 1
  {
    if n == 0 then 1 else 4 * Pow4(n - 1)
  }

  /** The length-n move sequence numbered `binary`: its base-4 digits, least significant first. */
  function Decode(binary: nat, n: nat): (m: MoveSeq)
    ensures |m| == n
  {
    if n == 0 then [] else [binary % 4] + Decode(binary / 4, n - 1)
  }

  /** The number of a move sequence: its moves read as base-4 digits, first move least significant. */
  function Encode(m: MoveSeq): (binary: nat)
    ensures binary < Pow4(|m|)
  {
    if m == [] then 0 else m[0] + 4 * Encode(m[1..])
  }

  /** Move i of the sequence numbered `binary` is `(binary >> 2i) & 3`. */
  lemma {:induction false} DecodeDigit(binary: nat, n: nat, i: nat)
    requires i < n
    ensures Decode(binary, n)[i] == (binary / Pow4(i)) % 4
  {
    if i > 0 {
      DecodeDigit(binary / 4, n - 1, i - 1);
      DivDiv(binary, Pow4(i - 1));
    }
  }

  /**
   * Decoding one more digit: after k moves, `binary >> 2k` is
   * `binary / 4^k`, and its low two bits are the next move.
   */
  lemma {:induction false} DecodeSnoc(binary: nat, k: nat)
    ensures Decode(binary, k + 1) == Decode(binary, k) + [(binary / Pow4(k)) % 4]
    ensures binary / Pow4(k) / 4 == binary / Pow4(k + 1)
  {
    DivDiv(binary, Pow4(k));
    if k > 0 {
      DecodeSnoc(binary / 4, k - 1);
      DivDiv(binary, Pow4(k - 1));
    }
  }

  lemma DivDiv(b: nat, p: nat)
    requires p >= 1
    ensures b / 4 / p == b / (4 * p)
  {
    var q, r := b / 4, b % 4;
    var q2, r2 := q / p, q % p;
    assert b == (4 * p) * q2 + (4 * r2 + r) by {
      assert q == p * q2 + r2;
    }
    DivUnique(b, 4 * p, q2, 4 * r2 + r);
  }

  /** The quotient is the only q with b == d * q + r and 0 <= r < d. */
  lemma DivUnique(b: nat, d: nat, q: int, r: int)
    requires d > 0 && 0 <= r < d && b == d * q + r
    ensures b / d == q
  {
    var q', r' := b / d, b % d;
    assert d * q - d * q' == d * (q - q');
    if q > q' {
      MulAtLeast(d, q - q');
    } else if q < q' {
      MulAtLeast(d, q' - q);
    }
  }

  lemma {:induction false} MulAtLeast(d: nat, x: nat)
    requires x >= 1
    ensures d * x >= d
  {
    if x > 1 {
      MulAtLeast(d, x - 1);
      assert d * x == d * (x - 1) + d;
    }
  }

  /** Every move sequence is enumerated under its own number. */
  lemma {:induction false} DecodeEncode(m: MoveSeq)
    ensures Decode(Encode(m), |m|) == m
  {
    if m != [] {
      DecodeEncode(m[1..]);
      assert Encode(m) % 4 == m[0];
      assert Encode(m) / 4 == Encode(m[1..]);
    }
  }

  /** Distinct numbers below 4^n give distinct move sequences of length n. */
  lemma {:induction false} EncodeDecode(binary: nat, n: nat)
    requires binary < Pow4(n)
    ensures Encode(Decode(binary, n)) == binary
  {
    if n > 0 {
      EncodeDecode(binary / 4, n - 1);
      assert Decode(binary, n)[1..] == Decode(binary / 4, n - 1);
    }
  }

  /**
   * The loop bound 4^n is computed as the 64-bit shift `1 << 2n`, which
   * fits in an unsigned 64-bit integer exactly when n <= 31.
   */
  lemma {:induction false} Pow4Fits(n: nat)
    requires n <= 31
    ensures Pow4(n) <= 0x4000_0000_0000_0000 < 0x1_0000_0000_0000_0000
  {
    Pow4Monotone(n, 31);
    assert Pow4(4) == 0x100;
    Pow4Add(4, 4);
    assert Pow4(8) == 0x1_0000;
    Pow4Add(8, 8);
    assert Pow4(16) == 0x1_0000_0000;
    Pow4Add(16, 15);
    Pow4Add(1, 15);
    assert Pow4(15) == 0x4000_0000;
  }

  lemma {:induction false} Pow4Monotone(a: nat, b: nat)
    requires a <= b
    ensures Pow4(a) <= Pow4(b)
    decreases b
  {
    if a < b {
      Pow4Monotone(a, b - 1);
    }
  }

  lemma {:induction false} Pow4Add(a: nat, b: nat)
    ensures Pow4(a + b) == Pow4(a) * Pow4(b)
  {
    if a > 0 {
      Pow4Add(a - 1, b);
      assert Pow4(a + b) == 4 * Pow4(a - 1 + b);
    }
  }

  /** The first `count` move sequences of length n, in increasing order of their number. */
  function Batch(n: nat, count: nat): (ms: seq<MoveSeq>)
    ensures |ms| == count
  {
    if count == 0 then [] else Batch(n, count - 1) + [Decode(count - 1, n)]
  }

  /** Entry b of a batch is the sequence numbered b. */
  lemma {:induction false} BatchAt(n: nat, count: nat, b: nat)
    requires b < count
    ensures Batch(n, count)[b] == Decode(b, n)
  {
    if b < count - 1 {
      BatchAt(n, count - 1, b);
    }
  }

  /** Every sequence with a length in 1 .. max, in the order they are visited. */
  function Sequences(max: nat): (ms: seq<MoveSeq>)
  {
    if max == 0 then [] else Sequences(max - 1) + Batch(max, Pow4(max))
  }

  /** Number of sequences visited for a given maximum length: 4 + 4^2 + ... + 4^max. */
  function TotalSequences(max: nat): (total: nat)
  {
    if max == 0 then 0 else TotalSequences(max - 1) + Pow4(max)
  }

  /** The geometric sum in closed form: 3 * (4 + ... + 4^max) == 4^(max+1) - 4. */
  lemma {:induction false} TotalClosedForm(max: nat)
    ensures 3 * TotalSequences(max) == Pow4(max + 1) - 4
  {
    if max > 0 {
      TotalClosedForm(max - 1);
    }
  }

  /** How many sequences are visited, and that each has a length in 1 .. max. */
  lemma {:induction false} SequencesShape(max: nat)
    ensures |Sequences(max)| == TotalSequences(max)
    ensures forall i | 0 <= i < |Sequences(max)| :: 1 <= |Sequences(max)[i]| <= max
  {
    if max > 0 {
      SequencesShape(max - 1);
      var prev, batch := Sequences(max - 1), Batch(max, Pow4(max));
      forall i | |prev| <= i < |Sequences(max)|
        ensures 1 <= |Sequences(max)[i]| <= max
      {
        BatchAt(max, Pow4(max), i - |prev|);
      }
    }
  }

  /**
   * The visiting order: shorter sequences first, and among sequences of
   * the same length, increasing number.
   */
  lemma {:induction false} SequencesOrder(max: nat, i: nat, j: nat)
    requires i < j < |Sequences(max)|
    ensures |Sequences(max)[i]| <= |Sequences(max)[j]|
    ensures |Sequences(max)[i]| == |Sequences(max)[j]| ==>
              Encode(Sequences(max)[i]) < Encode(Sequences(max)[j])
  {
    var prev := Sequences(max - 1);
    SequencesShape(max - 1);
    if j < |prev| {
      SequencesOrder(max - 1, i, j);
    } else {
      BatchAt(max, Pow4(max), j - |prev|);
      if i >= |prev| {
        BatchAt(max, Pow4(max), i - |prev|);
        EncodeDecode(i - |prev|, max);
        EncodeDecode(j - |prev|, max);
      }
    }
  }

  /**
   * Where a sequence is visited: after all the shorter ones, at its own
   * number among those of its length.
   */
  lemma {:induction false} SequencePosition(max: nat, m: MoveSeq)
    requires 1 <= |m| <= max
    ensures TotalSequences(|m| - 1) + Encode(m) < |Sequences(max)|
    ensures Sequences(max)[TotalSequences(|m| - 1) + Encode(m)] == m
  {
    SequencesShape(max - 1);
    if |m| == max {
      DecodeEncode(m);
      BatchAt(max, Pow4(max), Encode(m));
    } else {
      SequencePosition(max - 1, m);
    }
  }

  /** Some index of the visiting order holds a given sequence of length 1 .. max. */
  lemma SequenceIndex(max: nat, m: MoveSeq) returns (j: nat)
    requires 1 <= |m| <= max
    ensures j < |Sequences(max)| && Sequences(max)[j] == m
  {
    SequencePosition(max, m);
    j := TotalSequences(|m| - 1) + Encode(m);
  }

  /** Exactly the sequences of length 1 .. max are visited. */
  lemma SequencesComplete(max: nat, m: MoveSeq)
    ensures m in Sequences(max) <==> 1 <= |m| <= max
  {
    SequencesShape(max);
    if 1 <= |m| <= max {
      var j := SequenceIndex(max, m);
    }
  }

  /** No sequence is visited twice. */
  lemma SequencesDistinct(max: nat, i: nat, j: nat)
    requires i < j < |Sequences(max)|
    ensures Sequences(max)[i] != Sequences(max)[j]
  {
    SequencesOrder(max, i, j);
  }

  /** The letter printed for a move: U, R, D, L. */
  function Letter(d: Dir): (c: char)
    ensures c in "URDL" && "URDL"[d] == c
  {
    match d
    case 0 => 'U'
    case 1 => 'R'
    case 2 => 'D'
    case 3 => 'L'
  }

  /** A move sequence as printed, one letter per move. */
  function Render(m: MoveSeq): (s: string)
    ensures |s| == |m|
    ensures forall i | 0 <= i < |m| :: s[i] == Letter(m[i])
  {
    if m == [] then "" else [Letter(m[0])] + Render(m[1..])
  }

  /** Different move sequences print differently. */
  lemma RenderInjective(a: MoveSeq, b: MoveSeq)
    requires Render(a) == Render(b)
    ensures a == b
  {
    assert |a| == |b|;
    forall i | 0 <= i < |a| ensures a[i] == b[i] {
      assert Letter(a[i]) == Letter(b[i]);
    }
  }
}
