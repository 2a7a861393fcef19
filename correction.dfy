/**
 * The one-shot path's offset correction. After the SGR sequences are erased, a
 * region endpoint `p` found in the text with the sequences is moved back by the
 * total length of the sequences that end at or before `p`. The totals are kept in
 * a checkpoint table (`points`: the end of each erased sequence; `offsets`: the
 * running total of their lengths, both starting at 0) searched with `bisect`.
 */
module Correction {
  import opened Scanner
  import opened Splicing

  /** Total length of the first `k` spans grows by the length of span `k`. */
  lemma {:induction false} CoveredPrefix(codes: seq<Span>, k: nat)
    requires k < |codes|
    ensures Covered(codes[..k + 1]) == Covered(codes[..k]) + (codes[k].1 - codes[k].0)
    decreases k
  {
    if k > 0 {
      CoveredPrefix(codes[1..], k - 1);
      assert codes[..k + 1][1..] == codes[1..][..k];
      assert codes[..k][1..] == codes[1..][..k - 1];
    }
  }

  /** `points`/`offsets` as the loop at the end of the one-shot path leaves them. */
  ghost predicate IsTable(codes: seq<Span>, points: seq<int>, offsets: seq<int>) {
    && |points| == |codes| + 1 && |offsets| == |codes| + 1
    && points[0] == 0
    && (forall k :: 0 <= k < |codes| ==> points[k + 1] == codes[k].1)
    && (forall k :: 0 <= k <= |codes| ==> offsets[k] == Covered(codes[..k]))
  }

  /**
   * `correction_tables = {'points': [0], 'offsets': [0]}`, then for every erased
   * sequence its end and the running total of the erased lengths.
   */
  method BuildCorrectionTable(codes: seq<Span>) returns (points: seq<int>, offsets: seq<int>)
    ensures IsTable(codes, points, offsets)
  {
    points, offsets := [0], [0];
    var i := 0;
    while i < |codes|
      invariant 0 <= i <= |codes|
      invariant |points| == i + 1 && |offsets| == i + 1
      invariant points[0] == 0
      invariant forall k :: 0 <= k < i ==> points[k + 1] == codes[k].1
      invariant forall k :: 0 <= k <= i ==> offsets[k] == Covered(codes[..k])
    {
      var r := codes[i];
      CoveredPrefix(codes, i);
      points := points + [r.1];
      offsets := offsets + [(r.1 - r.0) + offsets[|offsets| - 1]];
      i := i + 1;
    }
  }

  /** `k` spans of an ordered list, taken from the front, cover no more than `k + 1` of them. */
  lemma {:induction false} CoveredPrefixMono(codes: seq<Span>, lo: int, hi: int, i: nat, j: nat)
    requires Ordered(codes, lo, hi) && i <= j <= |codes|
    ensures Covered(codes[..i]) <= Covered(codes[..j])
    decreases j - i
  {
    if i < j {
      CoveredPrefixMono(codes, lo, hi, i, j - 1);
      CoveredPrefix(codes, j - 1);
      OrderedAt(codes, lo, hi, j - 1);
    }
  }

  /**
   * For sequences in text order the table is sorted, the offsets never decrease, and
   * the last offset is the total erased length.
   */
  lemma TableShape(codes: seq<Span>, points: seq<int>, offsets: seq<int>, hi: int)
    requires Ordered(codes, 0, hi) && IsTable(codes, points, offsets)
    ensures forall i, j :: 0 <= i < j < |points| ==> points[i] < points[j]
    ensures forall i, j :: 0 <= i <= j < |offsets| ==> offsets[i] <= offsets[j]
    ensures offsets[|codes|] == Covered(codes)
  {
    OrderedAll(codes, 0, hi);
    forall i, j | 0 <= i < j < |points|
      ensures points[i] < points[j]
    {
      assert points[j] == codes[j - 1].1 && 0 <= codes[j - 1].0 < codes[j - 1].1;
      if i > 0 {
        assert codes[i - 1].1 <= codes[j - 1].0;
      }
    }
    forall i, j | 0 <= i <= j < |offsets|
      ensures offsets[i] <= offsets[j]
    {
      CoveredPrefixMono(codes, 0, hi, i, j);
    }
    assert codes[..|codes|] == codes;
  }

  /** `bisect.bisect(a, x)`: everything before `idx` is at most `x`, everything from `idx` on exceeds it. */
  ghost predicate IsBisectRight(a: seq<int>, x: int, idx: int) {
    0 <= idx <= |a| && (forall k :: 0 <= k < idx ==> a[k] <= x) && (forall k :: idx <= k < |a| ==> x < a[k])
  }

  /** `bisect.bisect(a, x)` (bisect_right) by binary search over a sorted list. */
  method Bisect(a: seq<int>, x: int) returns (idx: int)
    requires forall i, j :: 0 <= i < j < |a| ==> a[i] <= a[j]
    ensures 0 <= idx <= |a|
    ensures forall k :: 0 <= k < idx ==> a[k] <= x
    ensures forall k :: idx <= k < |a| ==> x < a[k]
  {
    var lo, hi := 0, |a|;
    while lo < hi
      invariant 0 <= lo <= hi <= |a|
      invariant forall k :: 0 <= k < lo ==> a[k] <= x
      invariant forall k :: hi <= k < |a| ==> x < a[k]
    {
      var mid := (lo + hi) / 2;
      if x < a[mid] {
        hi := mid;
      } else {
        lo := mid + 1;
      }
    }
    idx := lo;
  }

  /** How many leading sequences end at or before `p`. */
  function EndsBefore(codes: seq<Span>, p: int): (n: nat)
    ensures n <= |codes|
    decreases |codes|
  {
    if codes == [] || p < codes[0].1 then 0 else 1 + EndsBefore(codes[1..], p)
  }

  /** In text order, exactly the first `EndsBefore(codes, p)` sequences end at or before `p`. */
  lemma {:induction false} EndsBeforeSpec(codes: seq<Span>, lo: int, hi: int, p: int)
    requires Ordered(codes, lo, hi)
    ensures EndsBefore(codes, p) <= |codes|
    ensures forall k :: 0 <= k < EndsBefore(codes, p) ==> codes[k].1 <= p
    ensures forall k :: EndsBefore(codes, p) <= k < |codes| ==> p < codes[k].1
    decreases |codes|
  {
    if codes != [] {
      EndsBeforeSpec(codes[1..], codes[0].1, hi, p);
      OrderedAll(codes, lo, hi);
    }
  }

  /** The corrected position of `p`: `p` less the lengths of the sequences that end by `p`. */
  function Corrected(codes: seq<Span>, p: int): int
  {
    p - Covered(codes[..EndsBefore(codes, p)])
  }

  /**
   * `p - offsets[bisect(points, p) - 1]` is the corrected position: `bisect(points, p) - 1`
   * is the greatest `i` with `points[i] <= p`, the number of sequences ending by `p`.
   */
  lemma TableLookup(codes: seq<Span>, points: seq<int>, offsets: seq<int>, hi: int, p: int, idx: int)
    requires Ordered(codes, 0, hi) && IsTable(codes, points, offsets)
    requires 0 <= p && IsBisectRight(points, p, idx)
    ensures 1 <= idx && idx - 1 == EndsBefore(codes, p)
    ensures p - offsets[idx - 1] == Corrected(codes, p)
  {
    EndsBeforeSpec(codes, 0, hi, p);
    var e := EndsBefore(codes, p);
    assert points[0] <= p;
    assert e < |codes| ==> points[e + 1] == codes[e].1 && p < codes[e].1;
    assert e > 0 ==> points[e] == codes[e - 1].1 && codes[e - 1].1 <= p;
  }

  /**
   * Between two sequences, the correction removes exactly the sequences before the
   * point: a point at a sequence's start loses only the earlier sequences' lengths,
   * and a point before the first sequence's end is not moved.
   */
  lemma CorrectionAtSplit(codes: seq<Span>, lo: int, hi: int, c: nat, p: int)
    requires Ordered(codes, lo, hi) && Splits(codes, c, p)
    ensures EndsBefore(codes, p) == c
    ensures Corrected(codes, p) == p - Covered(codes[..c]) == p - Removed(codes, p)
  {
    EndsBeforeSpec(codes, lo, hi, p);
    var e := EndsBefore(codes, p);
    if c < |codes| {
      OrderedAt(codes, lo, hi, c);
    }
    assert c > 0 ==> codes[c - 1].1 <= p;
    assert c < |codes| ==> p < codes[c].1;
    RemovedSplit(codes, lo, hi, c, p);
  }

  /** A point before the end of the first sequence, 0 among them, is not moved. */
  lemma CorrectionBeforeFirst(codes: seq<Span>, p: int)
    requires codes == [] || p < codes[0].1
    ensures EndsBefore(codes, p) == 0 && Corrected(codes, p) == p
  {
  }

  /**
   * A point strictly inside a sequence is not clamped to the sequence's start: it
   * loses only the earlier sequences' lengths, so it lands as far past the
   * corrected start as it was past the start.
   */
  lemma CorrectionInsideCode(codes: seq<Span>, lo: int, hi: int, c: nat, p: int)
    requires Ordered(codes, lo, hi) && c < |codes| && codes[c].0 < p < codes[c].1
    ensures EndsBefore(codes, p) == c
    ensures Corrected(codes, p) == Corrected(codes, codes[c].0) + (p - codes[c].0)
    ensures Corrected(codes, p) > Corrected(codes, codes[c].0)
  {
    OrderedAll(codes, lo, hi);
    EndsBeforeSpec(codes, lo, hi, p);
    assert c > 0 ==> codes[c - 1].1 <= codes[c].0;
    CorrectionAtSplit(codes, lo, hi, c, codes[c].0);
  }
}
