/**
 * `AnsiRegion`: the regions of one scope, as a list of `[a, b]` pairs that the
 * streaming path moves as it deletes the escape sequences and then shifts to the
 * position of the chunk in the output view.
 */
module Regions {
  import opened Scanner
  import opened Splicing

  /** Every pair's endpoints mapped through `subtract_region` for the deleted span [min, max). */
  function CutRegions(rs: seq<Span>, a: int, b: int): seq<Span> {
    seq(|rs|, k requires 0 <= k < |rs| => (CutAt(rs[k].0, a, b), CutAt(rs[k].1, a, b)))
  }

  /** One endpoint as `cut_area(a, b)` maps it: `subtract_region` on [min(a, b), max(a, b)). */
  function CutAt(p: int, a: int, b: int): int {
    AnsiRegion.SubtractRegion(p, if a <= b then a else b, if a <= b then b else a)
  }

  /** Every pair's endpoints moved by `val`. */
  function ShiftRegions(rs: seq<Span>, val: int): seq<Span> {
    seq(|rs|, k requires 0 <= k < |rs| => (rs[k].0 + val, rs[k].1 + val))
  }

  class AnsiRegion {
    const scope: string
    var regions: seq<Span>

    constructor (scope: string)
      ensures this.scope == scope && regions == []
    {
      this.scope := scope;
      regions := [];
    }

    /** `add(a, b)`: appends the pair. */
    method Add(a: int, b: int)
      modifies this
      ensures regions == old(regions) + [(a, b)]
    {
      regions := regions + [(a, b)];
    }

    /** `cut_area(a, b)`: the endpoints of every pair after deleting the span between `a` and `b`. */
    method CutArea(a: int, b: int)
      modifies this
      ensures regions == CutRegions(old(regions), a, b)
    {
      var begin, end := if a <= b then a else b, if a <= b then b else a;
      var n := 0;
      while n < |regions|
        invariant 0 <= n <= |regions| == |old(regions)|
        invariant regions[..n] == CutRegions(old(regions), a, b)[..n]
        invariant regions[n..] == old(regions)[n..]
      {
        var (x, y) := regions[n];
        x := SubtractRegion(x, begin, end);
        y := SubtractRegion(y, begin, end);
        regions := regions[n := (x, y)];
        n := n + 1;
      }
    }

    /** `shift(val)`: every pair moved by `val`. */
    method Shift(val: int)
      modifies this
      ensures regions == ShiftRegions(old(regions), val)
    {
      var n := 0;
      while n < |regions|
        invariant 0 <= n <= |regions| == |old(regions)|
        invariant regions[..n] == ShiftRegions(old(regions), val)[..n]
        invariant regions[n..] == old(regions)[n..]
      {
        var (x, y) := regions[n];
        regions := regions[n := (x + val, y + val)];
        n := n + 1;
      }
    }

    /** `jsonable()`: the one-entry map from the scope to the pairs. */
    function Jsonable(): (m: map<string, seq<Span>>)
      reads this
      ensures m.Keys == {scope} && m[scope] == regions
    {
      map[scope := regions]
    }

    /**
     * `subtract_region(p, begin, end)`: where position `p` lands once [begin, end) is
     * deleted. A position inside the span is clamped to its start.
     */
    static function SubtractRegion(p: int, begin: int, end: int): (r: int)
      ensures begin <= end ==> r == p - Overlap((begin, end), p)
    {
      if p < begin then p
      else if p < end then begin
      else p - (end - begin)
    }
  }

  /** `subtract_region` never reverses two positions. */
  lemma SubtractMonotone(p: int, q: int, begin: int, end: int)
    requires begin <= end && p <= q
    ensures AnsiRegion.SubtractRegion(p, begin, end) <= AnsiRegion.SubtractRegion(q, begin, end)
  {
  }

  /**
   * A position outside the deleted span still names the same character once the
   * span is deleted from the text.
   */
  lemma SubtractTracksDeletion(s: string, begin: int, end: int, p: int)
    requires 0 <= begin <= end <= |s| && 0 <= p < |s| && !(begin <= p < end)
    ensures var r := AnsiRegion.SubtractRegion(p, begin, end); var t := s[..begin] + s[end..];
      0 <= r < |t| && t[r] == s[p]
  {
  }

  /** `cut_area(a, b)` and `cut_area(b, a)` do the same. */
  lemma CutSymmetric(rs: seq<Span>, a: int, b: int)
    ensures CutRegions(rs, a, b) == CutRegions(rs, b, a)
  {
  }

  /** Cutting keeps the number of pairs, and keeps `a <= b` for every pair that had it. */
  lemma CutKeepsOrder(rs: seq<Span>, a: int, b: int, k: nat)
    requires k < |rs| && rs[k].0 <= rs[k].1
    ensures |CutRegions(rs, a, b)| == |rs|
    ensures CutRegions(rs, a, b)[k].0 <= CutRegions(rs, a, b)[k].1
  {
    var lo, hi := if a <= b then a else b, if a <= b then b else a;
    SubtractMonotone(rs[k].0, rs[k].1, lo, hi);
  }

  /** Two shifts are one shift by the sum; shifting keeps the number of pairs. */
  lemma ShiftCompose(rs: seq<Span>, x: int, y: int)
    ensures |ShiftRegions(rs, x)| == |rs|
    ensures ShiftRegions(ShiftRegions(rs, x), y) == ShiftRegions(rs, x + y)
  {
  }

  /**
   * The regions after the streaming loop `for c in reversed(runs): r.cut_area(*c)`:
   * the last run is cut first.
   */
  function CutRuns(rs: seq<Span>, runs: seq<Span>): seq<Span>
    decreases |runs|
  {
    if runs == [] then rs else CutRegions(CutRuns(rs, runs[1..]), runs[0].0, runs[0].1)
  }

  /** One position mapped through the same loop. */
  function CutPoint(p: int, runs: seq<Span>): int
    decreases |runs|
  {
    if runs == [] then p else CutAt(CutPoint(p, runs[1..]), runs[0].0, runs[0].1)
  }

  /** The loop keeps the number of pairs. */
  lemma {:induction false} CutRunsLength(rs: seq<Span>, runs: seq<Span>)
    ensures |CutRuns(rs, runs)| == |rs|
    decreases |runs|
  {
    if runs != [] {
      CutRunsLength(rs, runs[1..]);
    }
  }

  /** The loop maps every endpoint on its own: `CutRuns` is `CutPoint` pair by pair. */
  lemma {:induction false} CutRunsPointwise(rs: seq<Span>, runs: seq<Span>, k: nat)
    requires k < |rs|
    ensures |CutRuns(rs, runs)| == |rs|
    ensures CutRuns(rs, runs)[k] == (CutPoint(rs[k].0, runs), CutPoint(rs[k].1, runs))
    decreases |runs|
  {
    if runs != [] {
      CutRunsPointwise(rs, runs[1..], k);
    }
  }

  /**
   * Cutting ordered runs from the last to the first moves a position back by exactly
   * the number of deleted positions before it; a position inside a run lands at
   * the run's start.
   */
  lemma {:induction false} CutPointRemoved(p: int, runs: seq<Span>, lo: int, hi: int)
    requires Ordered(runs, lo, hi)
    ensures CutPoint(p, runs) == p - Removed(runs, p)
    decreases |runs|
  {
    if runs != [] {
      var a, b := runs[0].0, runs[0].1;
      var rest := runs[1..];
      CutPointRemoved(p, rest, b, hi);
      if p <= b {
        RemovedZero(rest, b, hi, p);
      } else {
        RemovedBound(rest, b, hi, p);
      }
    }
  }
}
