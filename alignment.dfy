/**
 * Where a definition's span lands once the escape sequences are gone. Both paths
 * find the spans in the text before deletion; the one-shot path moves their
 * endpoints with the correction table, the streaming path with `cut_area` over the
 * runs of sequences. For definitions whose codes are SGR sequences both land on
 * the same positions, and the corrected span covers exactly the text the two
 * codes introduce.
 */
module Alignment {
  import opened Scanner
  import opened Splicing
  import opened Stripping
  import opened Regions
  import opened Correction

  /**
   * A definition's span opens with two whole sequences of the scan for single
   * sequences, `c` and `c + 1`; the scan's next sequence starts at or after the span's end.
   */
  lemma PairSpanLayout(t: string, fg: string, bg: string, k: nat) returns (c: nat)
    requires IsToken(fg) && IsToken(bg) && k < |FindAll(Pair(fg, bg), t, 0)|
    ensures var sp, codes, w := FindAll(Pair(fg, bg), t, 0)[k], FindAll(Code, t, 0), |fg| + |bg|;
      && 0 <= sp.0 && sp.0 + w <= sp.1 <= |t|
      && c + 2 <= |codes| && codes[c].0 == sp.0 && codes[c].1 == codes[c + 1].0 && codes[c + 1].1 == sp.0 + w
      && Splits(codes, c, sp.0) && Splits(codes, c + 2, sp.0 + w) && Splits(codes, c + 2, sp.1)
  {
    var sp := FindAll(Pair(fg, bg), t, 0)[k];
    FindAllSound(Pair(fg, bg), t, 0, k);
    c := PairLayoutAt(t, fg, bg, sp.0, sp.1);
  }

  /** The same, for a match of the definition from `a` to `b`. */
  lemma PairLayoutAt(t: string, fg: string, bg: string, a: nat, b: nat) returns (c: nat)
    requires IsToken(fg) && IsToken(bg) && a < b <= |t| && PairLen(t, a, fg, bg) == b - a
    ensures var codes, w := FindAll(Code, t, 0), |fg| + |bg|;
      && a + w <= b
      && c + 2 <= |codes| && codes[c].0 == a && codes[c].1 == codes[c + 1].0 && codes[c + 1].1 == a + w
      && Splits(codes, c, a) && Splits(codes, c + 2, a + w) && Splits(codes, c + 2, b)
  {
    var x, y := PairShape(t, fg, bg, a, b);
    var w := |x| + |y|;
    c := TwoCodes(t, a, x, y);
    ScanPlain(t, a + w, b);
    SplitsAfter(FindAll(Code, t, 0), c + 2, FindAll(Code, t, b), b, |t|);
  }

  /** A match opens with the two codes in one of the two orders, then holds no ESC. */
  lemma PairShape(t: string, fg: string, bg: string, a: nat, b: nat) returns (x: string, y: string)
    requires IsToken(fg) && IsToken(bg) && a < b <= |t| && PairLen(t, a, fg, bg) == b - a
    ensures IsToken(x) && IsToken(y) && |x| + |y| == |fg| + |bg| && a + |x| + |y| <= b
    ensures t[a..a + |x|] == x && t[a + |x|..a + |x| + |y|] == y
    ensures forall k :: a + |x| + |y| <= k < b ==> t[k] != ESC
  {
    PairLenSpec(t, a, fg, bg);
    PairCodes(t, a, fg, bg);
    var first := t[a..a + |fg|] == fg && t[a + |fg|..a + |fg| + |bg|] == bg;
    x, y := if first then fg else bg, if first then bg else fg;
  }

  /** Spans from `c` on that are the scan from `b` start at or after `b`. */
  lemma SplitsAfter(codes: seq<Span>, c: nat, later: seq<Span>, b: int, hi: int)
    requires 0 < c <= |codes| && codes[c..] == later && Ordered(later, b, hi) && codes[c - 1].1 <= b
    ensures Splits(codes, c, b)
  {
    if c < |codes| {
      OrderedAt(later, b, hi, 0);
      assert codes[c] == later[0];
    }
  }

  /**
   * Two SGR sequences side by side at `a`: the scan stops at `a` after `c` sequences,
   * and its next two sequences are exactly these two.
   */
  lemma TwoCodes(t: string, a: nat, x: string, y: string) returns (c: nat)
    requires IsToken(x) && IsToken(y) && a + |x| + |y| <= |t|
    requires t[a..a + |x|] == x && t[a + |x|..a + |x| + |y|] == y
    ensures var codes, w := FindAll(Code, t, 0), |x| + |y|;
      && c + 2 <= |codes| && codes[c] == (a, a + |x|) && codes[c + 1] == (a + |x|, a + w)
      && codes[c + 2..] == FindAll(Code, t, a + w)
      && Splits(codes, c, a) && Splits(codes, c + 2, a + w)
  {
    var w := |x| + |y|;
    assert t[a] == x[0] == ESC;
    EscReached(t, 0, a);
    ScanSplit(t, 0, a);
    TwoCodesScan(t, a, x, y);
    var codes, here := FindAll(Code, t, 0), FindAll(Code, t, a);
    c := |codes| - |here|;
    SplitsTwo(codes, here, FindAll(Code, t, a + w), (a, a + |x|), (a + |x|, a + w), a, |t|);
  }

  /** The scan from `a` reports the two sequences and then goes on after them. */
  lemma TwoCodesScan(t: string, a: nat, x: string, y: string)
    requires IsToken(x) && IsToken(y) && a + |x| + |y| <= |t|
    requires t[a..a + |x|] == x && t[a + |x|..a + |x| + |y|] == y
    ensures FindAll(Code, t, a) == [(a, a + |x|), (a + |x|, a + |x| + |y|)] + FindAll(Code, t, a + |x| + |y|)
  {
    TokenAt(t, a, x);
    TokenAt(t, a + |x|, y);
    FindAllStep(Code, t, a);
    FindAllStep(Code, t, a + |x|);
  }

  /** Where the scan stops at `a` in front of two spans, it stops again right after them. */
  lemma SplitsTwo(all: seq<Span>, here: seq<Span>, rest: seq<Span>, u: Span, v: Span, a: int, hi: int)
    requires SplitsTail(all, here, a) && here == [u, v] + rest && Ordered(rest, v.1, hi)
    ensures var c := |all| - |here|;
      && c + 2 <= |all| && all[c] == u && all[c + 1] == v && all[c + 2..] == rest
      && Splits(all, c + 2, v.1)
  {
    var c := |all| - |here|;
    assert all[c..] == here;
    assert all[c] == here[0] && all[c + 1] == here[1];
    assert all[c + 2..] == here[2..];
    if rest != [] {
      assert all[c + 2] == rest[0];
    }
  }

  /** An SGR sequence written at `a` is one whole match of the scan's pattern there. */
  lemma TokenAt(t: string, a: nat, x: string)
    requires IsToken(x) && a + |x| <= |t| && t[a..a + |x|] == x
    ensures MatchLen(Code, t, a) == |x|
  {
    TokenLenSpec(t, a);
  }

  /**
   * One-shot path: the corrected span of a definition covers, in the cleaned text,
   * exactly the text that follows its two codes, and its start is where the codes were.
   */
  lemma CorrectedSpanText(t: string, fg: string, bg: string, k: nat)
    requires IsToken(fg) && IsToken(bg) && k < |FindAll(Pair(fg, bg), t, 0)|
    ensures var sp, codes, w := FindAll(Pair(fg, bg), t, 0)[k], FindAll(Code, t, 0), |fg| + |bg|;
      var a, b := Corrected(codes, sp.0), Corrected(codes, sp.1);
      && sp.0 + w <= sp.1 <= |t|
      && 0 <= a <= b <= |Clean(t)|
      && a == Corrected(codes, sp.0 + w)
      && b - a == sp.1 - sp.0 - w
      && Clean(t)[a..b] == t[sp.0 + w..sp.1]
  {
    var sp, codes, w := FindAll(Pair(fg, bg), t, 0)[k], FindAll(Code, t, 0), |fg| + |bg|;
    var c := PairSpanLayout(t, fg, bg, k);
    SpliceAfterPair(t, codes, c, sp.0, w, sp.1);
  }

  /** The same, for any ordered sequences with two side by side at `a`. */
  lemma SpliceAfterPair(t: string, codes: seq<Span>, c: nat, a: int, w: int, b: int)
    requires Ordered(codes, 0, |t|) && 0 <= a && a + w <= b <= |t| && c + 2 <= |codes|
    requires codes[c].0 == a && codes[c].1 == codes[c + 1].0 && codes[c + 1].1 == a + w
    requires Splits(codes, c, a) && Splits(codes, c + 2, a + w) && Splits(codes, c + 2, b)
    ensures var out, lo, hi := Splice(t, codes, 0, ""), Corrected(codes, a), Corrected(codes, b);
      && 0 <= lo <= hi <= |out|
      && lo == Corrected(codes, a + w)
      && hi - lo == b - a - w
      && out[lo..hi] == t[a + w..b]
  {
    PairCorrections(codes, |t|, c, a, w, b);
    SpliceLength(t, codes, 0, "");
    assert |codes| * |""| == 0;
    RemovedMono(codes, 0, |t|, b, |t|);
    RemovedTotal(codes, 0, |t|);
    SpliceWindow(t, codes, 0, a + w, b);
  }

  /** Where the pair's endpoints and the end of its codes land. */
  lemma PairCorrections(codes: seq<Span>, hi: int, c: nat, a: int, w: int, b: int)
    requires Ordered(codes, 0, hi) && 0 <= a && a + w <= b && c + 2 <= |codes|
    requires codes[c].0 == a && codes[c].1 == codes[c + 1].0 && codes[c + 1].1 == a + w
    requires Splits(codes, c, a) && Splits(codes, c + 2, a + w) && Splits(codes, c + 2, b)
    ensures var before := Covered(codes[..c]);
      && 0 <= before <= a
      && Corrected(codes, a) == a - before == Corrected(codes, a + w)
      && Corrected(codes, b) == b - before - w
      && Removed(codes, a + w) == Removed(codes, b) == before + w
  {
    CorrectionAtSplit(codes, 0, hi, c, a);
    CorrectionAtSplit(codes, 0, hi, c + 2, a + w);
    CorrectionAtSplit(codes, 0, hi, c + 2, b);
    CoveredPrefix(codes, c);
    CoveredPrefix(codes, c + 1);
    RemovedBound(codes, 0, hi, a);
  }

  /** After its two codes, a definition's span holds no ESC. */
  lemma PairSpanPlain(t: string, fg: string, bg: string, k: nat)
    requires k < |FindAll(Pair(fg, bg), t, 0)|
    ensures var sp, w := FindAll(Pair(fg, bg), t, 0)[k], |fg| + |bg|;
      && 0 <= sp.0 && sp.0 + w <= sp.1 <= |t|
      && (forall j :: sp.0 + w <= j < sp.1 ==> t[j] != ESC)
      && (sp.1 == |t| || t[sp.1] == ESC)
  {
    var sp := FindAll(Pair(fg, bg), t, 0)[k];
    FindAllSound(Pair(fg, bg), t, 0, k);
    PairLenSpec(t, sp.0, fg, bg);
  }

  /** Everything deleted lies before the end of the text. */
  lemma {:induction false} RemovedTotal(spans: seq<Span>, lo: int, hi: int)
    requires Ordered(spans, lo, hi)
    ensures Removed(spans, hi) == Covered(spans)
    decreases |spans|
  {
    if spans != [] {
      RemovedTotal(spans[1..], spans[0].1, hi);
    }
  }

  /**
   * Streaming path: cutting the runs of sequences from the last to the first moves
   * each endpoint of a definition's span to the same place as the one-shot path's
   * correction table.
   */
  lemma StreamingAgrees(t: string, fg: string, bg: string, k: nat)
    requires IsToken(fg) && IsToken(bg) && k < |FindAll(Pair(fg, bg), t, 0)|
    ensures var sp, codes, runs := FindAll(Pair(fg, bg), t, 0)[k], FindAll(Code, t, 0), FindAll(CodeRun, t, 0);
      CutPoint(sp.0, runs) == Corrected(codes, sp.0) && CutPoint(sp.1, runs) == Corrected(codes, sp.1)
  {
    var sp, codes, runs := FindAll(Pair(fg, bg), t, 0)[k], FindAll(Code, t, 0), FindAll(CodeRun, t, 0);
    var c := PairSpanLayout(t, fg, bg, k);
    CorrectionAtSplit(codes, 0, |t|, c, sp.0);
    CorrectionAtSplit(codes, 0, |t|, c + 2, sp.1);
    CutPointRemoved(sp.0, runs, 0, |t|);
    CutPointRemoved(sp.1, runs, 0, |t|);
    RunsRemoveSame(t, 0, sp.0);
    RunsRemoveSame(t, 0, sp.1);
  }
}
