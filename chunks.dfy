/**
 * Build output that arrives in several chunks. Each chunk goes through
 * `on_data_process` on its own, its regions shifted by the size of the output view
 * so far. When every chunk boundary falls before an escape sequence and not right
 * after one (so that no run of sequences, and no pair of codes, is split), the
 * chunks together give the text and the regions the one-shot path gives for the
 * whole output.
 */
module Chunks {
  import opened Scanner
  import opened Splicing
  import opened Normalization
  import opened Stripping
  import opened Regions
  import opened Correction
  import opened Definitions
  import opened Colorize
  import opened Streaming

  /** `b` is empty or starts with ESC: no ESC-free stretch of text runs across the boundary. */
  predicate OpensWithEsc(b: string) {
    b == [] || b[0] == ESC
  }

  /** No SGR sequence ends at the end of `a`. */
  predicate NoTokenAtEnd(a: string) {
    forall k :: 0 <= k < |a| ==> !IsToken(a[k..])
  }

  /** An SGR sequence holds no ESC after its first character. */
  lemma TokenNoEsc(c: string, d: nat)
    requires IsToken(c) && 0 < d < |c|
    ensures c[d] != ESC
  {
    assert c[d] == c[1..][d - 1];
  }

  // Every matcher looks only forward: a match in `b` is the same match in `a + b`.

  lemma {:induction false} ParamEndSuffix(a: string, b: string, k: nat)
    requires k <= |b|
    ensures ParamEnd(a + b, |a| + k) == |a| + ParamEnd(b, k)
    decreases |b| - k
  {
    if k < |b| {
      assert (a + b)[|a| + k] == b[k];
      ParamEndSuffix(a, b, k + 1);
    }
  }

  lemma {:induction false} NonEscEndSuffix(a: string, b: string, k: nat)
    requires k <= |b|
    ensures NonEscEnd(a + b, |a| + k) == |a| + NonEscEnd(b, k)
    decreases |b| - k
  {
    if k < |b| {
      assert (a + b)[|a| + k] == b[k];
      NonEscEndSuffix(a, b, k + 1);
    }
  }

  lemma BracketLenSuffix(a: string, b: string, k: nat)
    requires k <= |b|
    ensures BracketLen(a + b, |a| + k) == BracketLen(b, k)
  {
    if k < |b| {
      assert (a + b)[|a| + k] == b[k];
      ParamEndSuffix(a, b, k + 1);
      var e := ParamEnd(b, k + 1);
      if e < |b| {
        assert (a + b)[|a| + e] == b[e];
      }
    }
  }

  lemma TokenLenSuffix(a: string, b: string, k: nat)
    requires k <= |b|
    ensures TokenLen(a + b, |a| + k) == TokenLen(b, k)
  {
    if k < |b| {
      assert (a + b)[|a| + k] == b[k];
      BracketLenSuffix(a, b, k + 1);
    }
  }

  /**
   * One step of `RunEndSuffix`: the run in `s` from `i` sits `d` after the run
   * in `b` from `k`, given the same sequence at both and the same for the runs
   * after it.
   */
  lemma RunEndShiftStep(s: string, b: string, d: nat, i: nat, k: nat, n: nat, j: nat, l: nat)
    requires i <= |s| && k <= |b| && i == d + k
    requires n == TokenLen(s, i) && n == TokenLen(b, k) && j == i + n && l == k + n
    requires n > 0 ==> RunEnd(s, j) == d + RunEnd(b, l)
    ensures RunEnd(s, i) == d + RunEnd(b, k)
  {
    if n > 0 {
      RunEndAfter(s, i, j);
      RunEndAfter(b, k, l);
    } else {
      RunEndStop(s, i);
      RunEndStop(b, k);
    }
  }

  /** `b` sits at `d` in `s`: the sequence at `d + k` in `s` is the one at `k` in `b`. */
  lemma TokenLenAt(s: string, b: string, d: nat, k: nat)
    requires d <= |s| && s[d..] == b && k <= |b|
    ensures TokenLen(s, d + k) == TokenLen(b, k)
  {
    var a := s[..d];
    assert a + b == s;
    TokenLenSuffix(a, b, k);
  }

  /** `b` sits at `d` in `s`: the run from `d + k` in `s` is the one from `k` in `b`, moved by `d`. */
  lemma {:induction false} RunEndAt(s: string, b: string, d: nat, k: nat)
    requires d <= |s| && s[d..] == b && k <= |b|
    ensures RunEnd(s, d + k) == d + RunEnd(b, k)
    decreases |b| - k
  {
    var n := TokenLen(b, k);
    TokenLenAt(s, b, d, k);
    if n > 0 {
      var l := k + n;
      RunEndAt(s, b, d, l);
      RunEndShiftStep(s, b, d, d + k, k, n, d + l, l);
    } else {
      RunEndShiftStep(s, b, d, d + k, k, n, d + k, k);
    }
  }

  lemma RunEndSuffix(a: string, b: string, k: nat)
    requires k <= |b|
    ensures RunEnd(a + b, |a| + k) == |a| + RunEnd(b, k)
  {
    var s := a + b;
    assert s[|a|..] == b;
    RunEndAt(s, b, |a|, k);
  }

  /** No sequence at `i`: the run from `i` is empty. */
  lemma RunEndStop(s: string, i: nat)
    requires i <= |s| && TokenLen(s, i) == 0
    ensures RunEnd(s, i) == i
  {
  }

  /** The run from `i` goes on from the end of the sequence at `i`. */
  lemma RunEndAfter(s: string, i: nat, j: nat)
    requires i <= |s| && TokenLen(s, i) > 0 && j == i + TokenLen(s, i)
    ensures RunEnd(s, i) == RunEnd(s, j)
  {
  }

  lemma PairLenSuffix(a: string, b: string, k: nat, fg: string, bg: string)
    requires k <= |b|
    ensures PairLen(a + b, |a| + k, fg, bg) == PairLen(b, k, fg, bg)
  {
    StartsWithShift(a, b, k, fg + bg);
    StartsWithShift(a, b, k, bg + fg);
    if StartsWith(b, k, fg + bg) || StartsWith(b, k, bg + fg) {
      StartsWithSpec(b, k, fg + bg);
      StartsWithSpec(b, k, bg + fg);
      NonEscEndSuffix(a, b, k + |fg| + |bg|);
    }
  }

  /** Whether and how far a pattern matches at a position of `b` does not depend on what precedes `b`. */
  lemma MatchLenSuffix(p: Pattern, a: string, b: string, k: nat)
    requires k <= |b|
    ensures MatchLen(p, a + b, |a| + k) == MatchLen(p, b, k)
  {
    match p
    case Code => TokenLenSuffix(a, b, k);
    case CodeRun => RunEndSuffix(a, b, k);
    case Unsupported => UnsupportedSuffix(a, b, k);
    case Bracket => BracketLenSuffix(a, b, k);
    case Pair(fg, bg) => PairLenSuffix(a, b, k, fg, bg);
  }

  // Before an ESC every matcher but the run of sequences stops: a match in `a` is the
  // same match in `a + b` when `b` opens with ESC.

  lemma {:induction false} ParamEndPrefix(a: string, b: string, k: nat)
    requires k <= |a| && OpensWithEsc(b)
    ensures ParamEnd(a + b, k) == ParamEnd(a, k)
    decreases |a| - k
  {
    if k < |a| {
      assert (a + b)[k] == a[k];
      ParamEndPrefix(a, b, k + 1);
    } else if b != [] {
      assert (a + b)[k] == b[0];
    }
  }

  lemma {:induction false} NonEscEndPrefix(a: string, b: string, k: nat)
    requires k <= |a| && OpensWithEsc(b)
    ensures NonEscEnd(a + b, k) == NonEscEnd(a, k)
    decreases |a| - k
  {
    if k < |a| {
      assert (a + b)[k] == a[k];
      NonEscEndPrefix(a, b, k + 1);
    } else if b != [] {
      assert (a + b)[k] == b[0];
    }
  }

  lemma BracketLenPrefix(a: string, b: string, k: nat)
    requires k <= |a| && OpensWithEsc(b)
    ensures BracketLen(a + b, k) == BracketLen(a, k)
  {
    if k < |a| {
      assert (a + b)[k] == a[k];
      if a[k] == '[' {
        ParamEndPrefix(a, b, k + 1);
        var e := ParamEnd(a, k + 1);
        if e < |a| {
          assert (a + b)[e] == a[e];
        } else if b != [] {
          assert (a + b)[e] == b[0];
        }
      }
    } else if b != [] {
      assert (a + b)[k] == b[0];
    }
  }

  lemma TokenLenPrefix(a: string, b: string, k: nat)
    requires k < |a| && OpensWithEsc(b)
    ensures TokenLen(a + b, k) == TokenLen(a, k)
  {
    assert (a + b)[k] == a[k];
    BracketLenPrefix(a, b, k + 1);
  }

  lemma UnsupportedPrefix(a: string, b: string, k: nat)
    requires k < |a| && OpensWithEsc(b)
    ensures UnsupportedLen(a + b, k) == UnsupportedLen(a, k)
  {
    var s := a + b;
    if b != [] {
      assert s[|a|] == b[0];
    }
    UnsupportedWindow(s, k, |a|);
    UnsupportedWindow(a, k, |a|);
    assert s[k..|a|] == a[k..|a|];
  }

  /** Two codes that start in `a` and reach past its end split a code at the boundary. */
  lemma CrossingPair(a: string, b: string, k: nat, x: string, y: string)
    requires IsToken(x) && IsToken(y) && OpensWithEsc(b) && NoTokenAtEnd(a)
    requires k < |a| < k + |x| + |y|
    ensures !StartsWith(a + b, k, x + y)
  {
    var s := a + b;
    StartsWithSpec(s, k, x + y);
    if StartsWith(s, k, x + y) {
      var d := |a| - k;
      assert s[|a|] == b[0] == ESC;
      assert (x + y)[d] == s[|a|];
      if d < |x| {
        TokenNoEsc(x, d);
        assert false;
      } else if d > |x| {
        assert (x + y)[d] == y[d - |x|];
        TokenNoEsc(y, d - |x|);
        assert false;
      } else {
        FirstCodeAtEnd(a, b, k, x, y);
        assert false;
      }
    }
  }

  /** When the first of two adjacent codes ends where `a` ends, it is the end of `a`. */
  lemma FirstCodeAtEnd(a: string, b: string, k: nat, x: string, y: string)
    requires k + |x| == |a| && |a| + |y| <= |a + b| && (a + b)[k..|a| + |y|] == x + y
    ensures a[k..] == x
  {
    Halves(a + b, k, x, y);
    assert a[k..] == (a + b)[k..k + |x|];
  }

  lemma StartsWithPrefix(a: string, b: string, k: nat, c: string)
    requires k + |c| <= |a|
    ensures StartsWith(a + b, k, c) == StartsWith(a, k, c)
  {
    StartsWithSpec(a + b, k, c);
    StartsWithSpec(a, k, c);
    assert (a + b)[k..k + |c|] == a[k..k + |c|];
  }

  lemma PairLenPrefix(a: string, b: string, k: nat, fg: string, bg: string)
    requires k < |a| && OpensWithEsc(b) && IsToken(fg) && IsToken(bg) && NoTokenAtEnd(a)
    ensures PairLen(a + b, k, fg, bg) == PairLen(a, k, fg, bg)
  {
    var w := |fg| + |bg|;
    StartsWithSpec(a, k, fg + bg);
    StartsWithSpec(a, k, bg + fg);
    if k + w <= |a| {
      StartsWithPrefix(a, b, k, fg + bg);
      StartsWithPrefix(a, b, k, bg + fg);
      NonEscEndPrefix(a, b, k + w);
    } else {
      CrossingPair(a, b, k, fg, bg);
      CrossingPair(a, b, k, bg, fg);
    }
  }

  /** The patterns whose matches in `a` cannot run on into a chunk that opens with ESC. */
  predicate Local(p: Pattern, a: string) {
    match p
    case Code => true
    case CodeRun => false
    case Unsupported => true
    case Bracket => true
    case Pair(fg, bg) => IsToken(fg) && IsToken(bg) && NoTokenAtEnd(a)
  }

  lemma MatchLenPrefix(p: Pattern, a: string, b: string, k: nat)
    requires k < |a| && OpensWithEsc(b) && Local(p, a)
    ensures MatchLen(p, a + b, k) == MatchLen(p, a, k)
  {
    match p
    case Code => TokenLenPrefix(a, b, k);
    case Unsupported => UnsupportedPrefix(a, b, k);
    case Bracket => BracketLenPrefix(a, b, k);
    case Pair(fg, bg) => PairLenPrefix(a, b, k, fg, bg);
  }

  /** The match-length table of `a + b` is the table of `a` followed by the table of `b`. */
  lemma LengthsConcat(p: Pattern, a: string, b: string)
    requires OpensWithEsc(b) && Local(p, a)
    ensures Lengths(p, a + b) == Lengths(p, a) + Lengths(p, b)
  {
    var l, r := Lengths(p, a + b), Lengths(p, a) + Lengths(p, b);
    forall k | 0 <= k < |l|
      ensures l[k] == r[k]
    {
      if k < |a| {
        MatchLenPrefix(p, a, b, k);
      } else {
        MatchLenSuffix(p, a, b, k - |a|);
      }
    }
  }

  // The scan over two tables laid end to end.

  lemma FitsConcat(ma: seq<nat>, mb: seq<nat>)
    requires Fits(ma) && Fits(mb)
    ensures Fits(ma + mb)
  {
    var m := ma + mb;
    forall k | 0 <= k < |m|
      ensures k + m[k] <= |m|
    {
      if k >= |ma| {
        assert m[k] == mb[k - |ma|];
      }
    }
  }

  lemma ShiftCons(sp: Span, rest: seq<Span>, d: int)
    ensures ShiftRegions([sp] + rest, d) == [(sp.0 + d, sp.1 + d)] + ShiftRegions(rest, d)
  {
  }

  lemma ShiftAppend(x: seq<Span>, y: seq<Span>, d: int)
    ensures ShiftRegions(x + y, d) == ShiftRegions(x, d) + ShiftRegions(y, d)
  {
  }

  /** A span, moved, then moved spans: the span and the spans, moved. */
  lemma ShiftConsChain(x: seq<Span>, y: seq<Span>, z: seq<Span>, w: seq<Span>, sp: Span, lo: int, hi: int, d: int)
    requires x == [(lo, hi)] + y && y == ShiftRegions(w, d) && z == [sp] + w && lo == sp.0 + d && hi == sp.1 + d
    ensures x == ShiftRegions(z, d)
  {
    ShiftCons(sp, w, d);
  }

  /** The scan at a match: its span, then the scan after it. */
  lemma ScanMatchAt(m: seq<nat>, i: nat, k: nat)
    requires i < |m| && Fits(m) && m[i] > 0 && k == i + m[i]
    ensures Scan(m, i) == [(i, k)] + Scan(m, k)
  {
  }

  /** The scan where nothing matches: the scan from the next position. */
  lemma ScanSkipAt(m: seq<nat>, i: nat, k: nat)
    requires i < |m| && Fits(m) && m[i] == 0 && k == i + 1
    ensures Scan(m, i) == Scan(m, k)
  {
  }

  /** One step of `ScanTail`: the scan of `mb` moved, from position `j`, given it from the next position. */
  lemma ScanTailStep(ma: seq<nat>, mb: seq<nat>, j: nat, next: nat)
    requires Fits(ma) && Fits(mb) && Fits(ma + mb) && j < |mb|
    requires next == if mb[j] > 0 then j + mb[j] else j + 1
    requires Scan(ma + mb, |ma| + next) == ShiftRegions(Scan(mb, next), |ma|)
    ensures Scan(ma + mb, |ma| + j) == ShiftRegions(Scan(mb, j), |ma|)
  {
    var m := ma + mb;
    var i, n, k := |ma| + j, mb[j], |ma| + next;
    assert m[i] == n;
    if n > 0 {
      ScanMatchAt(m, i, k);
      ScanMatchAt(mb, j, next);
      ShiftConsChain(Scan(m, i), Scan(m, k), Scan(mb, j), Scan(mb, next), (j, next), i, k, |ma|);
    } else {
      ScanSkipAt(m, i, k);
      ScanSkipAt(mb, j, next);
    }
  }

  lemma {:induction false} ScanTail(ma: seq<nat>, mb: seq<nat>, j: nat)
    requires Fits(ma) && Fits(mb) && Fits(ma + mb) && j <= |mb|
    ensures Scan(ma + mb, |ma| + j) == ShiftRegions(Scan(mb, j), |ma|)
    decreases |mb| - j
  {
    if j < |mb| {
      var next := if mb[j] > 0 then j + mb[j] else j + 1;
      ScanTail(ma, mb, next);
      ScanTailStep(ma, mb, j, next);
    } else {
      assert Scan(ma + mb, |ma| + j) == [];
    }
  }

  lemma {:induction false} ScanHead(ma: seq<nat>, mb: seq<nat>, i: nat)
    requires Fits(ma) && Fits(mb) && Fits(ma + mb) && i <= |ma|
    ensures Scan(ma + mb, i) == Scan(ma, i) + Scan(ma + mb, |ma|)
    decreases |ma| - i
  {
    var m := ma + mb;
    if i < |ma| {
      assert m[i] == ma[i];
      var n := ma[i];
      var next := if n > 0 then i + n else i + 1;
      ScanHead(ma, mb, next);
      ScanStep(m, i);
      ScanStep(ma, i);
    }
  }

  lemma {:induction false} ScanSubTail(ma: seq<nat>, mb: seq<nat>, a: string, b: string, j: nat, rep: string)
    requires Fits(ma) && Fits(mb) && Fits(ma + mb) && |ma| == |a| && |mb| == |b| && j <= |b|
    ensures ScanSub(ma + mb, a + b, |a| + j, rep) == ScanSub(mb, b, j, rep)
    decreases |b| - j
  {
    var m, s := ma + mb, a + b;
    if j < |b| {
      assert m[|a| + j] == mb[j] && s[|a| + j] == b[j];
      var n := mb[j];
      var next := if n > 0 then j + n else j + 1;
      ScanSubTail(ma, mb, a, b, next, rep);
      ScanSubStep(m, s, |a| + j, rep);
      ScanSubStep(mb, b, j, rep);
      assert |a| + next == if m[|a| + j] > 0 then |a| + j + m[|a| + j] else |a| + j + 1;
    }
  }

  /** One step of `ScanSubHead`: the rewrite of `a` from `i`, given it from the next position. */
  lemma ScanSubHeadStep(ma: seq<nat>, mb: seq<nat>, a: string, b: string, i: nat, next: nat, rep: string)
    requires Fits(ma) && Fits(mb) && Fits(ma + mb) && |ma| == |a| && |mb| == |b| && i < |a|
    requires next == if ma[i] > 0 then i + ma[i] else i + 1
    requires ScanSub(ma + mb, a + b, next, rep) == ScanSub(ma, a, next, rep) + ScanSub(ma + mb, a + b, |a|, rep)
    ensures ScanSub(ma + mb, a + b, i, rep) == ScanSub(ma, a, i, rep) + ScanSub(ma + mb, a + b, |a|, rep)
  {
    var m, s := ma + mb, a + b;
    assert m[i] == ma[i] && s[i] == a[i];
    ScanSubStep(m, s, i, rep);
    ScanSubStep(ma, a, i, rep);
    var x, y, z := if ma[i] > 0 then rep else [a[i]], ScanSub(ma, a, next, rep), ScanSub(m, s, |a|, rep);
    assert x + (y + z) == (x + y) + z;
  }

  lemma {:induction false} ScanSubHead(ma: seq<nat>, mb: seq<nat>, a: string, b: string, i: nat, rep: string)
    requires Fits(ma) && Fits(mb) && Fits(ma + mb) && |ma| == |a| && |mb| == |b| && i <= |a|
    ensures ScanSub(ma + mb, a + b, i, rep) == ScanSub(ma, a, i, rep) + ScanSub(ma + mb, a + b, |a|, rep)
    decreases |a| - i
  {
    if i < |a| {
      var next := if ma[i] > 0 then i + ma[i] else i + 1;
      ScanSubHead(ma, mb, a, b, next, rep);
      ScanSubHeadStep(ma, mb, a, b, i, next, rep);
    }
  }

  /** `finditer` over `a + b` is `finditer` over `a`, then over `b` moved by `|a|`. */
  lemma FindAllConcat(p: Pattern, a: string, b: string)
    requires OpensWithEsc(b) && Local(p, a)
    ensures FindAll(p, a + b, 0) == FindAll(p, a, 0) + ShiftRegions(FindAll(p, b, 0), |a|)
  {
    var ma, mb := Lengths(p, a), Lengths(p, b);
    LengthsConcat(p, a, b);
    FitsConcat(ma, mb);
    ScanHead(ma, mb, 0);
    ScanTail(ma, mb, 0);
  }

  /** `re.sub` over `a + b` is `re.sub` over `a`, then over `b`. */
  lemma SubConcat(p: Pattern, a: string, b: string, rep: string)
    requires OpensWithEsc(b) && Local(p, a)
    ensures Sub(p, a + b, 0, rep) == Sub(p, a, 0, rep) + Sub(p, b, 0, rep)
  {
    var ma, mb := Lengths(p, a), Lengths(p, b);
    LengthsConcat(p, a, b);
    FitsConcat(ma, mb);
    ScanSubHead(ma, mb, a, b, 0, rep);
    ScanSubTail(ma, mb, a, b, 0, rep);
  }

  /** Rewriting the unsupported sequences of `a + b` rewrites those of `a`, then those of `b`. */
  lemma NormalizeConcat(a: string, b: string)
    requires OpensWithEsc(b)
    ensures Normalize(a + b) == Normalize(a) + Normalize(b)
    ensures OpensWithEsc(Normalize(b))
  {
    SubConcat(Unsupported, a, b, BOLD);
    if b != [] {
      RewriteKeepsEsc(b, 0);
    }
  }

  /** Deleting the SGR sequences of `a + b` deletes those of `a`, then those of `b`. */
  lemma CleanConcat(a: string, b: string)
    requires OpensWithEsc(b)
    ensures Clean(a + b) == Clean(a) + Clean(b)
  {
    CleanIsSub(a + b);
    CleanIsSub(a);
    CleanIsSub(b);
    SubConcat(Code, a, b, "");
  }

  // The correction table over two chunks.

  lemma {:induction false} EndsBeforeAppend(xs: seq<Span>, ys: seq<Span>, p: int)
    ensures EndsBefore(xs + ys, p) == if EndsBefore(xs, p) < |xs| then EndsBefore(xs, p) else |xs| + EndsBefore(ys, p)
    decreases |xs|
  {
    if xs == [] {
      assert xs + ys == ys;
    } else {
      assert (xs + ys)[0] == xs[0] && (xs + ys)[1..] == xs[1..] + ys;
      EndsBeforeAppend(xs[1..], ys, p);
    }
  }

  lemma {:induction false} EndsBeforeShift(cs: seq<Span>, d: int, q: int)
    ensures EndsBefore(ShiftRegions(cs, d), q + d) == EndsBefore(cs, q)
    decreases |cs|
  {
    if cs != [] {
      assert ShiftRegions(cs, d)[1..] == ShiftRegions(cs[1..], d);
      EndsBeforeShift(cs[1..], d, q);
    }
  }

  lemma {:induction false} CoveredAppend(xs: seq<Span>, ys: seq<Span>)
    ensures Covered(xs + ys) == Covered(xs) + Covered(ys)
    decreases |xs|
  {
    if xs == [] {
      assert xs + ys == ys;
    } else {
      assert (xs + ys)[0] == xs[0] && (xs + ys)[1..] == xs[1..] + ys;
      CoveredAppend(xs[1..], ys);
    }
  }

  lemma {:induction false} CoveredShift(cs: seq<Span>, d: int)
    ensures Covered(ShiftRegions(cs, d)) == Covered(cs)
    decreases |cs|
  {
    if cs != [] {
      assert ShiftRegions(cs, d)[1..] == ShiftRegions(cs[1..], d);
      CoveredShift(cs[1..], d);
    }
  }

  /** Up to the end of the first chunk, the second chunk's sequences do not move a point. */
  lemma CorrectedHead(ca: seq<Span>, cb: seq<Span>, n: int, m: int, p: int)
    requires Ordered(ca, 0, n) && Ordered(cb, 0, m) && p <= n
    ensures Corrected(ca + ShiftRegions(cb, n), p) == Corrected(ca, p)
  {
    var all, sb := ca + ShiftRegions(cb, n), ShiftRegions(cb, n);
    var e := EndsBefore(ca, p);
    EndsBeforeAppend(ca, sb, p);
    if e == |ca| && sb != [] {
      OrderedAll(cb, 0, m);
      assert p < sb[0].1;
    }
    assert all[..EndsBefore(all, p)] == ca[..e];
  }

  /** A point at or after the end of the text is past every sequence. */
  lemma {:induction false} EndsBeforeAll(cs: seq<Span>, lo: int, hi: int, p: int)
    requires Ordered(cs, lo, hi) && hi <= p
    ensures EndsBefore(cs, p) == |cs|
    decreases |cs|
  {
    if cs != [] {
      EndsBeforeAll(cs[1..], cs[0].1, hi, p);
    }
  }

  lemma PrefixOfAppend(ca: seq<Span>, cb: seq<Span>, n: int, f: nat)
    requires f <= |cb|
    ensures (ca + ShiftRegions(cb, n))[..|ca| + f] == ca + ShiftRegions(cb[..f], n)
  {
  }

  /** A point in the second chunk is past every sequence of the first and the earlier ones of its own. */
  lemma TailEndsBefore(all: seq<Span>, ca: seq<Span>, cb: seq<Span>, n: int, m: int, p: int, q: int, e: nat, f: nat)
    requires Ordered(ca, 0, n) && Ordered(cb, 0, m) && 0 <= q && all == ca + ShiftRegions(cb, n)
    requires p == n + q && f == EndsBefore(cb, q) && e == |ca| + f
    ensures EndsBefore(all, p) == e
  {
    EndsBeforeAll(ca, 0, n, n + q);
    EndsBeforeAppend(ca, ShiftRegions(cb, n), n + q);
    EndsBeforeShift(cb, n, q);
  }

  /** What the first chunk's sequences and the first `f` of the second's cover. */
  lemma TailCovered(all: seq<Span>, ca: seq<Span>, cb: seq<Span>, n: int, e: nat, f: nat)
    requires f <= |cb| && all == ca + ShiftRegions(cb, n) && e == |ca| + f
    ensures Covered(all[..e]) == Covered(ca) + Covered(cb[..f])
  {
    PrefixOfAppend(ca, cb, n, f);
    CoveredAppend(ca, ShiftRegions(cb[..f], n));
    CoveredShift(cb[..f], n);
  }

  /** In the second chunk, a point loses the first chunk's sequences and its own chunk's. */
  lemma CorrectedTail(ca: seq<Span>, cb: seq<Span>, n: int, m: int, q: int)
    requires Ordered(ca, 0, n) && Ordered(cb, 0, m) && 0 <= q
    ensures Corrected(ca + ShiftRegions(cb, n), n + q) == n - Covered(ca) + Corrected(cb, q)
  {
    var all, p, f := ca + ShiftRegions(cb, n), n + q, EndsBefore(cb, q);
    var e := |ca| + f;
    TailEndsBefore(all, ca, cb, n, m, p, q, e, f);
    TailCovered(all, ca, cb, n, e, f);
    CorrectedAt(all, p, e);
    CorrectedAt(cb, q, f);
    Rebase(Corrected(all, p), Corrected(cb, q), Covered(ca), Covered(cb[..f]), Covered(all[..e]), n, q);
  }

  /** The corrected position, given how many sequences end by it. */
  lemma CorrectedAt(codes: seq<Span>, p: int, e: nat)
    requires e == EndsBefore(codes, p)
    ensures Corrected(codes, p) == p - Covered(codes[..e])
  {
  }

  /** The arithmetic of `CorrectedTail`. */
  lemma Rebase(x: int, y: int, cx: int, cy: int, cxy: int, n: int, q: int)
    requires x == n + q - cxy && cxy == cx + cy && y == q - cy
    ensures x == n - cx + y
  {
  }

  /** One endpoint in the second chunk, `d` being what is left of the first chunk. */
  lemma CorrectedTailBy(ca: seq<Span>, cb: seq<Span>, n: int, m: int, d: int, q: int)
    requires Ordered(ca, 0, n) && Ordered(cb, 0, m) && 0 <= q && d == n - Covered(ca)
    ensures Corrected(ca + ShiftRegions(cb, n), q + n) == Corrected(cb, q) + d
  {
    CorrectedTail(ca, cb, n, m, q);
  }

  /** The bounds `Ordered` puts on one span. */
  lemma OrderedBounds(spans: seq<Span>, lo: int, hi: int, i: nat)
    requires Ordered(spans, lo, hi) && i < |spans|
    ensures lo <= spans[i].0 < spans[i].1 <= hi
  {
    OrderedAt(spans, lo, hi, i);
  }

  /** A position of corrected regions that falls in the first part of the regions. */
  lemma CorrectSpansPrefixAt(codes: seq<Span>, ra: seq<Span>, rb: seq<Span>, k: nat)
    requires k < |ra|
    ensures CorrectSpans(codes, ra + rb)[k] == (Corrected(codes, ra[k].0), Corrected(codes, ra[k].1))
  {
    assert (ra + rb)[k] == ra[k];
  }

  /** A position of corrected regions past the first part of a sequence followed by shifted regions. */
  lemma CorrectSpansShiftedAt(codes: seq<Span>, ra: seq<Span>, rb: seq<Span>, n: int, j: nat)
    requires j < |rb|
    ensures CorrectSpans(codes, ra + ShiftRegions(rb, n))[|ra| + j] == (Corrected(codes, rb[j].0 + n), Corrected(codes, rb[j].1 + n))
  {
    var shifted := ra + ShiftRegions(rb, n);
    assert shifted[|ra| + j] == (rb[j].0 + n, rb[j].1 + n);
  }

  /** A position of corrected regions followed by shifted corrected regions, past the first part. */
  lemma ShiftedCorrectSpansAt(cas: seq<Span>, cb: seq<Span>, rb: seq<Span>, d: int, j: nat)
    requires j < |rb|
    ensures (cas + ShiftRegions(CorrectSpans(cb, rb), d))[|cas| + j] == (Corrected(cb, rb[j].0) + d, Corrected(cb, rb[j].1) + d)
  {
    var cbs := CorrectSpans(cb, rb);
    assert cbs[j] == (Corrected(cb, rb[j].0), Corrected(cb, rb[j].1));
    assert (cas + ShiftRegions(cbs, d))[|cas| + j] == (cbs[j].0 + d, cbs[j].1 + d);
  }

  /**
   * Regions corrected with a table `codes` that, on the first part's endpoints, agrees
   * with `ca` and, on the second part's endpoints moved by `n`, with `cb` moved by `d`.
   */
  lemma CorrectSpansJoin(codes: seq<Span>, ca: seq<Span>, cb: seq<Span>, ra: seq<Span>, rb: seq<Span>, n: int, d: int)
    requires forall k :: 0 <= k < |ra| ==> Corrected(codes, ra[k].0) == Corrected(ca, ra[k].0)
    requires forall k :: 0 <= k < |ra| ==> Corrected(codes, ra[k].1) == Corrected(ca, ra[k].1)
    requires forall j :: 0 <= j < |rb| ==> Corrected(codes, rb[j].0 + n) == Corrected(cb, rb[j].0) + d
    requires forall j :: 0 <= j < |rb| ==> Corrected(codes, rb[j].1 + n) == Corrected(cb, rb[j].1) + d
    ensures CorrectSpans(codes, ra + ShiftRegions(rb, n)) == CorrectSpans(ca, ra) + ShiftRegions(CorrectSpans(cb, rb), d)
  {
    var l, r := CorrectSpans(codes, ra + ShiftRegions(rb, n)), CorrectSpans(ca, ra) + ShiftRegions(CorrectSpans(cb, rb), d);
    assert |CorrectSpans(ca, ra)| == |ra|;
    forall k | 0 <= k < |l|
      ensures l[k] == r[k]
    {
      if k < |ra| {
        CorrectSpansPrefixAt(codes, ra, ShiftRegions(rb, n), k);
        assert l[k] == (Corrected(codes, ra[k].0), Corrected(codes, ra[k].1));
        assert l[k] == (Corrected(ca, ra[k].0), Corrected(ca, ra[k].1));
        assert r[k] == CorrectSpans(ca, ra)[k];
        assert r[k] == (Corrected(ca, ra[k].0), Corrected(ca, ra[k].1));
      } else {
        var j := k - |ra|;
        CorrectSpansShiftedAt(codes, ra, rb, n, j);
        assert l[k] == (Corrected(codes, rb[j].0 + n), Corrected(codes, rb[j].1 + n));
        assert l[k] == (Corrected(cb, rb[j].0) + d, Corrected(cb, rb[j].1) + d);
        ShiftedCorrectSpansAt(CorrectSpans(ca, ra), cb, rb, d, j);
        assert r[k] == (Corrected(cb, rb[j].0) + d, Corrected(cb, rb[j].1) + d);
      }
    }
  }

  /** Spans ordered from a non-negative position have no negative endpoint. */
  lemma OrderedNonNegative(spans: seq<Span>, lo: int, hi: int)
    requires Ordered(spans, lo, hi) && 0 <= lo
    ensures NonNegative(spans)
  {
    forall k | 0 <= k < |spans|
      ensures 0 <= spans[k].0 && 0 <= spans[k].1
    {
      OrderedBounds(spans, lo, hi, k);
    }
  }

  /** The first chunk's region starts are corrected as its own table corrects them. */
  lemma HeadStarts(ca: seq<Span>, cb: seq<Span>, ra: seq<Span>, n: int, m: int)
    requires Ordered(ca, 0, n) && Ordered(cb, 0, m) && Ordered(ra, 0, n)
    ensures forall k :: 0 <= k < |ra| ==> Corrected(ca + ShiftRegions(cb, n), ra[k].0) == Corrected(ca, ra[k].0)
  {
    forall k | 0 <= k < |ra|
      ensures Corrected(ca + ShiftRegions(cb, n), ra[k].0) == Corrected(ca, ra[k].0)
    {
      OrderedBounds(ra, 0, n, k);
      CorrectedHead(ca, cb, n, m, ra[k].0);
    }
  }

  /** The first chunk's region ends are corrected as its own table corrects them. */
  lemma HeadEnds(ca: seq<Span>, cb: seq<Span>, ra: seq<Span>, n: int, m: int)
    requires Ordered(ca, 0, n) && Ordered(cb, 0, m) && Ordered(ra, 0, n)
    ensures forall k :: 0 <= k < |ra| ==> Corrected(ca + ShiftRegions(cb, n), ra[k].1) == Corrected(ca, ra[k].1)
  {
    forall k | 0 <= k < |ra|
      ensures Corrected(ca + ShiftRegions(cb, n), ra[k].1) == Corrected(ca, ra[k].1)
    {
      OrderedBounds(ra, 0, n, k);
      CorrectedHead(ca, cb, n, m, ra[k].1);
    }
  }

  /** The second chunk's region starts, moved by `n`, are corrected as its own table corrects them, then moved by `d`. */
  lemma TailStarts(ca: seq<Span>, cb: seq<Span>, rb: seq<Span>, n: int, m: int, d: int)
    requires Ordered(ca, 0, n) && Ordered(cb, 0, m) && NonNegative(rb) && d == n - Covered(ca)
    ensures forall j :: 0 <= j < |rb| ==> Corrected(ca + ShiftRegions(cb, n), rb[j].0 + n) == Corrected(cb, rb[j].0) + d
  {
    forall j | 0 <= j < |rb|
      ensures Corrected(ca + ShiftRegions(cb, n), rb[j].0 + n) == Corrected(cb, rb[j].0) + d
    {
      CorrectedTailBy(ca, cb, n, m, d, rb[j].0);
    }
  }

  /** The second chunk's region ends, moved by `n`, are corrected as its own table corrects them, then moved by `d`. */
  lemma TailEnds(ca: seq<Span>, cb: seq<Span>, rb: seq<Span>, n: int, m: int, d: int)
    requires Ordered(ca, 0, n) && Ordered(cb, 0, m) && NonNegative(rb) && d == n - Covered(ca)
    ensures forall j :: 0 <= j < |rb| ==> Corrected(ca + ShiftRegions(cb, n), rb[j].1 + n) == Corrected(cb, rb[j].1) + d
  {
    forall j | 0 <= j < |rb|
      ensures Corrected(ca + ShiftRegions(cb, n), rb[j].1 + n) == Corrected(cb, rb[j].1) + d
    {
      CorrectedTailBy(ca, cb, n, m, d, rb[j].1);
    }
  }

  /**
   * The regions of both chunks, corrected with the sequences of both: the first
   * chunk's regions as its own table corrects them, then the second chunk's, moved by
   * `d`, what is left of the first chunk.
   */
  lemma CorrectSpansConcat(ca: seq<Span>, cb: seq<Span>, ra: seq<Span>, rb: seq<Span>, n: int, m: int, d: int)
    requires Ordered(ca, 0, n) && Ordered(cb, 0, m) && Ordered(ra, 0, n) && Ordered(rb, 0, m) && d == n - Covered(ca)
    ensures CorrectSpans(ca + ShiftRegions(cb, n), ra + ShiftRegions(rb, n))
      == CorrectSpans(ca, ra) + ShiftRegions(CorrectSpans(cb, rb), d)
  {
    HeadStarts(ca, cb, ra, n, m);
    HeadEnds(ca, cb, ra, n, m);
    OrderedNonNegative(rb, 0, m);
    TailStarts(ca, cb, rb, n, m, d);
    TailEnds(ca, cb, rb, n, m, d);
    CorrectSpansJoin(ca + ShiftRegions(cb, n), ca, cb, ra, rb, n, d);
  }


  // The collected regions over two chunks.

  /** A scope's collected regions lie in the text, in order. */
  lemma GetFoundOrdered(defs: seq<AnsiDefinition>, t: string, scope: string)
    ensures Ordered(Get(Found(map[], defs, t), scope), 0, |t|)
  {
    if scope in Found(map[], defs, t) {
      var i := FoundOrigin(defs, t, scope);
    }
  }

  /**
   * With distinct scopes and pairs of SGR sequences as patterns, a scope is collected
   * over both chunks when it is collected over either, and its matches in `ta + tb`
   * are those in `ta`, then those in `tb` moved by `|ta|`.
   */
  lemma FoundScopeConcat(defs: seq<AnsiDefinition>, ta: string, tb: string, scope: string)
    requires TokenDefs(defs) && DistinctScopes(defs) && OpensWithEsc(tb) && NoTokenAtEnd(ta)
    ensures scope in Found(map[], defs, ta + tb) <==> scope in Found(map[], defs, ta) || scope in Found(map[], defs, tb)
    ensures Get(Found(map[], defs, ta + tb), scope)
      == Get(Found(map[], defs, ta), scope) + ShiftRegions(Get(Found(map[], defs, tb), scope), |ta|)
  {
    if i :| 0 <= i < |defs| && defs[i].scope == scope {
      FoundDistinct(defs, ta + tb, i);
      FoundDistinct(defs, ta, i);
      FoundDistinct(defs, tb, i);
      FindAllConcat(defs[i].regex, ta, tb);
    } else {
      FoundAbsent(map[], defs, ta + tb, scope);
      FoundAbsent(map[], defs, ta, scope);
      FoundAbsent(map[], defs, tb, scope);
    }
  }

  /**
   * Over two chunks, a scope's collected regions corrected with both chunks'
   * sequences, `d` being the length of the first chunk once cleaned.
   */
  lemma RegionsConcat(defs: seq<AnsiDefinition>, ta: string, tb: string, d: int, scope: string)
    requires TokenDefs(defs) && DistinctScopes(defs) && OpensWithEsc(tb) && NoTokenAtEnd(ta) && d == |Clean(ta)|
    ensures CorrectSpans(FindAll(Code, ta + tb, 0), Get(Found(map[], defs, ta + tb), scope))
      == CorrectSpans(FindAll(Code, ta, 0), Get(Found(map[], defs, ta), scope))
       + ShiftRegions(CorrectSpans(FindAll(Code, tb, 0), Get(Found(map[], defs, tb), scope)), d)
  {
    FoundScopeConcat(defs, ta, tb, scope);
    FindAllConcat(Code, ta, tb);
    GetFoundOrdered(defs, ta, scope);
    GetFoundOrdered(defs, tb, scope);
    var ra, rb := Get(Found(map[], defs, ta), scope), Get(Found(map[], defs, tb), scope);
    CleanLength(ta);
    CorrectSpansConcat(FindAll(Code, ta, 0), FindAll(Code, tb, 0), ra, rb, |ta|, |tb|, d);
  }

  /** With SGR sequences as codes, a scope's one-shot regions in terms of the unfiltered definitions. */
  lemma BatchScope(text: string, bgs: seq<ColorSetting>, fgs: seq<ColorSetting>, scope: string)
    requires TokenCodes(bgs) && TokenCodes(fgs)
    ensures var t := Normalize(text);
      && (scope in BatchRegions(text, bgs, fgs) <==> scope in Found(map[], Cross(bgs, fgs), t))
      && Get(BatchRegions(text, bgs, fgs), scope) == CorrectSpans(FindAll(Code, t, 0), Get(Found(map[], Cross(bgs, fgs), t), scope))
  {
    BatchFoundCross(text, bgs, fgs);
    BatchKeys(text, bgs, fgs);
  }

  /**
   * Where the second chunk may start: it is empty, or it opens with ESC and no SGR
   * sequence ends the first chunk's normalised text, so that neither a pair of codes
   * nor a run of sequences is split.
   */
  predicate Boundary(a: string, b: string) {
    b == [] || (b[0] == ESC && NoTokenAtEnd(Normalize(a)))
  }

  /**
   * One scope over two chunks split at a boundary: the one-shot regions of `a + b`
   * are those of `a`, then those of `b` moved by the length of `a` once cleaned.
   */
  lemma BatchScopeConcat(a: string, b: string, bgs: seq<ColorSetting>, fgs: seq<ColorSetting>, scope: string)
    requires TokenCodes(bgs) && TokenCodes(fgs) && DistinctScopes(Cross(bgs, fgs))
    requires b != [] && b[0] == ESC && NoTokenAtEnd(Normalize(a))
    ensures scope in BatchRegions(a + b, bgs, fgs) <==> scope in BatchRegions(a, bgs, fgs) || scope in BatchRegions(b, bgs, fgs)
    ensures Get(BatchRegions(a + b, bgs, fgs), scope)
      == Get(BatchRegions(a, bgs, fgs), scope) + ShiftRegions(Get(BatchRegions(b, bgs, fgs), scope), |Clean(Normalize(a))|)
  {
    var ta, tb, defs := Normalize(a), Normalize(b), Cross(bgs, fgs);
    NormalizeConcat(a, b);
    CrossTokens(bgs, fgs);
    FoundScopeConcat(defs, ta, tb, scope);
    RegionsConcat(defs, ta, tb, |Clean(ta)|, scope);
    BatchScope(a, bgs, fgs, scope);
    BatchScope(b, bgs, fgs, scope);
    BatchScope(a + b, bgs, fgs, scope);
  }

  /** One scope of the regions shifted by `d`. */
  lemma GetShiftScopes(m: map<string, seq<Span>>, d: int, scope: string)
    ensures scope in ShiftScopes(m, d) <==> scope in m
    ensures Get(ShiftScopes(m, d), scope) == ShiftRegions(Get(m, scope), d)
  {
  }

  /** Two region maps with the same scopes and the same regions in each are equal. */
  lemma SameScopes(x: map<string, seq<Span>>, y: map<string, seq<Span>>)
    requires forall scope :: scope in x <==> scope in y
    requires forall scope :: scope in x ==> Get(x, scope) == Get(y, scope)
    ensures x == y
  {
    assert x.Keys == y.Keys;
  }

  /** Empty output: no text and no regions. */
  lemma EmptyOutput(bgs: seq<ColorSetting>, fgs: seq<ColorSetting>)
    ensures Normalize([]) == [] && Clean([]) == []
    ensures BatchRegions([], bgs, fgs) == map[]
    ensures forall size :: ShiftScopes(map[], size) == map[]
  {
    var defs := AnsiDefinitions(bgs, fgs, Some([]));
    assert Normalize([]) == [];
    assert FindAll(Code, [], 0) == [];
    assert forall k :: 0 <= k < |defs| ==> FindAll(defs[k].regex, [], 0) == [];
    FoundNone(map[], defs, []);
  }

  /** Moving merged regions moves each part. */
  lemma ShiftMerge(x: map<string, seq<Span>>, y: map<string, seq<Span>>, d: int)
    ensures ShiftScopes(Merge(x, y), d) == Merge(ShiftScopes(x, d), ShiftScopes(y, d))
  {
    var l, r := ShiftScopes(Merge(x, y), d), Merge(ShiftScopes(x, d), ShiftScopes(y, d));
    forall scope
      ensures (scope in l <==> scope in r) && Get(l, scope) == Get(r, scope)
    {
      GetMerge(x, y, scope);
      GetMerge(ShiftScopes(x, d), ShiftScopes(y, d), scope);
      GetShiftScopes(Merge(x, y), d, scope);
      GetShiftScopes(x, d, scope);
      GetShiftScopes(y, d, scope);
      ShiftAppend(Get(x, scope), Get(y, scope), d);
    }
    SameScopes(l, r);
  }

  /** Two moves are one move by the sum. */
  lemma ShiftTwice(m: map<string, seq<Span>>, n: int, d: int)
    ensures ShiftScopes(ShiftScopes(m, n), d) == ShiftScopes(m, d + n)
  {
    var l, r := ShiftScopes(ShiftScopes(m, n), d), ShiftScopes(m, d + n);
    forall scope | scope in l
      ensures l[scope] == r[scope]
    {
      ShiftCompose(m[scope], n, d);
    }
  }

  /**
   * Over two chunks split where the second opens with ESC, the one-shot regions are
   * those of the first chunk merged with those of the second moved by the length of
   * the first once cleaned.
   */
  lemma BatchConcat(a: string, b: string, bgs: seq<ColorSetting>, fgs: seq<ColorSetting>)
    requires TokenCodes(bgs) && TokenCodes(fgs) && DistinctScopes(Cross(bgs, fgs))
    requires b != [] && b[0] == ESC && NoTokenAtEnd(Normalize(a))
    ensures BatchRegions(a + b, bgs, fgs)
      == Merge(BatchRegions(a, bgs, fgs), ShiftScopes(BatchRegions(b, bgs, fgs), |Clean(Normalize(a))|))
  {
    var n := |Clean(Normalize(a))|;
    var ra, rb := BatchRegions(a, bgs, fgs), BatchRegions(b, bgs, fgs);
    var l, r := BatchRegions(a + b, bgs, fgs), Merge(ra, ShiftScopes(rb, n));
    forall scope
      ensures (scope in l <==> scope in r) && Get(l, scope) == Get(r, scope)
    {
      BatchScopeConcat(a, b, bgs, fgs, scope);
      GetMerge(ra, ShiftScopes(rb, n), scope);
      GetShiftScopes(rb, n, scope);
    }
    SameScopes(l, r);
  }

  /** Regions glued as in the two-chunk theorem, moved by the view's size. */
  lemma Relocate(ra: map<string, seq<Span>>, rb: map<string, seq<Span>>, rab: map<string, seq<Span>>, size: int, n: int, after: int)
    requires rab == Merge(ra, ShiftScopes(rb, n)) && after == size + n
    ensures Merge(ShiftScopes(ra, size), ShiftScopes(rb, after)) == ShiftScopes(rab, size)
  {
    ShiftMerge(ra, ShiftScopes(rb, n), size);
    ShiftTwice(rb, n, size);
  }

  /** The two-chunk theorem when the second chunk opens with ESC. */
  lemma TwoChunksEsc(a: string, b: string, size: int, after: int, bgs: seq<ColorSetting>, fgs: seq<ColorSetting>)
    requires TokenCodes(bgs) && TokenCodes(fgs) && DistinctScopes(Cross(bgs, fgs))
    requires b != [] && b[0] == ESC && NoTokenAtEnd(Normalize(a))
    requires after == size + |Clean(Normalize(a))|
    ensures Merge(ShiftScopes(BatchRegions(a, bgs, fgs), size), ShiftScopes(BatchRegions(b, bgs, fgs), after))
      == ShiftScopes(BatchRegions(a + b, bgs, fgs), size)
  {
    BatchConcat(a, b, bgs, fgs);
    Relocate(BatchRegions(a, bgs, fgs), BatchRegions(b, bgs, fgs), BatchRegions(a + b, bgs, fgs), size, |Clean(Normalize(a))|, after);
  }

  /**
   * Two chunks split at a boundary: the regions the view gets for the first chunk and
   * then for the second, each moved to where it lands (the second at `after`, the
   * view's size once the first chunk, cleaned, is in), are the one-shot regions of the whole output moved
   * by the view's size.
   */
  lemma TwoChunks(a: string, b: string, size: int, after: int, bgs: seq<ColorSetting>, fgs: seq<ColorSetting>)
    requires TokenCodes(bgs) && TokenCodes(fgs) && DistinctScopes(Cross(bgs, fgs)) && Boundary(a, b)
    requires after == size + |Clean(Normalize(a))|
    ensures Merge(ShiftScopes(BatchRegions(a, bgs, fgs), size), ShiftScopes(BatchRegions(b, bgs, fgs), after))
      == ShiftScopes(BatchRegions(a + b, bgs, fgs), size)
  {
    if b == [] {
      assert a + b == a;
      EmptyOutput(bgs, fgs);
      MergeNothing(ShiftScopes(BatchRegions(a, bgs, fgs), size));
    } else {
      TwoChunksEsc(a, b, size, after, bgs, fgs);
    }
  }

  // Any number of chunks.

  /** The chunks laid end to end: the whole build output. */
  function Concat(chunks: seq<string>): string
    decreases |chunks|
  {
    if chunks == [] then [] else chunks[0] + Concat(chunks[1..])
  }

  /** The text the view receives: each chunk normalised and without escape sequences. */
  function StreamText(chunks: seq<string>): string
    decreases |chunks|
  {
    if chunks == [] then [] else Clean(Normalize(chunks[0])) + StreamText(chunks[1..])
  }

  /**
   * The view's regions once it has merged each chunk's regions in turn, each chunk
   * moved by the size of the view when the chunk arrives.
   */
  function StreamAll(regions: map<string, seq<Span>>, size: int, chunks: seq<string>, bgs: seq<ColorSetting>, fgs: seq<ColorSetting>): map<string, seq<Span>>
    decreases |chunks|, 1
  {
    if chunks == [] then regions else StreamFrom(regions, size, chunks[0], chunks[1..], bgs, fgs)
  }

  /** The view's regions once chunk `c` arrives, then the chunks in `rest`. */
  function StreamFrom(regions: map<string, seq<Span>>, size: int, c: string, rest: seq<string>, bgs: seq<ColorSetting>, fgs: seq<ColorSetting>): map<string, seq<Span>>
    decreases |rest| + 1, 0
  {
    StreamAll(Merge(regions, StreamRegions(c, size, bgs, fgs)), size + |Clean(Normalize(c))|, rest, bgs, fgs)
  }

  /** Every chunk but the last ends at a boundary with the output after it. */
  predicate SplitAtSequences(chunks: seq<string>) {
    forall i :: 0 <= i < |chunks| - 1 ==> Boundary(chunks[i], Concat(chunks[i + 1..]))
  }

  /** Adding `x`, then `y`, where the two together are `z`, is adding `z`. */
  lemma MergeChain(regions: map<string, seq<Span>>, x: map<string, seq<Span>>, y: map<string, seq<Span>>, z: map<string, seq<Span>>)
    requires Merge(x, y) == z
    ensures Merge(Merge(regions, x), y) == Merge(regions, z)
  {
    MergeTwice(regions, x, y);
  }

  /** The text the view receives for one chunk followed by the rest of the output. */
  lemma TextAfter(a: string, b: string)
    requires Boundary(a, b)
    ensures Clean(Normalize(a)) + Clean(Normalize(b)) == Clean(Normalize(a + b))
  {
    if b == [] {
      assert a + b == a;
      EmptyOutput([], []);
      assert Clean(Normalize(a)) + [] == Clean(Normalize(a));
    } else {
      NormalizeConcat(a, b);
      CleanConcat(Normalize(a), Normalize(b));
    }
  }

  /** A split list of chunks stays split once its first chunk is taken off. */
  lemma SplitRest(chunks: seq<string>)
    requires chunks != [] && SplitAtSequences(chunks)
    ensures SplitAtSequences(chunks[1..])
  {
    var rest := chunks[1..];
    forall i | 0 <= i < |rest| - 1
      ensures Boundary(rest[i], Concat(rest[i + 1..]))
    {
      assert rest[i] == chunks[i + 1] && rest[i + 1..] == chunks[i + 2..];
    }
  }

  /** Chunks split at boundaries give the view the text the one-shot path gives for the whole output. */
  lemma {:induction false} ChunksText(chunks: seq<string>)
    requires SplitAtSequences(chunks)
    ensures StreamText(chunks) == Clean(Normalize(Concat(chunks)))
    decreases |chunks|
  {
    if chunks == [] {
      EmptyOutput([], []);
    } else {
      var c, rest := chunks[0], chunks[1..];
      SplitRest(chunks);
      ChunksText(rest);
      ChunkBoundary(chunks);
      TextAfter(c, Concat(rest));
    }
  }

  /** The first chunk of a split list ends at a boundary with the rest. */
  lemma ChunkBoundary(chunks: seq<string>)
    requires chunks != [] && SplitAtSequences(chunks)
    ensures Boundary(chunks[0], Concat(chunks[1..]))
  {
    if |chunks| == 1 {
      assert chunks[1..] == [];
    } else {
      assert Boundary(chunks[0], Concat(chunks[0 + 1..]));
    }
  }

  /** One step of the stream's regions: the first chunk's regions are merged, then the rest. */
  lemma StreamAllUnfold(regions: map<string, seq<Span>>, size: int, chunks: seq<string>, json: map<string, seq<Span>>, n: int, bgs: seq<ColorSetting>, fgs: seq<ColorSetting>)
    requires chunks != [] && json == StreamRegions(chunks[0], size, bgs, fgs) && n == |Clean(Normalize(chunks[0]))|
    ensures StreamAll(regions, size, chunks, bgs, fgs) == StreamAll(Merge(regions, json), size + n, chunks[1..], bgs, fgs)
  {
    var merged := Merge(regions, json);
    assert Merge(regions, StreamRegions(chunks[0], size, bgs, fgs)) == merged;
  }

  /** The stream's regions from equal regions, sizes and chunks are equal. */
  lemma StreamAllSame(r: map<string, seq<Span>>, r': map<string, seq<Span>>, size: int, size': int, chunks: seq<string>, chunks': seq<string>, bgs: seq<ColorSetting>, fgs: seq<ColorSetting>)
    requires r == r' && size == size' && chunks == chunks'
    ensures StreamAll(r, size, chunks, bgs, fgs) == StreamAll(r', size', chunks', bgs, fgs)
  {
  }

  /** No chunks leave the view's regions as they were, as the one-shot path does for no output. */
  lemma NoChunks(regions: map<string, seq<Span>>, size: int, bgs: seq<ColorSetting>, fgs: seq<ColorSetting>)
    ensures StreamAll(regions, size, [], bgs, fgs) == Merge(regions, ShiftScopes(BatchRegions(Concat([]), bgs, fgs), size))
  {
    EmptyOutput(bgs, fgs);
    MergeNothing(regions);
  }

  /** The colour settings under which the streaming path and the one-shot path agree. */
  predicate Streamable(bgs: seq<ColorSetting>, fgs: seq<ColorSetting>) {
    TokenCodes(bgs) && TokenCodes(fgs) && DistinctScopes(Cross(bgs, fgs))
  }

  /** The two-chunk theorem for the whole output `whole` and the view's size `after` once the first chunk is in. */
  lemma TwoChunksAt(a: string, b: string, whole: string, size: int, after: int, bgs: seq<ColorSetting>, fgs: seq<ColorSetting>)
    requires Streamable(bgs, fgs) && Boundary(a, b)
    requires whole == a + b && after == size + |Clean(Normalize(a))|
    ensures Merge(ShiftScopes(BatchRegions(a, bgs, fgs), size), ShiftScopes(BatchRegions(b, bgs, fgs), after))
      == ShiftScopes(BatchRegions(whole, bgs, fgs), size)
  {
    TwoChunks(a, b, size, after, bgs, fgs);
    assert ShiftScopes(BatchRegions(whole, bgs, fgs), size) == ShiftScopes(BatchRegions(a + b, bgs, fgs), size);
  }

  /** The first chunk's regions, on the streaming path, are its one-shot regions moved by the view's size. */
  lemma StreamFirst(regions: map<string, seq<Span>>, size: int, chunks: seq<string>, inner: map<string, seq<Span>>, after: int, rest: seq<string>, bgs: seq<ColorSetting>, fgs: seq<ColorSetting>)
    requires Streamable(bgs, fgs) && chunks != [] && rest == chunks[1..]
    requires inner == Merge(regions, ShiftScopes(BatchRegions(chunks[0], bgs, fgs), size)) && after == size + |Clean(Normalize(chunks[0]))|
    ensures StreamAll(regions, size, chunks, bgs, fgs) == StreamAll(inner, after, rest, bgs, fgs)
  {
    var c := chunks[0];
    var json, n := ShiftScopes(BatchRegions(c, bgs, fgs), size), |Clean(Normalize(c))|;
    StreamingMatchesBatch(c, size, bgs, fgs);
    StreamAllUnfold(regions, size, chunks, json, n, bgs, fgs);
    StreamAllSame(Merge(regions, json), inner, size + n, after, chunks[1..], rest, bgs, fgs);
  }

  /** The first chunk's one-shot regions, then the rest's, are the one-shot regions of all the chunks. */
  lemma BatchFirst(regions: map<string, seq<Span>>, size: int, chunks: seq<string>, inner: map<string, seq<Span>>, after: int, rest: seq<string>, bgs: seq<ColorSetting>, fgs: seq<ColorSetting>)
    requires Streamable(bgs, fgs) && chunks != [] && SplitAtSequences(chunks) && rest == chunks[1..]
    requires inner == Merge(regions, ShiftScopes(BatchRegions(chunks[0], bgs, fgs), size)) && after == size + |Clean(Normalize(chunks[0]))|
    ensures Merge(inner, ShiftScopes(BatchRegions(Concat(rest), bgs, fgs), after)) == Merge(regions, ShiftScopes(BatchRegions(Concat(chunks), bgs, fgs), size))
  {
    var c, tail, whole := chunks[0], Concat(rest), Concat(chunks);
    var x, y, z := ShiftScopes(BatchRegions(c, bgs, fgs), size), ShiftScopes(BatchRegions(tail, bgs, fgs), after), ShiftScopes(BatchRegions(whole, bgs, fgs), size);
    ChunkBoundary(chunks);
    TwoChunksAt(c, tail, whole, size, after, bgs, fgs);
    MergeChain(regions, x, y, z);
  }

  /**
   * Chunks split at boundaries give the view the regions the one-shot path gives for
   * the whole output: every scope holding, after the regions the view had, its regions
   * over the whole output moved by the view's size.
   */
  lemma {:induction false} ChunksMatchBatch(regions: map<string, seq<Span>>, size: int, chunks: seq<string>, bgs: seq<ColorSetting>, fgs: seq<ColorSetting>)
    requires Streamable(bgs, fgs) && SplitAtSequences(chunks)
    ensures StreamAll(regions, size, chunks, bgs, fgs) == Merge(regions, ShiftScopes(BatchRegions(Concat(chunks), bgs, fgs), size))
    decreases |chunks|
  {
    if chunks == [] {
      NoChunks(regions, size, bgs, fgs);
    } else {
      var c, rest := chunks[0], chunks[1..];
      var inner := Merge(regions, ShiftScopes(BatchRegions(c, bgs, fgs), size));
      var after := size + |Clean(Normalize(c))|;
      SplitRest(chunks);
      ChunksMatchBatch(inner, after, rest, bgs, fgs);
      StreamFirst(regions, size, chunks, inner, after, rest, bgs, fgs);
      BatchFirst(regions, size, chunks, inner, after, rest, bgs, fgs);
    }
  }

  /** One step of the stream's text: the first chunk's output arrives, then the rest. */
  lemma StreamTextStep(text: string, chunks: seq<string>, out: string)
    requires chunks != [] && out == Clean(Normalize(chunks[0]))
    ensures text + StreamText(chunks) == (text + out) + StreamText(chunks[1..])
  {
    assert text + (out + StreamText(chunks[1..])) == (text + out) + StreamText(chunks[1..]);
  }

  /** One step of the stream's regions as the view sees it: its text grows by the chunk's output. */
  lemma StreamAllStep(text: string, regions: map<string, seq<Span>>, chunks: seq<string>, out: string, json: map<string, seq<Span>>, bgs: seq<ColorSetting>, fgs: seq<ColorSetting>)
    requires chunks != [] && out == Clean(Normalize(chunks[0])) && json == StreamRegions(chunks[0], |text|, bgs, fgs)
    ensures StreamAll(regions, |text|, chunks, bgs, fgs) == StreamAll(Merge(regions, json), |text + out|, chunks[1..], bgs, fgs)
  {
    var merged := Merge(regions, json);
    assert Merge(regions, StreamRegions(chunks[0], |text|, bgs, fgs)) == merged;
    assert |text| + |Clean(Normalize(chunks[0]))| == |text + out|;
  }

  /**
   * A build whose output arrives in `chunks`, each handed to `on_data_process` with
   * the view's size at that moment: the view receives the cleaned chunks and merges
   * each chunk's regions. Split at boundaries, the result is the one-shot result.
   */
  method OnChunks(view: View, chunks: seq<string>, bgs: seq<ColorSetting>, fgs: seq<ColorSetting>)
    modifies view
    ensures view.text == old(view.text) + StreamText(chunks)
    ensures view.regions == StreamAll(old(view.regions), |old(view.text)|, chunks, bgs, fgs)
  {
    ghost var text0, regions0 := view.text, view.regions;
    assert chunks[0..] == chunks;
    for n := 0 to |chunks|
      invariant view.text + StreamText(chunks[n..]) == text0 + StreamText(chunks)
      invariant StreamAll(view.regions, |view.text|, chunks[n..], bgs, fgs) == StreamAll(regions0, |text0|, chunks, bgs, fgs)
    {
      ghost var text, regions, rest := view.text, view.regions, chunks[n..];
      assert rest[0] == chunks[n] && rest[1..] == chunks[n + 1..];
      var out, json := OnDataProcess(chunks[n], |view.text|, bgs, fgs);
      view.Append(out);
      view.ColorizeRegions(json);
      StreamTextStep(text, rest, out);
      StreamAllStep(text, regions, rest, out, json, bgs, fgs);
    }
    assert chunks[|chunks|..] == [];
  }
}
