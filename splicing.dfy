/**
 * Replacing a list of disjoint spans of a text.
 *
 * The one-shot path edits the buffer in place: it collects the matches first and
 * then replaces (or erases) them from the last to the first, so that a replacement
 * never moves a match that is still to be processed. The streaming path calls
 * `re.sub`. Both mean `Splice`: the gaps between the spans kept in order and every
 * span replaced by the same text.
 */
module Splicing {
  import opened Scanner

  /** `s[pos..]` with every span of `spans` replaced by `rep`. */
  function Splice(s: string, spans: seq<Span>, pos: int, rep: string): string
    requires 0 <= pos <= |s| && Ordered(spans, pos, |s|)
    decreases |spans|
  {
    if spans == [] then s[pos..]
    else s[pos..spans[0].0] + rep + Splice(s, spans[1..], spans[0].1, rep)
  }

  /** Characters before the first span are copied unchanged. */
  lemma SpliceSkip(s: string, spans: seq<Span>, pos: int, pos': int, rep: string)
    requires 0 <= pos <= pos' <= |s| && Ordered(spans, pos', |s|)
    ensures Ordered(spans, pos, |s|)
    ensures Splice(s, spans, pos, rep) == s[pos..pos'] + Splice(s, spans, pos', rep)
  {
    if spans != [] {
      assert s[pos..spans[0].0] == s[pos..pos'] + s[pos'..spans[0].0];
    } else {
      assert s[pos..] == s[pos..pos'] + s[pos'..];
    }
  }

  /**
   * Length accounting: every span loses its own length and gains the length of the
   * replacement.
   */
  lemma {:induction false} SpliceLength(s: string, spans: seq<Span>, pos: int, rep: string)
    requires 0 <= pos <= |s| && Ordered(spans, pos, |s|)
    ensures |Splice(s, spans, pos, rep)| == |s| - pos - Covered(spans) + |spans| * |rep|
    decreases |spans|
  {
    if spans != [] {
      SpliceLength(s, spans[1..], spans[0].1, rep);
      assert |spans| * |rep| == (|spans| - 1) * |rep| + |rep|;
    }
  }

  /**
   * `re.sub` is the splice of the spans `re.finditer` reports for the same pattern,
   * so the streaming path's `re.sub` and the one-shot path's find-then-replace loops
   * build the same text.
   */
  lemma SubIsSplice(p: Pattern, s: string, i: nat, rep: string)
    requires i <= |s|
    ensures Sub(p, s, i, rep) == Splice(s, FindAll(p, s, i), i, rep)
  {
    ScanSubIsSplice(Lengths(p, s), s, i, rep);
  }

  lemma {:induction false} ScanSubIsSplice(m: seq<nat>, s: string, i: nat, rep: string)
    requires |m| == |s| && i <= |s| && Fits(m)
    ensures ScanSub(m, s, i, rep) == Splice(s, Scan(m, i), i, rep)
    decreases |s| - i
  {
    if i < |s| {
      ScanSubIsSplice(m, s, if m[i] > 0 then i + m[i] else i + 1, rep);
      ScanStep(m, i);
      if m[i] > 0 {
        var rest := Scan(m, i + m[i]);
        assert ([(i, i + m[i])] + rest)[1..] == rest;
        assert s[i..i] + rep + Splice(s, rest, i + m[i], rep) == rep + Splice(s, rest, i + m[i], rep);
      } else {
        SpliceSkip(s, Scan(m, i + 1), i, i + 1, rep);
        assert s[i..i + 1] == [s[i]];
      }
    }
  }

  /** Where the not yet processed spans begin: the start of span `i`, or the end of the text. */
  function Frontier(s: string, spans: seq<Span>, i: nat): int
    requires i <= |spans|
  {
    if i < |spans| then spans[i].0 else |s|
  }

  /** The buffer before `a` and from `b` on, when it is `s` up to `f` and then `tail`. */
  lemma BufferParts(s: string, t: string, a: int, b: int, f: int, tail: string)
    requires 0 <= a <= b <= f <= |s| && t == s[..f] + tail
    ensures t[..a] == s[..a] && t[b..] == s[b..f] + tail
  {
  }

  /** An edit with nothing in front of the replacement. */
  lemma JoinEdit(pre: string, rep: string, u: string, gap: string, spliced: string)
    requires gap == [] && spliced == gap + rep + u
    ensures pre + rep + u == pre + spliced
  {
    assert gap + rep == rep;
  }

  /**
   * One edit of the backward loop: with the buffer spliced from the start of span
   * `i + 1` on, replacing span `i` splices it from the start of span `i` on.
   */
  lemma SpliceBack(s: string, spans: seq<Span>, i: nat, t: string, rep: string)
    requires i < |spans| && Ordered(spans, 0, |s|)
    requires 0 <= Frontier(s, spans, i + 1) <= |s| && Ordered(spans[i + 1..], Frontier(s, spans, i + 1), |s|)
    requires t == s[..Frontier(s, spans, i + 1)] + Splice(s, spans[i + 1..], Frontier(s, spans, i + 1), rep)
    ensures 0 <= spans[i].0 <= spans[i].1 <= |t| && Ordered(spans[i..], spans[i].0, |s|)
    ensures t[..spans[i].0] + rep + t[spans[i].1..] == s[..spans[i].0] + Splice(s, spans[i..], spans[i].0, rep)
  {
    var f := Frontier(s, spans, i + 1);
    var tail := Splice(s, spans[i + 1..], f, rep);
    OrderedAt(spans, 0, |s|, i);
    var (a, b) := spans[i];
    assert spans[i..][1..] == spans[i + 1..];
    SpliceSkip(s, spans[i + 1..], b, f, rep);
    BufferParts(s, t, a, b, f, tail);
    JoinEdit(s[..a], rep, s[b..f] + tail, s[a..a], Splice(s, spans[i..], a, rep));
  }

  /**
   * The editor's loop `for r in reversed(spans): view.replace(edit, r, rep)`, and with
   * `rep == ""` the loop `for r in reversed(spans): view.erase(edit, r)`. The buffer is
   * a local sequence that the loop rewrites.
   */
  method ReplaceReversed(s: string, spans: seq<Span>, rep: string) returns (t: string)
    requires Ordered(spans, 0, |s|)
    ensures t == Splice(s, spans, 0, rep)
  {
    t := s;
    var i := |spans|;
    while i > 0
      invariant 0 <= i <= |spans|
      invariant 0 <= Frontier(s, spans, i) <= |s|
      invariant Ordered(spans[i..], Frontier(s, spans, i), |s|)
      invariant t == s[..Frontier(s, spans, i)] + Splice(s, spans[i..], Frontier(s, spans, i), rep)
    {
      i := i - 1;
      SpliceBack(s, spans, i, t, rep);
      t := t[..spans[i].0] + rep + t[spans[i].1..];
    }
    assert spans[0..] == spans;
  }

  /** How many positions of `[0, p)` the span `sp` covers. */
  function Overlap(sp: Span, p: int): int {
    if p <= sp.0 then 0 else if p < sp.1 then p - sp.0 else sp.1 - sp.0
  }

  /** How many positions before `p` the spans cover: what deleting them removes before `p`. */
  function Removed(spans: seq<Span>, p: int): int
    decreases |spans|
  {
    if spans == [] then 0 else Overlap(spans[0], p) + Removed(spans[1..], p)
  }

  /** Nothing is removed before a position that precedes every span. */
  lemma {:induction false} RemovedZero(spans: seq<Span>, lo: int, hi: int, p: int)
    requires Ordered(spans, lo, hi) && (spans != [] ==> p <= spans[0].0)
    ensures Removed(spans, p) == 0
    decreases |spans|
  {
    if spans != [] {
      RemovedZero(spans[1..], spans[0].1, hi, p);
    }
  }

  /** Spans inside [lo, hi] remove at most the positions between `lo` and `p`. */
  lemma {:induction false} RemovedBound(spans: seq<Span>, lo: int, hi: int, p: int)
    requires Ordered(spans, lo, hi) && lo <= p
    ensures 0 <= Removed(spans, p) <= p - lo
    decreases |spans|
  {
    if spans != [] {
      if p <= spans[0].1 {
        RemovedZero(spans[1..], spans[0].1, hi, p);
      } else {
        RemovedBound(spans[1..], spans[0].1, hi, p);
      }
    }
  }

  /** The removed count grows with the position, and never faster than the position. */
  lemma {:induction false} RemovedMono(spans: seq<Span>, lo: int, hi: int, p: int, q: int)
    requires Ordered(spans, lo, hi) && p <= q
    ensures Removed(spans, p) <= Removed(spans, q) <= Removed(spans, p) + (q - p)
    decreases |spans|
  {
    if spans != [] {
      var a, b := spans[0].0, spans[0].1;
      if q <= b {
        RemovedZero(spans[1..], b, hi, p);
        RemovedZero(spans[1..], b, hi, q);
      } else if p <= b {
        RemovedZero(spans[1..], b, hi, p);
        RemovedBound(spans[1..], b, hi, q);
      } else {
        RemovedMono(spans[1..], b, hi, p, q);
      }
    }
  }

  /**
   * Where position `p` of the text lands once the spans are deleted: a stretch
   * `[p, q)` that no span touches is copied whole, to `p - Removed(spans, p)`.
   */
  lemma {:induction false} SpliceWindow(s: string, spans: seq<Span>, pos: int, p: int, q: int)
    requires 0 <= pos <= p <= q <= |s| && Ordered(spans, pos, |s|)
    requires Removed(spans, p) == Removed(spans, q)
    ensures var out := Splice(s, spans, pos, ""); var i := p - pos - Removed(spans, p);
      0 <= i && i + (q - p) <= |out| && out[i..i + (q - p)] == s[p..q]
    decreases |spans|, 1
  {
    if spans == [] {
      assert s[pos..][p - pos..q - pos] == s[p..q];
    } else if spans[0].1 <= p {
      SpliceWindowPast(s, spans, pos, p, q);
    } else {
      SpliceWindowBefore(s, spans, pos, p, q);
    }
  }

  /** The step of `SpliceWindow` for a stretch that starts before the end of the first span. */
  lemma SpliceWindowBefore(s: string, spans: seq<Span>, pos: int, p: int, q: int)
    requires 0 <= pos <= p <= q <= |s| && Ordered(spans, pos, |s|)
    requires Removed(spans, p) == Removed(spans, q)
    requires spans != [] && p < spans[0].1
    ensures var out := Splice(s, spans, pos, ""); var i := p - pos - Removed(spans, p);
      0 <= i && i + (q - p) <= |out| && out[i..i + (q - p)] == s[p..q]
  {
    var a, b := spans[0].0, spans[0].1;
    var rest := spans[1..];
    var head := s[pos..a];
    var out' := Splice(s, rest, b, "");
    assert Splice(s, spans, pos, "") == head + out' by {
      assert head + "" + out' == head + out';
    }
    RemovedZero(rest, b, |s|, p);
    if q <= a {
      RemovedZero(rest, b, |s|, q);
      assert Removed(spans, p) == 0 && Removed(spans, q) == 0;
      HeadWindow(s, out', pos, a, p, q);
    } else {
      RemovedMono(rest, b, |s|, p, q);
      assert p == q;
      SpliceLength(s, rest, b, "");
    }
  }

  /** The step of `SpliceWindow` for a stretch that lies past the first span. */
  lemma {:induction false} SpliceWindowPast(s: string, spans: seq<Span>, pos: int, p: int, q: int)
    requires 0 <= pos <= p <= q <= |s| && Ordered(spans, pos, |s|)
    requires Removed(spans, p) == Removed(spans, q)
    requires spans != [] && spans[0].1 <= p
    ensures var out := Splice(s, spans, pos, ""); var i := p - pos - Removed(spans, p);
      0 <= i && i + (q - p) <= |out| && out[i..i + (q - p)] == s[p..q]
    decreases |spans|, 0
  {
    var a, b := spans[0].0, spans[0].1;
    var rest := spans[1..];
    var head := s[pos..a];
    var out' := Splice(s, rest, b, "");
    assert Splice(s, spans, pos, "") == head + out' by {
      assert head + "" + out' == head + out';
    }
    assert Removed(spans, p) == (b - a) + Removed(rest, p);
    assert Removed(spans, q) == (b - a) + Removed(rest, q);
    SpliceWindow(s, rest, b, p, q);
    SliceRight(head, out', p - b - Removed(rest, p), q - p);
  }

  /** A stretch before the first span is copied from the text before it. */
  lemma HeadWindow(s: string, out': string, pos: int, a: int, p: int, q: int)
    requires 0 <= pos <= p <= q <= a <= |s|
    ensures (s[pos..a] + out')[p - pos..q - pos] == s[p..q]
  {
    var head := s[pos..a];
    SliceLeft(head, out', p - pos, q - pos);
    var w, v := head[p - pos..q - pos], s[p..q];
    assert forall k :: 0 <= k < |w| ==> w[k] == v[k];
    assert w == v;
  }

  lemma SliceRight(x: string, y: string, i: int, n: int)
    requires 0 <= i && 0 <= n && i + n <= |y|
    ensures (x + y)[|x| + i..|x| + i + n] == y[i..i + n]
  {
  }

  lemma SliceLeft(x: string, y: string, i: int, j: int)
    requires 0 <= i <= j <= |x|
    ensures (x + y)[i..j] == x[i..j]
  {
  }

  /** `p` lies between span `c - 1` and span `c`. */
  predicate Splits(spans: seq<Span>, c: nat, p: int) {
    c <= |spans| && (c > 0 ==> spans[c - 1].1 <= p) && (c < |spans| ==> p <= spans[c].0)
  }

  /** At a position between two spans, the removed count is the size of the spans before it. */
  lemma {:induction false} RemovedSplit(spans: seq<Span>, lo: int, hi: int, c: nat, p: int)
    requires Ordered(spans, lo, hi) && Splits(spans, c, p)
    ensures Removed(spans, p) == Covered(spans[..c])
    decreases c
  {
    if c == 0 {
      RemovedZero(spans, lo, hi, p);
    } else {
      var rest := spans[1..];
      if c > 1 {
        OrderedAt(rest, spans[0].1, hi, c - 2);
      }
      RemovedSplit(rest, spans[0].1, hi, c - 1, p);
      assert spans[..c][1..] == rest[..c - 1];
    }
  }

  /** Where the pattern matches nowhere from `i` on, `re.sub` returns the text unchanged. */
  lemma SubNoMatch(p: Pattern, s: string, i: nat, rep: string)
    requires i <= |s|
    requires forall k :: i <= k < |s| ==> MatchLen(p, s, k) == 0
    ensures Sub(p, s, i, rep) == s[i..]
  {
    ScanSubNoMatch(Lengths(p, s), s, i, rep);
  }

  lemma {:induction false} ScanSubNoMatch(m: seq<nat>, s: string, i: nat, rep: string)
    requires |m| == |s| && i <= |s| && Fits(m)
    requires forall k :: i <= k < |s| ==> m[k] == 0
    ensures ScanSub(m, s, i, rep) == s[i..]
    decreases |s| - i
  {
    if i < |s| {
      ScanSubNoMatch(m, s, i + 1, rep);
      assert s[i..] == [s[i]] + s[i + 1..];
    }
  }
}
