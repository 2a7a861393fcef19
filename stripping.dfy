/**
 * Removing the SGR sequences. The one-shot path erases every single sequence
 * `ESC[[0-9;]*m`, from the last to the first; the streaming path removes maximal runs
 * `(ESC[[0-9;]*m)+` with `re.sub`. Both give `Clean`.
 */
module Stripping {
  import opened Scanner
  import opened Splicing

  /** The text with every SGR sequence `re.finditer` reports deleted. */
  function Clean(s: string): string {
    Splice(s, FindAll(Code, s, 0), 0, "")
  }

  /** The removed length is exactly the total length of the removed sequences. */
  lemma CleanLength(s: string)
    ensures |Clean(s)| == |s| - Covered(FindAll(Code, s, 0))
  {
    SpliceLength(s, FindAll(Code, s, 0), 0, "");
  }

  /** Erasing the sequences one by one is `re.sub` with an empty replacement. */
  lemma CleanIsSub(s: string)
    ensures Clean(s) == Sub(Code, s, 0, "")
  {
    SubIsSplice(Code, s, 0, "");
  }

  /** Text without ESC is left as it is. */
  lemma CleanPlain(s: string)
    requires forall k :: 0 <= k < |s| ==> s[k] != ESC
    ensures Clean(s) == s
  {
    CleanIsSub(s);
    forall k | 0 <= k < |s|
      ensures MatchLen(Code, s, k) == 0
    {
      assert TokenLen(s, k) == 0;
    }
    SubNoMatch(Code, s, 0, "");
  }

  /**
   * Every character outside the removed sequences survives, at `p - Removed(codes, p)`,
   * and two surviving characters keep their order.
   */
  lemma CleanKeeps(s: string, p: nat, q: nat)
    requires p < q < |s|
    requires Removed(FindAll(Code, s, 0), p) == Removed(FindAll(Code, s, 0), p + 1)
    requires Removed(FindAll(Code, s, 0), q) == Removed(FindAll(Code, s, 0), q + 1)
    ensures var codes := FindAll(Code, s, 0);
      var i, j := p - Removed(codes, p), q - Removed(codes, q);
      0 <= i < j < |Clean(s)| && Clean(s)[i] == s[p] && Clean(s)[j] == s[q]
  {
    var codes := FindAll(Code, s, 0);
    SpliceWindow(s, codes, 0, p, p + 1);
    SpliceWindow(s, codes, 0, q, q + 1);
    RemovedMono(codes, 0, |s|, p + 1, q);
  }

  /** Within one run the single-sequence scan deletes what the run scan deletes. */
  lemma {:induction false} SubRunStep(s: string, i: nat)
    requires i <= |s|
    ensures Sub(Code, s, i, "") == Sub(Code, s, RunEnd(s, i), "")
    decreases |s| - i
  {
    var n := TokenLen(s, i);
    if n > 0 {
      SubRunStep(s, i + n);
      SubStep(Code, s, i, "");
      assert RunEnd(s, i) == RunEnd(s, i + n);
      assert "" + Sub(Code, s, i + n, "") == Sub(Code, s, i + n, "");
    }
  }

  /** Removing maximal runs at once gives the same text as removing single sequences. */
  lemma {:induction false} RunsThenSingles(s: string, i: nat)
    requires i <= |s|
    ensures Sub(CodeRun, s, i, "") == Sub(Code, s, i, "")
    decreases |s| - i
  {
    if i < |s| {
      var e := RunEnd(s, i);
      if e > i {
        RunsThenSingles(s, e);
        SubRunStep(s, i);
        assert Sub(CodeRun, s, i, "") == "" + Sub(CodeRun, s, e, "");
      } else {
        RunsThenSingles(s, i + 1);
      }
    }
  }

  /** The streaming path's `re.sub` over runs produces the one-shot path's text. */
  lemma StreamStripIsClean(s: string)
    ensures Sub(CodeRun, s, 0, "") == Clean(s)
  {
    RunsThenSingles(s, 0);
    CleanIsSub(s);
  }

  /** Within one run the single sequences remove what the run removes, before any position. */
  lemma {:induction false} RunRemoved(s: string, i: nat, x: int)
    requires i <= |s| && TokenLen(s, i) > 0
    ensures Removed(FindAll(Code, s, i), x)
      == Overlap((i, RunEnd(s, i)), x) + Removed(FindAll(Code, s, RunEnd(s, i)), x)
    decreases |s| - i
  {
    var n := TokenLen(s, i);
    FindAllStep(Code, s, i);
    var rest := FindAll(Code, s, i + n);
    assert FindAll(Code, s, i) == [(i, i + n)] + rest;
    assert ([(i, i + n)] + rest)[1..] == rest;
    if TokenLen(s, i + n) > 0 {
      RunRemoved(s, i + n, x);
    }
  }

  /** Runs and single sequences remove the same number of positions before every point. */
  lemma {:induction false} RunsRemoveSame(s: string, i: nat, x: int)
    requires i <= |s|
    ensures Removed(FindAll(CodeRun, s, i), x) == Removed(FindAll(Code, s, i), x)
    decreases |s| - i
  {
    if i < |s| {
      FindAllStep(CodeRun, s, i);
      FindAllStep(Code, s, i);
      var e := RunEnd(s, i);
      if e > i {
        RunsRemoveSame(s, e, x);
        RunRemoved(s, i, x);
        var rest := FindAll(CodeRun, s, e);
        assert ([(i, e)] + rest)[1..] == rest;
      } else {
        RunsRemoveSame(s, i + 1, x);
      }
    }
  }

  /** The scan for single sequences that starts at `i` stops at position `p`. */
  ghost predicate Reaches(s: string, i: nat, p: nat)
    requires i <= p <= |s|
    decreases p - i
  {
    i == p
    || (var n := TokenLen(s, i); var next := if n > 0 then i + n else i + 1;
        next <= p && Reaches(s, next, p))
  }

  /** The scan stops at every ESC: no sequence holds an ESC after its first character. */
  lemma {:induction false} EscReached(s: string, i: nat, p: nat)
    requires i <= p < |s| && s[p] == ESC
    ensures Reaches(s, i, p)
    decreases p - i
  {
    if i < p {
      var n := TokenLen(s, i);
      TokenLenSpec(s, i);
      assert n > 0 ==> i + n <= p;
      EscReached(s, if n > 0 then i + n else i + 1, p);
    }
  }

  /** The scan stops at the end of the text. */
  lemma {:induction false} EndReached(s: string, i: nat)
    requires i <= |s|
    ensures Reaches(s, i, |s|)
    decreases |s| - i
  {
    if i < |s| {
      var n := TokenLen(s, i);
      EndReached(s, if n > 0 then i + n else i + 1);
    }
  }

  /**
   * Where the scan stops, the sequences found so far all end before `p` and the
   * rest are the sequences found from `p` on.
   */
  lemma {:induction false} ScanSplit(s: string, i: nat, p: nat)
    requires i <= p <= |s| && Reaches(s, i, p)
    ensures ScanSplitsAt(s, i, p)
    decreases p - i
  {
    if i == p {
      var all := FindAll(Code, s, i);
      assert all[0..] == all;
    } else {
      var n := TokenLen(s, i);
      var next := if n > 0 then i + n else i + 1;
      ScanSplit(s, next, p);
      ScanSplitStep(s, i, p);
    }
  }

  /** The conclusion of `ScanSplit`. */
  ghost predicate ScanSplitsAt(s: string, i: nat, p: nat)
    requires i <= p <= |s|
  {
    SplitsTail(FindAll(Code, s, i), FindAll(Code, s, p), p)
  }

  /** `later` is a suffix of `all`, and the spans before it end by `p`, the rest start after. */
  predicate SplitsTail(all: seq<Span>, later: seq<Span>, p: int) {
    |later| <= |all| && all[|all| - |later|..] == later && Splits(all, |all| - |later|, p)
  }

  lemma ScanSplitStep(s: string, i: nat, p: nat)
    requires i < p <= |s|
    requires var n := TokenLen(s, i); var next := if n > 0 then i + n else i + 1;
      next <= p && ScanSplitsAt(s, next, p)
    ensures ScanSplitsAt(s, i, p)
  {
    var n := TokenLen(s, i);
    var next := if n > 0 then i + n else i + 1;
    FindAllStep(Code, s, i);
    var all, rest, later := FindAll(Code, s, i), FindAll(Code, s, next), FindAll(Code, s, p);
    if n > 0 {
      assert all == [(i, i + n)] + rest;
      SplitsCons((i, i + n), rest, later, p);
    } else {
      assert all == rest;
    }
  }

  lemma SplitsCons(sp: Span, rest: seq<Span>, later: seq<Span>, p: int)
    requires SplitsTail(rest, later, p) && sp.1 <= p
    ensures SplitsTail([sp] + rest, later, p)
  {
    var all := [sp] + rest;
    assert all[|all| - |later|..] == rest[|rest| - |later|..];
    if |rest| - |later| > 0 {
      assert all[|all| - |later| - 1] == rest[|rest| - |later| - 1];
    }
  }

  /** Without an ESC in `[j, e)`, the scan from `j` finds what the scan from `e` finds. */
  lemma {:induction false} ScanPlain(s: string, j: nat, e: nat)
    requires j <= e <= |s|
    requires forall k :: j <= k < e ==> s[k] != ESC
    ensures FindAll(Code, s, j) == FindAll(Code, s, e)
    decreases e - j
  {
    if j < e {
      FindAllStep(Code, s, j);
      assert TokenLen(s, j) == 0;
      ScanPlain(s, j + 1, e);
    }
  }
}
