/**
 * `AnsiColorBuildCommand.on_data_process`: one chunk of build output. The chunk is
 * normalised with `re.sub`, every definition with matches gets an `AnsiRegion`
 * holding its match spans, the runs of escape sequences are cut from every region
 * from the last run to the first, the runs are deleted from the text, and the
 * regions are shifted by the size of the output view and serialised, a later
 * region of a scope replacing an earlier one.
 */
module Streaming {
  import opened Scanner
  import opened Splicing
  import opened Normalization
  import opened Stripping
  import opened Regions
  import opened Correction
  import opened Definitions
  import opened Alignment
  import opened Colorize

  /** The definitions with matches in `t`, in order, each as its scope and its match spans. */
  function Matched(defs: seq<AnsiDefinition>, t: string): seq<(string, seq<Span>)>
    decreases |defs|
  {
    if defs == [] then []
    else
      var d := defs[|defs| - 1];
      var spans := FindAll(d.regex, t, 0);
      Matched(defs[..|defs| - 1], t) + (if spans != [] then [(d.scope, spans)] else [])
  }

  /** One region's pairs after the cuts for `runs` and the shift by `size`. */
  function Move(rs: seq<Span>, runs: seq<Span>, size: int): seq<Span> {
    ShiftRegions(CutRuns(rs, runs), size)
  }

  /** `json_ansi_regions.update(region.jsonable())` for the regions in turn. */
  function Json(pairs: seq<(string, seq<Span>)>, runs: seq<Span>, size: int): map<string, seq<Span>>
    decreases |pairs|
  {
    if pairs == [] then map[]
    else
      var last := pairs[|pairs| - 1];
      Json(pairs[..|pairs| - 1], runs, size)[last.0 := Move(last.1, runs, size)]
  }

  /** Every scope's regions moved. */
  function MoveAll(m: map<string, seq<Span>>, runs: seq<Span>, size: int): map<string, seq<Span>> {
    map scope | scope in m :: Move(m[scope], runs, size)
  }

  /** The regions the streaming path sends for one chunk of output. */
  function StreamRegions(data: string, size: int, bgs: seq<ColorSetting>, fgs: seq<ColorSetting>): map<string, seq<Span>> {
    MoveAll(BatchFound(data, bgs, fgs), FindAll(CodeRun, Normalize(data), 0), size)
  }

  lemma MoveAllUpdate(m: map<string, seq<Span>>, scope: string, rs: seq<Span>, runs: seq<Span>, size: int)
    ensures MoveAll(m[scope := rs], runs, size) == MoveAll(m, runs, size)[scope := Move(rs, runs, size)]
  {
  }

  /**
   * Serialising the regions one definition at a time, the last of a scope winning,
   * gives the scopes the one-shot loop collects, each with its regions moved.
   */
  lemma {:induction false} JsonIsMoved(defs: seq<AnsiDefinition>, t: string, runs: seq<Span>, size: int)
    ensures Json(Matched(defs, t), runs, size) == MoveAll(Found(map[], defs, t), runs, size)
    decreases |defs|
  {
    if defs != [] {
      var init, d := defs[..|defs| - 1], defs[|defs| - 1];
      var spans := FindAll(d.regex, t, 0);
      JsonIsMoved(init, t, runs, size);
      var before := Matched(init, t);
      if spans != [] {
        var pairs := before + [(d.scope, spans)];
        assert pairs[..|pairs| - 1] == before;
        MoveAllUpdate(Found(map[], init, t), d.scope, spans, runs, size);
      } else {
        assert before + [] == before;
      }
    }
  }

  /** No object appears twice. */
  ghost predicate DistinctObjects(objs: seq<AnsiRegion>) {
    forall i, j :: 0 <= i < j < |objs| ==> objs[i] != objs[j]
  }

  /**
   * The loop over the definitions: `if re.search(...)`, a new `AnsiRegion` that gets
   * `add(*m.span())` for every match of `re.finditer(...)`.
   */
  method NewRegions(defs: seq<AnsiDefinition>, t: string) returns (objs: seq<AnsiRegion>)
    ensures DistinctObjects(objs) && forall i :: 0 <= i < |objs| ==> fresh(objs[i])
    ensures |objs| == |Matched(defs, t)|
    ensures forall i :: 0 <= i < |objs| ==> objs[i].scope == Matched(defs, t)[i].0 && objs[i].regions == Matched(defs, t)[i].1
  {
    objs := [];
    ghost var pairs := [];
    for n := 0 to |defs|
      invariant pairs == Matched(defs[..n], t)
      invariant DistinctObjects(objs) && forall i :: 0 <= i < |objs| ==> fresh(objs[i])
      invariant |objs| == |pairs|
      invariant forall i :: 0 <= i < |objs| ==> objs[i].scope == pairs[i].0 && objs[i].regions == pairs[i].1
    {
      var d := defs[n];
      var spans := FindAll(d.regex, t, 0);
      MatchedStep(defs, t, n);
      if spans != [] {
        var r := RegionOf(d.scope, spans);
        objs, pairs := objs + [r], pairs + [(d.scope, spans)];
      }
    }
    assert defs[..|defs|] == defs;
  }

  /** One more definition: its scope and matches join the list when it has matches. */
  lemma MatchedStep(defs: seq<AnsiDefinition>, t: string, n: nat)
    requires n < |defs|
    ensures var spans := FindAll(defs[n].regex, t, 0);
      Matched(defs[..n + 1], t) == Matched(defs[..n], t) + (if spans != [] then [(defs[n].scope, spans)] else [])
  {
    assert defs[..n + 1][..n] == defs[..n];
  }

  /** `new_region = AnsiRegion(scope)`, then `new_region.add(*m.span())` for every match. */
  method RegionOf(scope: string, spans: seq<Span>) returns (r: AnsiRegion)
    ensures fresh(r) && r.scope == scope && r.regions == spans
  {
    r := new AnsiRegion(scope);
    AddAll(r, spans);
  }

  /** `for m in reg: new_region.add(*m.span())`. */
  method AddAll(r: AnsiRegion, spans: seq<Span>)
    modifies r
    ensures r.regions == old(r.regions) + spans
  {
    for q := 0 to |spans|
      invariant r.regions == old(r.regions) + spans[..q]
    {
      r.Add(spans[q].0, spans[q].1);
      assert spans[..q] + [(spans[q].0, spans[q].1)] == spans[..q + 1];
    }
    assert spans[..|spans|] == spans;
  }

  /** `for c in reversed(runs): for r in regions: r.cut_area(*c)`. */
  method CutAll(objs: seq<AnsiRegion>, runs: seq<Span>, ghost pairs: seq<(string, seq<Span>)>)
    requires DistinctObjects(objs) && |objs| == |pairs|
    requires forall i :: 0 <= i < |objs| ==> objs[i].regions == pairs[i].1
    modifies objs
    ensures forall i :: 0 <= i < |objs| ==> objs[i].regions == CutRuns(pairs[i].1, runs)
  {
    var idx := |runs|;
    while idx > 0
      invariant 0 <= idx <= |runs|
      invariant forall i :: 0 <= i < |objs| ==> objs[i].regions == CutRuns(pairs[i].1, runs[idx..])
    {
      idx := idx - 1;
      assert runs[idx..][1..] == runs[idx + 1..];
      CutEach(objs, runs[idx].0, runs[idx].1);
    }
  }

  /** `for r in regions: r.cut_area(a, b)`. */
  method CutEach(objs: seq<AnsiRegion>, a: int, b: int)
    requires DistinctObjects(objs)
    modifies objs
    ensures forall i :: 0 <= i < |objs| ==> objs[i].regions == CutRegions(old(objs[i].regions), a, b)
  {
    for q := 0 to |objs|
      invariant forall i :: 0 <= i < q ==> objs[i].regions == CutRegions(old(objs[i].regions), a, b)
      invariant forall i :: q <= i < |objs| ==> objs[i].regions == old(objs[i].regions)
    {
      objs[q].CutArea(a, b);
    }
  }

  /** `for region in regions: region.shift(size); json.update(region.jsonable())`. */
  method ShiftAll(objs: seq<AnsiRegion>, size: int, ghost pairs: seq<(string, seq<Span>)>, ghost runs: seq<Span>)
    returns (json: map<string, seq<Span>>)
    requires DistinctObjects(objs) && |objs| == |pairs|
    requires forall i :: 0 <= i < |objs| ==> objs[i].scope == pairs[i].0 && objs[i].regions == CutRuns(pairs[i].1, runs)
    modifies objs
    ensures forall i :: 0 <= i < |objs| ==> objs[i].regions == Move(pairs[i].1, runs, size)
    ensures json == Json(pairs, runs, size)
  {
    json := map[];
    for q := 0 to |objs|
      invariant json == Json(pairs[..q], runs, size)
      invariant forall i :: 0 <= i < q ==> objs[i].regions == Move(pairs[i].1, runs, size)
      invariant forall i :: q <= i < |objs| ==> objs[i].regions == CutRuns(pairs[i].1, runs)
    {
      objs[q].Shift(size);
      json := json + objs[q].Jsonable();
      assert pairs[..q + 1][..q] == pairs[..q];
    }
    assert pairs[..|objs|] == pairs;
  }

  /**
   * `on_data_process(proc, data)` with the size of the output view as `size`: the
   * text sent on is the chunk normalised and without escape sequences, and the
   * regions are the definitions' matches cut and shifted.
   */
  method OnDataProcess(data: string, size: int, bgs: seq<ColorSetting>, fgs: seq<ColorSetting>)
    returns (out: string, json: map<string, seq<Span>>)
    ensures out == Clean(Normalize(data))
    ensures json == StreamRegions(data, size, bgs, fgs)
  {
    var t := Sub(Unsupported, data, 0, BOLD);
    var defs := AnsiDefinitions(bgs, fgs, Some(t));
    var objs := NewRegions(defs, t);
    ghost var pairs := Matched(defs, t);
    var runs := FindAll(CodeRun, t, 0);
    CutAll(objs, runs, pairs);
    out := Sub(CodeRun, t, 0, "");
    StreamStripIsClean(t);
    json := ShiftAll(objs, size, pairs, runs);
    JsonIsMoved(defs, t, runs, size);
  }

  /** Every scope's regions shifted by `size`. */
  function ShiftScopes(m: map<string, seq<Span>>, size: int): map<string, seq<Span>> {
    map scope | scope in m :: ShiftRegions(m[scope], size)
  }

  /**
   * With SGR sequences as codes, a chunk colours the same characters as the one-shot
   * path would: the streaming regions are the one-shot path's corrected regions of
   * the chunk, moved to where the chunk lands in the output view.
   */
  lemma StreamingMatchesBatch(data: string, size: int, bgs: seq<ColorSetting>, fgs: seq<ColorSetting>)
    requires TokenCodes(bgs) && TokenCodes(fgs)
    ensures StreamRegions(data, size, bgs, fgs) == ShiftScopes(BatchRegions(data, bgs, fgs), size)
  {
    var found := BatchFound(data, bgs, fgs);
    var l, r := StreamRegions(data, size, bgs, fgs), ShiftScopes(BatchRegions(data, bgs, fgs), size);
    assert l.Keys == found.Keys == r.Keys;
    forall scope | scope in found
      ensures l[scope] == r[scope]
    {
      ScopeAgrees(data, bgs, fgs, scope);
    }
  }

  /** One scope: the cuts for the runs move every endpoint as the correction table does. */
  lemma ScopeAgrees(data: string, bgs: seq<ColorSetting>, fgs: seq<ColorSetting>, scope: string)
    requires TokenCodes(bgs) && TokenCodes(fgs) && scope in BatchFound(data, bgs, fgs)
    ensures var t := Normalize(data); var rs := BatchFound(data, bgs, fgs)[scope];
      CutRuns(rs, FindAll(CodeRun, t, 0)) == CorrectSpans(FindAll(Code, t, 0), rs)
  {
    var fg, bg := TokenOrigin(data, bgs, fgs, scope);
    PairCutsAgree(Normalize(data), fg, bg);
  }

  /** For one definition's matches, the cuts and the correction table agree. */
  lemma PairCutsAgree(t: string, fg: string, bg: string)
    requires IsToken(fg) && IsToken(bg)
    ensures var rs := FindAll(Pair(fg, bg), t, 0);
      CutRuns(rs, FindAll(CodeRun, t, 0)) == CorrectSpans(FindAll(Code, t, 0), rs)
  {
    var rs := FindAll(Pair(fg, bg), t, 0);
    var runs, codes := FindAll(CodeRun, t, 0), FindAll(Code, t, 0);
    CutRunsLength(rs, runs);
    forall k | 0 <= k < |rs|
      ensures CutRuns(rs, runs)[k] == CorrectSpans(codes, rs)[k]
    {
      CutRunsPointwise(rs, runs, k);
      StreamingAgrees(t, fg, bg, k);
    }
  }

  /** In text without ESC no definition whose codes are SGR sequences has a match. */
  lemma PlainNoPair(t: string, fg: string, bg: string)
    requires IsToken(fg) && IsToken(bg)
    requires forall k :: 0 <= k < |t| ==> t[k] != ESC
    ensures FindAll(Pair(fg, bg), t, 0) == []
  {
    if FindAll(Pair(fg, bg), t, 0) != [] {
      FindAllSound(Pair(fg, bg), t, 0, 0);
      var a := FindAll(Pair(fg, bg), t, 0)[0].0;
      PairCodes(t, a, fg, bg);
      assert false;
    }
  }

  /** Text without ESC passes through normalisation unchanged. */
  lemma NormalizeNoEsc(t: string)
    requires forall k :: 0 <= k < |t| ==> t[k] != ESC
    ensures Normalize(t) == t
  {
    NormalizePlain(t, 0);
    PlainEnd(t, 0);
    assert Sub(Unsupported, t, |t|, BOLD) == [];
    assert t[0..|t|] == t;
  }

  lemma {:induction false} PlainEnd(t: string, k: nat)
    requires k <= |t| && forall j :: k <= j < |t| ==> t[j] != ESC
    ensures NonEscEnd(t, k) == |t|
    decreases |t| - k
  {
    if k < |t| {
      PlainEnd(t, k + 1);
    }
  }

  /**
   * Output without escape sequences comes back as it was and gets no regions, on
   * the one-shot path and on the streaming path alike, when the codes are SGR
   * sequences.
   */
  lemma PlainRoundTrip(text: string, bgs: seq<ColorSetting>, fgs: seq<ColorSetting>, size: int)
    requires TokenCodes(bgs) && TokenCodes(fgs)
    requires forall k :: 0 <= k < |text| ==> text[k] != ESC
    ensures Normalize(text) == text && Clean(Normalize(text)) == text
    ensures BatchRegions(text, bgs, fgs) == map[]
    ensures StreamRegions(text, size, bgs, fgs) == map[]
  {
    NormalizeNoEsc(text);
    CleanPlain(text);
    var defs := Cross(bgs, fgs);
    CrossTokens(bgs, fgs);
    forall k | 0 <= k < |defs|
      ensures FindAll(defs[k].regex, text, 0) == []
    {
      PlainNoPair(text, defs[k].regex.fg, defs[k].regex.bg);
    }
    FoundNone(map[], defs, text);
    BatchFoundCross(text, bgs, fgs);
  }
}
