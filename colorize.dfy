/**
 * `AnsiCommand`: the view's regions per scope, the one-shot path
 * (`_colorize_ansi_codes`) that rewrites the view's text and adds the corrected
 * regions, and `_colorize_regions`, which adds regions the streaming path has
 * already computed.
 */
module Colorize {
  import opened Scanner
  import opened Splicing
  import opened Normalization
  import opened Stripping
  import opened Correction
  import opened Definitions
  import opened Alignment

  /** `view.get_regions(scope)`: the scope's regions, or none. */
  function Get(m: map<string, seq<Span>>, scope: string): seq<Span> {
    if scope in m then m[scope] else []
  }

  /** Every scope's regions after adding `incoming`: the existing ones, then the new ones. */
  function Merge(existing: map<string, seq<Span>>, incoming: map<string, seq<Span>>): map<string, seq<Span>> {
    map scope | scope in existing.Keys + incoming.Keys :: Get(existing, scope) + Get(incoming, scope)
  }

  /** Adding nothing leaves the regions as they are. */
  lemma MergeNothing(existing: map<string, seq<Span>>)
    ensures Merge(existing, map[]) == existing
  {
    assert forall scope :: scope in existing ==> Get(existing, scope) + [] == existing[scope];
  }

  /** Adding regions to a view that has none gives exactly those regions. */
  lemma MergeIntoEmpty(incoming: map<string, seq<Span>>)
    ensures Merge(map[], incoming) == incoming
  {
    assert forall scope :: scope in incoming ==> [] + Get(incoming, scope) == incoming[scope];
  }

  /**
   * Adding two batches one after the other is adding their merge at once: scopes are
   * independent and each keeps its regions in arrival order.
   */
  lemma MergeTwice(existing: map<string, seq<Span>>, x: map<string, seq<Span>>, y: map<string, seq<Span>>)
    ensures Merge(Merge(existing, x), y) == Merge(existing, Merge(x, y))
  {
    var l, r := Merge(Merge(existing, x), y), Merge(existing, Merge(x, y));
    assert l.Keys == existing.Keys + x.Keys + y.Keys == r.Keys;
    forall scope | scope in l
      ensures l[scope] == r[scope]
    {
      MergeTwiceAt(existing, x, y, scope);
    }
  }

  lemma MergeTwiceAt(existing: map<string, seq<Span>>, x: map<string, seq<Span>>, y: map<string, seq<Span>>, scope: string)
    ensures Get(Merge(Merge(existing, x), y), scope) == Get(Merge(existing, Merge(x, y)), scope)
  {
    GetMerge(existing, x, scope);
    GetMerge(x, y, scope);
    GetMerge(Merge(existing, x), y, scope);
    GetMerge(existing, Merge(x, y), scope);
    ConcatAssoc(Get(existing, scope), Get(x, scope), Get(y, scope));
  }

  lemma ConcatAssoc(a: seq<Span>, b: seq<Span>, c: seq<Span>)
    ensures a + b + c == a + (b + c)
  {
  }

  /** A scope's regions after a merge. */
  lemma GetMerge(existing: map<string, seq<Span>>, incoming: map<string, seq<Span>>, scope: string)
    ensures Get(Merge(existing, incoming), scope) == Get(existing, scope) + Get(incoming, scope)
  {
    if scope !in existing.Keys + incoming.Keys {
      assert Get(existing, scope) + Get(incoming, scope) == [];
    }
  }

  /** The regions once the scopes in `done` have been added. */
  function MergeSome(existing: map<string, seq<Span>>, incoming: map<string, seq<Span>>, done: set<string>): map<string, seq<Span>> {
    map scope | scope in existing.Keys + (incoming.Keys * done) ::
      if scope in incoming && scope in done then Get(existing, scope) + incoming[scope] else existing[scope]
  }

  /** Adding one more scope. */
  lemma MergeSomeStep(existing: map<string, seq<Span>>, incoming: map<string, seq<Span>>, done: set<string>, scope: string)
    requires scope in incoming && scope !in done
    ensures Get(MergeSome(existing, incoming, done), scope) == Get(existing, scope)
    ensures MergeSome(existing, incoming, done)[scope := Get(existing, scope) + incoming[scope]]
      == MergeSome(existing, incoming, done + {scope})
  {
  }

  /** Start and end of the loop over the scopes. */
  lemma MergeSomeEnds(existing: map<string, seq<Span>>, incoming: map<string, seq<Span>>)
    ensures MergeSome(existing, incoming, {}) == existing
    ensures MergeSome(existing, incoming, incoming.Keys) == Merge(existing, incoming)
  {
    var l, r := MergeSome(existing, incoming, incoming.Keys), Merge(existing, incoming);
    forall scope | scope in existing && scope !in incoming
      ensures l[scope] == r[scope]
    {
      assert existing[scope] + [] == existing[scope];
    }
  }

  /** Both endpoints of every region moved by the correction table. */
  function CorrectSpans(codes: seq<Span>, rs: seq<Span>): seq<Span> {
    seq(|rs|, k requires 0 <= k < |rs| => (Corrected(codes, rs[k].0), Corrected(codes, rs[k].1)))
  }

  /** The correction applied to every scope's regions. */
  function CorrectAll(codes: seq<Span>, found: map<string, seq<Span>>): map<string, seq<Span>> {
    map scope | scope in found :: CorrectSpans(codes, found[scope])
  }

  /** No endpoint lies before the start of the text. */
  ghost predicate NonNegative(rs: seq<Span>) {
    forall k :: 0 <= k < |rs| ==> 0 <= rs[k].0 && 0 <= rs[k].1
  }

  /**
   * The loop `for r in regions: r.a -= offsets[bisect(points, r.a) - 1]; r.b -= ...`,
   * which moves every endpoint to its place in the text without escape sequences.
   */
  method CorrectRegions(codes: seq<Span>, points: seq<int>, offsets: seq<int>, hi: int, regions: seq<Span>) returns (rs: seq<Span>)
    requires Ordered(codes, 0, hi) && IsTable(codes, points, offsets) && NonNegative(regions)
    ensures rs == CorrectSpans(codes, regions)
  {
    TableShape(codes, points, offsets, hi);
    rs := regions;
    var n := 0;
    while n < |rs|
      invariant 0 <= n <= |rs| == |regions|
      invariant rs[..n] == CorrectSpans(codes, regions)[..n]
      invariant rs[n..] == regions[n..]
    {
      var (a, b) := rs[n];
      assert (a, b) == regions[n];
      var ia := Bisect(points, a);
      TableLookup(codes, points, offsets, hi, a, ia);
      var ib := Bisect(points, b);
      TableLookup(codes, points, offsets, hi, b, ib);
      rs := rs[n := (a - offsets[ia - 1], b - offsets[ib - 1])];
      n := n + 1;
    }
  }

  /**
   * The loop over `ansi_definitions(content)`: a definition with matches sets its
   * scope to the list of its matches.
   */
  method CollectRegions(defs: seq<AnsiDefinition>, t: string) returns (found: map<string, seq<Span>>)
    ensures found == Found(map[], defs, t)
  {
    found := map[];
    for n := 0 to |defs|
      invariant found == Found(map[], defs[..n], t)
    {
      var d := defs[n];
      var spans := FindAll(d.regex, t, 0);
      if spans != [] {
        found := found[d.scope := spans];
      }
      assert defs[..n + 1][..n] == defs[..n];
    }
    assert defs[..|defs|] == defs;
  }

  /** Every region the loop over the definitions collects is a match in the text. */
  lemma {:induction false} FoundInText(m: map<string, seq<Span>>, defs: seq<AnsiDefinition>, t: string, scope: string)
    requires forall s :: s in m ==> NonNegative(m[s])
    requires scope in Found(m, defs, t)
    ensures NonNegative(Found(m, defs, t)[scope])
    decreases |defs|
  {
    if defs != [] {
      var d := defs[|defs| - 1];
      var spans := FindAll(d.regex, t, 0);
      if spans != [] && scope == d.scope {
        OrderedAll(spans, 0, |t|);
      } else {
        FoundInText(m, defs[..|defs| - 1], t, scope);
      }
    }
  }

  lemma FoundNonNegative(defs: seq<AnsiDefinition>, t: string)
    ensures forall scope :: scope in Found(map[], defs, t) ==> NonNegative(Found(map[], defs, t)[scope])
  {
    forall scope | scope in Found(map[], defs, t)
      ensures NonNegative(Found(map[], defs, t)[scope])
    {
      FoundInText(map[], defs, t, scope);
    }
  }

  /** The scopes and the matches, as `_colorize_ansi_codes` collects them from the normalised text. */
  function BatchFound(text: string, bgs: seq<ColorSetting>, fgs: seq<ColorSetting>): map<string, seq<Span>> {
    var t := Normalize(text);
    Found(map[], AnsiDefinitions(bgs, fgs, Some(t)), t)
  }

  /** The same regions once corrected for the deleted escape sequences. */
  function BatchRegions(text: string, bgs: seq<ColorSetting>, fgs: seq<ColorSetting>): map<string, seq<Span>> {
    var t := Normalize(text);
    CorrectAll(FindAll(Code, t, 0), BatchFound(text, bgs, fgs))
  }

  /**
   * With SGR sequences as codes, every region the one-shot path adds comes from a
   * definition whose two codes open the match, and in the text without escape
   * sequences it covers exactly the characters that follow those codes up to the
   * next escape sequence.
   */
  lemma BatchRegionText(text: string, bgs: seq<ColorSetting>, fgs: seq<ColorSetting>, scope: string, k: nat) returns (fg: string, bg: string)
    requires TokenCodes(bgs) && TokenCodes(fgs)
    requires scope in BatchFound(text, bgs, fgs) && k < |BatchFound(text, bgs, fgs)[scope]|
    ensures IsToken(fg) && IsToken(bg)
    ensures var t := Normalize(text); BatchFound(text, bgs, fgs)[scope] == FindAll(Pair(fg, bg), t, 0)
    ensures var t, sp, w := Normalize(text), BatchFound(text, bgs, fgs)[scope][k], |fg| + |bg|;
      var r := BatchRegions(text, bgs, fgs)[scope][k];
      && 0 <= sp.0 && sp.0 + w <= sp.1 <= |t|
      && (forall j :: sp.0 + w <= j < sp.1 ==> t[j] != ESC)
      && 0 <= r.0 <= r.1 <= |Clean(t)|
      && r.1 - r.0 == sp.1 - sp.0 - w
      && Clean(t)[r.0..r.1] == t[sp.0 + w..sp.1]
  {
    var t := Normalize(text);
    fg, bg := TokenOrigin(text, bgs, fgs, scope);
    CorrectedSpanText(t, fg, bg, k);
    PairSpanPlain(t, fg, bg, k);
    BatchRegionAt(text, bgs, fgs, scope, k);
  }

  /**
   * Conversely, wherever the codes of background `bi` and foreground `fj` occur
   * together in the normalised text, in either order, and no earlier match of their
   * definition reaches past that point, the one-shot path adds regions for their scope.
   */
  lemma BatchScopeFound(text: string, bgs: seq<ColorSetting>, fgs: seq<ColorSetting>, bi: nat, fj: nat, j: nat)
    requires TokenCodes(bgs) && TokenCodes(fgs) && bi < |bgs| && fj < |fgs|
    requires var t, fg, bg := Normalize(text), fgs[fj].code, bgs[bi].code; var w := |fg| + |bg|;
      && j + w <= |t| && (t[j..j + w] == fg + bg || t[j..j + w] == bg + fg)
      && forall k :: 0 <= k < j ==> k + PairLen(t, k, fg, bg) <= j
    ensures fgs[fj].scope + bgs[bi].scope in BatchFound(text, bgs, fgs)
    ensures fgs[fj].scope + bgs[bi].scope in BatchRegions(text, bgs, fgs)
  {
    var t := Normalize(text);
    assert IsToken(fgs[fj].code) && IsToken(bgs[bi].code);
    PairFound(t, fgs[fj].code, bgs[bi].code, j);
    CrossFound(bgs, fgs, t, bi, fj);
    BatchFoundCross(text, bgs, fgs);
    BatchKeys(text, bgs, fgs);
  }

  /** With SGR sequences as codes, the one-shot path collects what the unfiltered definitions find. */
  lemma BatchFoundCross(text: string, bgs: seq<ColorSetting>, fgs: seq<ColorSetting>)
    requires TokenCodes(bgs) && TokenCodes(fgs)
    ensures BatchFound(text, bgs, fgs) == Found(map[], Cross(bgs, fgs), Normalize(text))
  {
    FilterKeepsRegions(map[], bgs, fgs, Normalize(text));
  }

  /** The corrected regions have the collected scopes. */
  lemma BatchKeys(text: string, bgs: seq<ColorSetting>, fgs: seq<ColorSetting>)
    ensures BatchRegions(text, bgs, fgs).Keys == BatchFound(text, bgs, fgs).Keys
  {
  }

  /**
   * When no two definitions share a scope, that scope's regions hold the match that
   * starts there, with both endpoints corrected.
   */
  lemma BatchRegionFound(text: string, bgs: seq<ColorSetting>, fgs: seq<ColorSetting>, bi: nat, fj: nat, j: nat)
    requires TokenCodes(bgs) && TokenCodes(fgs) && bi < |bgs| && fj < |fgs|
    requires DistinctScopes(Cross(bgs, fgs))
    requires var t, fg, bg := Normalize(text), fgs[fj].code, bgs[bi].code; var w := |fg| + |bg|;
      && j + w <= |t| && (t[j..j + w] == fg + bg || t[j..j + w] == bg + fg)
      && forall k :: 0 <= k < j ==> k + PairLen(t, k, fg, bg) <= j
    ensures var t, fg, bg := Normalize(text), fgs[fj].code, bgs[bi].code;
      var scope, e, codes := fgs[fj].scope + bgs[bi].scope, NonEscEnd(t, j + |fg| + |bg|), FindAll(Code, t, 0);
      && scope in BatchFound(text, bgs, fgs)
      && BatchFound(text, bgs, fgs)[scope] == FindAll(Pair(fg, bg), t, 0)
      && (j, e) in BatchFound(text, bgs, fgs)[scope]
      && (Corrected(codes, j), Corrected(codes, e)) in BatchRegions(text, bgs, fgs)[scope]
  {
    var t := Normalize(text);
    var scope := fgs[fj].scope + bgs[bi].scope;
    var e := NonEscEnd(t, j + |fgs[fj].code| + |bgs[bi].code|);
    var codes := FindAll(Code, t, 0);
    FoundRegion(bgs, fgs, t, bi, fj, j);
    BatchFoundCross(text, bgs, fgs);
    var rs := BatchFound(text, bgs, fgs)[scope];
    CorrectedIn(codes, rs, (j, e));
    BatchRegionsAt(text, bgs, fgs, scope);
  }

  /** A scope's corrected regions are its collected matches, both endpoints corrected. */
  lemma BatchRegionsAt(text: string, bgs: seq<ColorSetting>, fgs: seq<ColorSetting>, scope: string)
    requires scope in BatchFound(text, bgs, fgs)
    ensures scope in BatchRegions(text, bgs, fgs)
    ensures BatchRegions(text, bgs, fgs)[scope] == CorrectSpans(FindAll(Code, Normalize(text), 0), BatchFound(text, bgs, fgs)[scope])
  {
  }

  /** A corrected list holds every region of the original list, corrected. */
  lemma CorrectedIn(codes: seq<Span>, rs: seq<Span>, sp: Span)
    requires sp in rs
    ensures (Corrected(codes, sp.0), Corrected(codes, sp.1)) in CorrectSpans(codes, rs)
  {
    var k :| 0 <= k < |rs| && rs[k] == sp;
    assert CorrectSpans(codes, rs)[k] == (Corrected(codes, sp.0), Corrected(codes, sp.1));
  }

  /** With SGR sequences as codes, every collected scope holds the matches of one pair of them. */
  lemma TokenOrigin(text: string, bgs: seq<ColorSetting>, fgs: seq<ColorSetting>, scope: string) returns (fg: string, bg: string)
    requires TokenCodes(bgs) && TokenCodes(fgs) && scope in BatchFound(text, bgs, fgs)
    ensures IsToken(fg) && IsToken(bg)
    ensures BatchFound(text, bgs, fgs)[scope] == FindAll(Pair(fg, bg), Normalize(text), 0)
  {
    var t := Normalize(text);
    var defs := Cross(bgs, fgs);
    FilterKeepsRegions(map[], bgs, fgs, t);
    CrossTokens(bgs, fgs);
    var i := FoundOrigin(defs, t, scope);
    fg, bg := defs[i].regex.fg, defs[i].regex.bg;
  }

  /** A region of the one-shot path is its match with both endpoints corrected. */
  lemma BatchRegionAt(text: string, bgs: seq<ColorSetting>, fgs: seq<ColorSetting>, scope: string, k: nat)
    requires scope in BatchFound(text, bgs, fgs) && k < |BatchFound(text, bgs, fgs)[scope]|
    ensures var codes, sp := FindAll(Code, Normalize(text), 0), BatchFound(text, bgs, fgs)[scope][k];
      && scope in BatchRegions(text, bgs, fgs)
      && |BatchRegions(text, bgs, fgs)[scope]| == |BatchFound(text, bgs, fgs)[scope]|
      && BatchRegions(text, bgs, fgs)[scope][k] == (Corrected(codes, sp.0), Corrected(codes, sp.1))
  {
  }

  /** A view: its text and the regions added to it per scope. */
  class View {
    var text: string
    var regions: map<string, seq<Span>>

    constructor (text: string, regions: map<string, seq<Span>>)
      ensures this.text == text && this.regions == regions
    {
      this.text := text;
      this.regions := regions;
    }

    /** `view.get_regions(scope)`. */
    function GetRegions(scope: string): (r: seq<Span>)
      reads this
      ensures scope in regions ==> r == regions[scope]
      ensures scope !in regions ==> r == []
    {
      Get(regions, scope)
    }

    /** `view.add_regions(scope, regions, ...)`: replaces the scope's regions. */
    method AddRegions(scope: string, rs: seq<Span>)
      modifies this
      ensures text == old(text) && regions == old(regions)[scope := rs]
    {
      regions := regions[scope := rs];
    }

    /** The build's base `on_data`: the text arrives at the end of the view, the regions stay. */
    method Append(data: string)
      modifies this
      ensures text == old(text) + data && regions == old(regions)
    {
      text := text + data;
    }

    /** `_colorize_regions(regions)`: adds each scope's regions after the ones the view has. */
    method ColorizeRegions(incoming: map<string, seq<Span>>)
      modifies this
      ensures text == old(text) && regions == Merge(old(regions), incoming)
    {
      var todo := incoming.Keys;
      ghost var start := regions;
      MergeSomeEnds(start, incoming);
      while todo != {}
        invariant todo <= incoming.Keys && text == old(text)
        invariant regions == MergeSome(start, incoming, incoming.Keys - todo)
        decreases todo
      {
        var scope :| scope in todo;
        MergeSomeStep(start, incoming, incoming.Keys - todo, scope);
        var sum := GetRegions(scope) + incoming[scope];
        AddRegions(scope, sum);
        assert incoming.Keys - (todo - {scope}) == (incoming.Keys - todo) + {scope};
        todo := todo - {scope};
      }
      assert incoming.Keys - todo == incoming.Keys;
    }

    /**
     * `_colorize_ansi_codes`: rewrites the unsupported sequences to bold, collects the
     * definitions' matches, deletes every escape sequence, corrects the matches with
     * the table and adds them after the regions the view has.
     */
    method ColorizeAnsiCodes(bgs: seq<ColorSetting>, fgs: seq<ColorSetting>)
      modifies this
      ensures text == Clean(Normalize(old(text)))
      ensures regions == Merge(old(regions), BatchRegions(old(text), bgs, fgs))
    {
      var unsupported := FindAll(Unsupported, text, 0);
      SubIsSplice(Unsupported, text, 0, BOLD);
      text := ReplaceReversed(text, unsupported, BOLD);
      var t := text;
      var content := text;
      var found := CollectRegions(AnsiDefinitions(bgs, fgs, Some(content)), t);
      var codes := FindAll(Code, t, 0);
      text := ReplaceReversed(t, codes, "");
      var points, offsets := BuildCorrectionTable(codes);
      FoundNonNegative(AnsiDefinitions(bgs, fgs, Some(content)), t);
      AddCorrected(codes, points, offsets, |t|, found);
    }

    /** The loop over the collected scopes: correct each scope's regions and add them. */
    method AddCorrected(codes: seq<Span>, points: seq<int>, offsets: seq<int>, hi: int, found: map<string, seq<Span>>)
      requires Ordered(codes, 0, hi) && IsTable(codes, points, offsets)
      requires forall scope :: scope in found ==> NonNegative(found[scope])
      modifies this
      ensures text == old(text) && regions == Merge(old(regions), CorrectAll(codes, found))
    {
      ghost var corrected := CorrectAll(codes, found);
      var todo := found.Keys;
      ghost var start := regions;
      MergeSomeEnds(start, corrected);
      while todo != {}
        invariant todo <= found.Keys && text == old(text)
        invariant regions == MergeSome(start, corrected, found.Keys - todo)
        decreases todo
      {
        var scope :| scope in todo;
        var rs := CorrectRegions(codes, points, offsets, hi, found[scope]);
        MergeSomeStep(start, corrected, found.Keys - todo, scope);
        var sum := GetRegions(scope) + rs;
        AddRegions(scope, sum);
        assert found.Keys - (todo - {scope}) == (found.Keys - todo) + {scope};
        todo := todo - {scope};
      }
      assert found.Keys - todo == corrected.Keys;
    }
  }
}
