/**
 * `ansi_definitions`: one definition per (background, foreground) pair of the
 * settings, background in the outer loop. A definition's scope is the foreground
 * scope followed by the background scope; its matcher accepts the two codes in
 * either order followed by the longest run of characters other than ESC. Given the
 * text, both settings lists are first narrowed to the codes that occur in a string
 * built from the SGR sequences of the text.
 */
module Definitions {
  import opened Scanner

  datatype Option<T> = None | Some(value: T)

  /** One entry of `ANSI_FG` or `ANSI_BG`: a code and the scope it selects. */
  datatype ColorSetting = ColorSetting(code: string, scope: string)

  /** `AnsiDefinition(scope, regex)`. */
  datatype AnsiDefinition = AnsiDefinition(scope: string, regex: Pattern)

  /** The definition for one foreground and one background. */
  function Define(fg: ColorSetting, bg: ColorSetting): AnsiDefinition {
    AnsiDefinition(fg.scope + bg.scope, Pair(fg.code, bg.code))
  }

  /** The inner loop `for fg in fgs` for one background. */
  function Row(bg: ColorSetting, fgs: seq<ColorSetting>): seq<AnsiDefinition>
    decreases |fgs|
  {
    if fgs == [] then [] else [Define(fgs[0], bg)] + Row(bg, fgs[1..])
  }

  /** Both loops, `for bg in bgs: for fg in fgs`. */
  function Cross(bgs: seq<ColorSetting>, fgs: seq<ColorSetting>): seq<AnsiDefinition>
    decreases |bgs|
  {
    if bgs == [] then [] else Row(bgs[0], fgs) + Cross(bgs[1..], fgs)
  }

  lemma {:induction false} RowAt(bg: ColorSetting, fgs: seq<ColorSetting>, j: nat)
    requires j < |fgs|
    ensures |Row(bg, fgs)| == |fgs| && Row(bg, fgs)[j] == Define(fgs[j], bg)
    decreases |fgs|
  {
    if j > 0 {
      RowAt(bg, fgs[1..], j - 1);
    } else if |fgs| > 1 {
      RowAt(bg, fgs[1..], 0);
    }
  }

  lemma {:induction false} RowLength(bg: ColorSetting, fgs: seq<ColorSetting>)
    ensures |Row(bg, fgs)| == |fgs|
    decreases |fgs|
  {
    if fgs != [] {
      RowLength(bg, fgs[1..]);
    }
  }

  /** The index arithmetic of the two loops. */
  lemma RowIndex(i: nat, m: nat, n: nat, j: nat)
    requires i < m && j < n
    ensures i * n + j < m * n
    ensures i > 0 ==> i * n + j == n + ((i - 1) * n + j)
  {
    assert (m - i) * n >= n by {
      assert m - i >= 1;
    }
    assert m * n == i * n + (m - i) * n;
  }

  lemma {:induction false} CrossLength(bgs: seq<ColorSetting>, fgs: seq<ColorSetting>)
    ensures |Cross(bgs, fgs)| == |bgs| * |fgs|
    decreases |bgs|
  {
    if bgs != [] {
      CrossLength(bgs[1..], fgs);
      RowLength(bgs[0], fgs);
      assert |bgs| * |fgs| == |fgs| + (|bgs| - 1) * |fgs|;
    }
  }

  /**
   * There are `|bgs| * |fgs|` definitions, and the one at `i * |fgs| + j` pairs
   * background `i` with foreground `j`: its scope is the foreground scope followed
   * by the background scope.
   */
  lemma {:induction false} CrossShape(bgs: seq<ColorSetting>, fgs: seq<ColorSetting>, i: nat, j: nat)
    requires i < |bgs| && j < |fgs|
    ensures |Cross(bgs, fgs)| == |bgs| * |fgs| && i * |fgs| + j < |Cross(bgs, fgs)|
    ensures Cross(bgs, fgs)[i * |fgs| + j] == Define(fgs[j], bgs[i])
    ensures Cross(bgs, fgs)[i * |fgs| + j].scope == fgs[j].scope + bgs[i].scope
    decreases |bgs|
  {
    var n := |fgs|;
    var row, rest := Row(bgs[0], fgs), Cross(bgs[1..], fgs);
    CrossLength(bgs, fgs);
    RowIndex(i, |bgs|, n, j);
    RowLength(bgs[0], fgs);
    assert Cross(bgs, fgs) == row + rest;
    if i == 0 {
      RowAt(bgs[0], fgs, j);
      assert (row + rest)[j] == row[j];
    } else {
      CrossShape(bgs[1..], fgs, i - 1, j);
      assert (row + rest)[n + ((i - 1) * n + j)] == rest[(i - 1) * n + j];
    }
  }

  /** `re.search(code, text)` for a literal code: some position of `text` starts with `code`. */
  predicate Search(text: string, i: nat, c: string)
    requires i <= |text|
    decreases |text| - i
  {
    StartsWith(text, i, c) || (i < |text| && Search(text, i + 1, c))
  }

  lemma {:induction false} SearchFrom(text: string, i: nat, j: nat, c: string)
    requires i <= j <= |text| && StartsWith(text, j, c)
    ensures Search(text, i, c)
    decreases j - i
  {
    if i < j {
      SearchFrom(text, i + 1, j, c);
    }
  }

  /** `[v for v in settings if re.search(v['code'], color_str)]`. */
  function Keep(settings: seq<ColorSetting>, colorStr: string): seq<ColorSetting>
    decreases |settings|
  {
    if settings == [] then []
    else if Search(colorStr, 0, settings[0].code) then [settings[0]] + Keep(settings[1..], colorStr)
    else Keep(settings[1..], colorStr)
  }

  /** `xs` is `ys` with some entries left out, the rest in the same order. */
  predicate IsSublist<T(==)>(xs: seq<T>, ys: seq<T>)
    decreases |ys|
  {
    xs == [] || (ys != [] && ((xs[0] == ys[0] && IsSublist(xs[1..], ys[1..])) || IsSublist(xs, ys[1..])))
  }

  /**
   * The filter keeps an order-preserving sublist of the settings: exactly the entries
   * whose code occurs in the colour string, each as many times as in the settings.
   */
  lemma {:induction false} KeepSpec(settings: seq<ColorSetting>, colorStr: string)
    ensures IsSublist(Keep(settings, colorStr), settings)
    ensures forall v :: v in Keep(settings, colorStr) <==> v in settings && Search(colorStr, 0, v.code)
    ensures forall v :: multiset(Keep(settings, colorStr))[v] == if Search(colorStr, 0, v.code) then multiset(settings)[v] else 0
    decreases |settings|
  {
    KeepCount(settings, colorStr);
    if settings != [] {
      KeepSpec(settings[1..], colorStr);
      var rest := Keep(settings[1..], colorStr);
      if Search(colorStr, 0, settings[0].code) {
        assert ([settings[0]] + rest)[1..] == rest;
      } else {
        SublistSkip(rest, settings);
      }
      assert forall v :: v in settings <==> v == settings[0] || v in settings[1..];
    }
  }

  /** The filter keeps every qualifying entry as often as it occurs, and no other. */
  lemma {:induction false} KeepCount(settings: seq<ColorSetting>, colorStr: string)
    ensures forall v :: multiset(Keep(settings, colorStr))[v] == if Search(colorStr, 0, v.code) then multiset(settings)[v] else 0
    decreases |settings|
  {
    if settings != [] {
      KeepCount(settings[1..], colorStr);
      var x, rest := settings[0], Keep(settings[1..], colorStr);
      assert settings == [x] + settings[1..];
      assert multiset(settings) == multiset([x]) + multiset(settings[1..]);
      if Search(colorStr, 0, x.code) {
        assert multiset([x] + rest) == multiset([x]) + multiset(rest);
      }
    }
  }

  lemma SublistSkip<T>(xs: seq<T>, ys: seq<T>)
    requires ys != [] && IsSublist(xs, ys[1..])
    ensures IsSublist(xs, ys)
  {
  }

  /** The texts of a list of spans, in order. */
  function SpanTexts(t: string, spans: seq<Span>, lo: nat): seq<string>
    requires lo <= |t| && Ordered(spans, lo, |t|)
    decreases |spans|
  {
    if spans == [] then [] else [t[spans[0].0..spans[0].1]] + SpanTexts(t, spans[1..], spans[0].1)
  }

  lemma {:induction false} SpanTextsHas(t: string, spans: seq<Span>, lo: nat, sp: Span)
    requires lo <= |t| && Ordered(spans, lo, |t|) && sp in spans
    ensures 0 <= sp.0 <= sp.1 <= |t| && t[sp.0..sp.1] in SpanTexts(t, spans, lo)
    decreases |spans|
  {
    if spans[0] != sp {
      SpanTextsHas(t, spans[1..], spans[0].1, sp);
    }
  }

  /**
   * The distinct entries of `xs`, each at its first occurrence: exactly the entries
   * of `xs`, each once, as `set(...)` holds them.
   */
  function Distinct(xs: seq<string>): (d: seq<string>)
    ensures forall x :: x in d <==> x in xs
    ensures forall i, j :: 0 <= i < j < |d| ==> d[i] != d[j]
    decreases |xs|
  {
    if xs == [] then []
    else
      var d := Distinct(xs[..|xs| - 1]);
      assert forall x :: x in xs ==> x in xs[..|xs| - 1] || x == xs[|xs| - 1];
      if xs[|xs| - 1] in d then d else d + [xs[|xs| - 1]]
  }

  /** `sep.join(xs)`. */
  function Join(sep: string, xs: seq<string>): string
    decreases |xs|
  {
    if xs == [] then [] else if |xs| == 1 then xs[0] else xs[0] + sep + Join(sep, xs[1..])
  }

  /**
   * `"{0}{1}{0}".format('\x1b', '\x1b'.join(set(re.findall(r'\[[0-9;]*m', content))))`.
   * The distinct brackets are listed in the order of their first occurrence.
   */
  function ColorStr(content: string): string {
    [ESC] + Join([ESC], Distinct(SpanTexts(content, FindAll(Bracket, content, 0), 0))) + [ESC]
  }

  lemma StartsWithShift(a: string, t: string, i: nat, c: string)
    requires i <= |t|
    ensures StartsWith(a + t, |a| + i, c) == StartsWith(t, i, c)
  {
    StartsWithSpec(a + t, |a| + i, c);
    StartsWithSpec(t, i, c);
    if i + |c| <= |t| {
      assert (a + t)[|a| + i..|a| + i + |c|] == t[i..i + |c|];
    }
  }

  /** Every joined entry, with the ESC before it, occurs in the colour string. */
  lemma {:induction false} JoinHas(xs: seq<string>, x: string)
    requires x in xs
    ensures Search([ESC] + Join([ESC], xs) + [ESC], 0, [ESC] + x)
    decreases |xs|
  {
    var text := [ESC] + Join([ESC], xs) + [ESC];
    if xs[0] == x {
      var tail := if |xs| == 1 then [ESC] else [ESC] + Join([ESC], xs[1..]) + [ESC];
      assert text == ([ESC] + x) + tail;
      StartsWithSpec(text, 0, [ESC] + x);
      assert text[..|[ESC] + x|] == [ESC] + x;
    } else {
      var a := [ESC] + xs[0];
      var t := [ESC] + Join([ESC], xs[1..]) + [ESC];
      assert text == a + t;
      JoinHas(xs[1..], x);
      var j :| 0 <= j <= |t| && StartsWith(t, j, [ESC] + x) by {
        SearchWitness(t, 0, [ESC] + x);
      }
      StartsWithShift(a, t, j, [ESC] + x);
      SearchFrom(text, 0, |a| + j, [ESC] + x);
    }
  }

  lemma {:induction false} SearchWitness(text: string, i: nat, c: string)
    requires i <= |text| && Search(text, i, c)
    ensures exists j :: i <= j <= |text| && StartsWith(text, j, c)
    decreases |text| - i
  {
    if !StartsWith(text, i, c) {
      SearchWitness(text, i + 1, c);
    }
  }

  /** No bracket that starts before a `[` reaches past it. */
  lemma BracketStops(t: string, j: nat)
    requires j < |t| && t[j] == '['
    ensures forall k :: 0 <= k < j ==> k + BracketLen(t, k) <= j
  {
    forall k | 0 <= k < j
      ensures k + BracketLen(t, k) <= j
    {
      if k < |t| && t[k] == '[' {
        ParamEndSpec(t, k + 1);
      }
    }
  }

  /**
   * An SGR sequence of the text survives the filter: its bracket part is one of the
   * brackets `re.findall` collects, and the ESC before it is in the colour string.
   */
  lemma TokenInColorStr(t: string, q: nat, c: string)
    requires IsToken(c) && q + |c| <= |t| && t[q..q + |c|] == c
    ensures Search(ColorStr(t), 0, c)
  {
    var j, br := q + 1, c[1..];
    BracketFound(t, q, c);
    var spans := FindAll(Bracket, t, 0);
    SpanTextsHas(t, spans, 0, (j, j + |br|));
    assert t[j..j + |br|] == br;
    var d := Distinct(SpanTexts(t, spans, 0));
    JoinHas(d, br);
    assert [ESC] + br == c;
  }

  /** The bracket part of an SGR sequence in the text is one of the brackets `re.findall` collects. */
  lemma BracketFound(t: string, q: nat, c: string)
    requires IsToken(c) && q + |c| <= |t| && t[q..q + |c|] == c
    ensures (q + 1, q + |c|) in FindAll(Bracket, t, 0)
  {
    var j := q + 1;
    var br := c[1..];
    assert t[j..j + |br|] == br;
    assert t[j] == '[';
    BracketLenSpec(t, j);
    assert BracketLen(t, j) == |br|;
    BracketStops(t, j);
    FindAllComplete(Bracket, t, 0, j);
  }

  /**
   * A definition whose codes are SGR sequences and whose matcher finds anything in
   * the text keeps both its codes through the filter.
   */
  lemma MatchedCodesKept(t: string, fg: string, bg: string)
    requires IsToken(fg) && IsToken(bg) && FindAll(Pair(fg, bg), t, 0) != []
    ensures Search(ColorStr(t), 0, fg) && Search(ColorStr(t), 0, bg)
  {
    FindAllSound(Pair(fg, bg), t, 0, 0);
    var a := FindAll(Pair(fg, bg), t, 0)[0].0;
    assert MatchLen(Pair(fg, bg), t, a) > 0;
    PairCodesKept(t, a, fg, bg);
  }

  lemma PairCodesKept(t: string, a: nat, fg: string, bg: string)
    requires IsToken(fg) && IsToken(bg) && a <= |t| && PairLen(t, a, fg, bg) > 0
    ensures Search(ColorStr(t), 0, fg) && Search(ColorStr(t), 0, bg)
  {
    PairCodes(t, a, fg, bg);
    if t[a..a + |fg|] == fg && t[a + |fg|..a + |fg| + |bg|] == bg {
      TokenInColorStr(t, a, fg);
      TokenInColorStr(t, a + |fg|, bg);
    } else {
      TokenInColorStr(t, a, bg);
      TokenInColorStr(t, a + |bg|, fg);
    }
  }

  /** `ansi_definitions(content)`: all pairs without content, the filtered pairs with it. */
  function AnsiDefinitions(bgs: seq<ColorSetting>, fgs: seq<ColorSetting>, content: Option<string>): seq<AnsiDefinition> {
    match content
    case None => Cross(bgs, fgs)
    case Some(t) => Cross(Keep(bgs, ColorStr(t)), Keep(fgs, ColorStr(t)))
  }

  /**
   * The regions the loop over the definitions collects: a definition with matches
   * sets its scope to its spans, a later definition with the same scope overwrites
   * an earlier one, and a definition without matches changes nothing.
   */
  function Found(m: map<string, seq<Span>>, defs: seq<AnsiDefinition>, t: string): map<string, seq<Span>>
    decreases |defs|
  {
    if defs == [] then m
    else
      var before := Found(m, defs[..|defs| - 1], t);
      var d := defs[|defs| - 1];
      var spans := FindAll(d.regex, t, 0);
      if spans != [] then before[d.scope := spans] else before
  }

  /** Conversely, a definition with matches puts its scope among the collected ones. */
  lemma {:induction false} FoundHas(m: map<string, seq<Span>>, defs: seq<AnsiDefinition>, t: string, i: nat)
    requires i < |defs| && FindAll(defs[i].regex, t, 0) != []
    ensures defs[i].scope in Found(m, defs, t)
    decreases |defs|
  {
    var init := defs[..|defs| - 1];
    if i < |defs| - 1 {
      assert init[i] == defs[i];
      FoundHas(m, init, t, i);
    }
  }

  /**
   * A definition with matches that no later definition of its scope overrides decides
   * its scope: the scope holds exactly that definition's matches.
   */
  lemma {:induction false} FoundLast(m: map<string, seq<Span>>, defs: seq<AnsiDefinition>, t: string, i: nat)
    requires i < |defs| && FindAll(defs[i].regex, t, 0) != []
    requires forall j :: i < j < |defs| && defs[j].scope == defs[i].scope ==> FindAll(defs[j].regex, t, 0) == []
    ensures defs[i].scope in Found(m, defs, t)
    ensures Found(m, defs, t)[defs[i].scope] == FindAll(defs[i].regex, t, 0)
    decreases |defs|
  {
    var init := defs[..|defs| - 1];
    if i < |defs| - 1 {
      assert init[i] == defs[i];
      forall j | i < j < |init| && init[j].scope == init[i].scope
        ensures FindAll(init[j].regex, t, 0) == []
      {
        assert init[j] == defs[j];
      }
      FoundLast(m, init, t, i);
    }
  }

  /** No two definitions share a scope. */
  predicate DistinctScopes(defs: seq<AnsiDefinition>) {
    forall a, b :: 0 <= a < b < |defs| ==> defs[a].scope != defs[b].scope
  }

  /**
   * Wherever both codes occur together, in either order, and no earlier match of the
   * definition reaches past that point, `finditer` reports a match there that runs to
   * the next ESC.
   */
  lemma PairFound(t: string, fg: string, bg: string, j: nat)
    requires IsToken(fg) && IsToken(bg)
    requires var w := |fg| + |bg|;
      && j + w <= |t| && (t[j..j + w] == fg + bg || t[j..j + w] == bg + fg)
      && forall k :: 0 <= k < j ==> k + PairLen(t, k, fg, bg) <= j
    ensures (j, NonEscEnd(t, j + |fg| + |bg|)) in FindAll(Pair(fg, bg), t, 0)
  {
    PairLenSpec(t, j, fg, bg);
    assert forall k :: 0 <= k < j ==> k + MatchLen(Pair(fg, bg), t, k) <= j;
    FindAllComplete(Pair(fg, bg), t, 0, j);
  }

  /** A pair of settings whose definition has matches gets its scope collected. */
  lemma CrossFound(bgs: seq<ColorSetting>, fgs: seq<ColorSetting>, t: string, bi: nat, fj: nat)
    requires bi < |bgs| && fj < |fgs| && FindAll(Pair(fgs[fj].code, bgs[bi].code), t, 0) != []
    ensures fgs[fj].scope + bgs[bi].scope in Found(map[], Cross(bgs, fgs), t)
    ensures DistinctScopes(Cross(bgs, fgs)) ==>
      Found(map[], Cross(bgs, fgs), t)[fgs[fj].scope + bgs[bi].scope] == FindAll(Pair(fgs[fj].code, bgs[bi].code), t, 0)
  {
    var defs := Cross(bgs, fgs);
    var idx := bi * |fgs| + fj;
    CrossShape(bgs, fgs, bi, fj);
    FoundHas(map[], defs, t, idx);
    if DistinctScopes(defs) {
      FoundLast(map[], defs, t, idx);
    }
  }

  /**
   * With distinct scopes, wherever the codes of background `bi` and foreground `fj`
   * occur together and no earlier match of their definition reaches past that point,
   * their scope holds the definition's matches, the one starting there among them.
   */
  lemma FoundRegion(bgs: seq<ColorSetting>, fgs: seq<ColorSetting>, t: string, bi: nat, fj: nat, j: nat)
    requires TokenCodes(bgs) && TokenCodes(fgs) && bi < |bgs| && fj < |fgs|
    requires DistinctScopes(Cross(bgs, fgs))
    requires var fg, bg := fgs[fj].code, bgs[bi].code; var w := |fg| + |bg|;
      && j + w <= |t| && (t[j..j + w] == fg + bg || t[j..j + w] == bg + fg)
      && forall k :: 0 <= k < j ==> k + PairLen(t, k, fg, bg) <= j
    ensures var fg, bg, scope := fgs[fj].code, bgs[bi].code, fgs[fj].scope + bgs[bi].scope;
      && scope in Found(map[], Cross(bgs, fgs), t)
      && Found(map[], Cross(bgs, fgs), t)[scope] == FindAll(Pair(fg, bg), t, 0)
      && (j, NonEscEnd(t, j + |fg| + |bg|)) in Found(map[], Cross(bgs, fgs), t)[scope]
  {
    assert IsToken(fgs[fj].code) && IsToken(bgs[bi].code);
    PairFound(t, fgs[fj].code, bgs[bi].code, j);
    CrossFound(bgs, fgs, t, bi, fj);
  }

  lemma {:induction false} FoundAppend(m: map<string, seq<Span>>, xs: seq<AnsiDefinition>, ys: seq<AnsiDefinition>, t: string)
    ensures Found(m, xs + ys, t) == Found(Found(m, xs, t), ys, t)
    decreases |ys|
  {
    if ys == [] {
      assert xs + ys == xs;
    } else {
      FoundAppend(m, xs, ys[..|ys| - 1], t);
      assert (xs + ys)[..|xs + ys| - 1] == xs + ys[..|ys| - 1];
    }
  }

  /** Definitions without matches leave the collected regions unchanged. */
  lemma {:induction false} FoundNone(m: map<string, seq<Span>>, defs: seq<AnsiDefinition>, t: string)
    requires forall k :: 0 <= k < |defs| ==> FindAll(defs[k].regex, t, 0) == []
    ensures Found(m, defs, t) == m
    decreases |defs|
  {
    if defs != [] {
      FoundNone(m, defs[..|defs| - 1], t);
    }
  }

  /** All codes are SGR sequences. */
  predicate TokenCodes(settings: seq<ColorSetting>) {
    forall k :: 0 <= k < |settings| ==> IsToken(settings[k].code)
  }

  lemma {:induction false} RowFiltered(m: map<string, seq<Span>>, bg: ColorSetting, fgs: seq<ColorSetting>, t: string)
    requires IsToken(bg.code) && TokenCodes(fgs)
    ensures Found(m, Row(bg, Keep(fgs, ColorStr(t))), t) == Found(m, Row(bg, fgs), t)
    decreases |fgs|
  {
    if fgs != [] {
      var fg := fgs[0];
      var m' := Found(m, [Define(fg, bg)], t);
      assert TokenCodes(fgs[1..]) by {
        forall k | 0 <= k < |fgs[1..]| ensures IsToken(fgs[1..][k].code) { assert fgs[1..][k] == fgs[k + 1]; }
      }
      assert IsToken(fg.code) by { assert fgs[0] == fg; }
      FoundAppend(m, [Define(fg, bg)], Row(bg, fgs[1..]), t);
      if Search(ColorStr(t), 0, fg.code) {
        RowFiltered(m', bg, fgs[1..], t);
        FoundAppend(m, [Define(fg, bg)], Row(bg, Keep(fgs[1..], ColorStr(t))), t);
      } else {
        if FindAll(Pair(fg.code, bg.code), t, 0) != [] {
          MatchedCodesKept(t, fg.code, bg.code);
        }
        assert m' == m;
        RowFiltered(m, bg, fgs[1..], t);
      }
    }
  }

  /** A background that fails the filter pairs with no foreground that has matches. */
  lemma {:induction false} RowDropped(m: map<string, seq<Span>>, bg: ColorSetting, fgs: seq<ColorSetting>, t: string)
    requires IsToken(bg.code) && TokenCodes(fgs) && !Search(ColorStr(t), 0, bg.code)
    ensures Found(m, Row(bg, fgs), t) == m
  {
    RowLength(bg, fgs);
    forall k | 0 <= k < |Row(bg, fgs)|
      ensures FindAll(Row(bg, fgs)[k].regex, t, 0) == []
    {
      RowAt(bg, fgs, k);
      if FindAll(Pair(fgs[k].code, bg.code), t, 0) != [] {
        MatchedCodesKept(t, fgs[k].code, bg.code);
      }
    }
    FoundNone(m, Row(bg, fgs), t);
  }

  /**
   * With SGR sequences as codes, narrowing the settings by the colour string never
   * changes the collected regions: it drops only definitions that match nothing.
   */
  lemma {:induction false} FilterKeepsRegions(m: map<string, seq<Span>>, bgs: seq<ColorSetting>, fgs: seq<ColorSetting>, t: string)
    requires TokenCodes(bgs) && TokenCodes(fgs)
    ensures Found(m, AnsiDefinitions(bgs, fgs, Some(t)), t) == Found(m, Cross(bgs, fgs), t)
    decreases |bgs|
  {
    var cs := ColorStr(t);
    if bgs != [] {
      var bg := bgs[0];
      assert IsToken(bg.code) by { assert bgs[0] == bg; }
      assert TokenCodes(bgs[1..]) by {
        forall k | 0 <= k < |bgs[1..]| ensures IsToken(bgs[1..][k].code) { assert bgs[1..][k] == bgs[k + 1]; }
      }
      FoundAppend(m, Row(bg, fgs), Cross(bgs[1..], fgs), t);
      var m' := Found(m, Row(bg, fgs), t);
      FilterKeepsRegions(m', bgs[1..], fgs, t);
      if Search(cs, 0, bg.code) {
        FoundAppend(m, Row(bg, Keep(fgs, cs)), Cross(Keep(bgs[1..], cs), Keep(fgs, cs)), t);
        RowFiltered(m, bg, fgs, t);
      } else {
        RowDropped(m, bg, fgs, t);
        FilterKeepsRegions(m, bgs[1..], fgs, t);
      }
    }
  }

  /** Every definition matches a pair of SGR sequences. */
  predicate TokenDefs(defs: seq<AnsiDefinition>) {
    forall k :: 0 <= k < |defs| ==> defs[k].regex.Pair? && IsToken(defs[k].regex.fg) && IsToken(defs[k].regex.bg)
  }

  lemma RowTokens(bg: ColorSetting, fgs: seq<ColorSetting>)
    requires IsToken(bg.code) && TokenCodes(fgs)
    ensures TokenDefs(Row(bg, fgs))
  {
    RowLength(bg, fgs);
    forall k | 0 <= k < |Row(bg, fgs)|
      ensures Row(bg, fgs)[k].regex == Pair(fgs[k].code, bg.code)
    {
      RowAt(bg, fgs, k);
    }
  }

  /** With SGR sequences as codes, every definition of the cross product matches two of them. */
  lemma {:induction false} CrossTokens(bgs: seq<ColorSetting>, fgs: seq<ColorSetting>)
    requires TokenCodes(bgs) && TokenCodes(fgs)
    ensures TokenDefs(Cross(bgs, fgs))
    decreases |bgs|
  {
    if bgs != [] {
      assert IsToken(bgs[0].code);
      assert TokenCodes(bgs[1..]) by {
        forall k | 0 <= k < |bgs[1..]| ensures IsToken(bgs[1..][k].code) { assert bgs[1..][k] == bgs[k + 1]; }
      }
      RowTokens(bgs[0], fgs);
      CrossTokens(bgs[1..], fgs);
      var row, rest := Row(bgs[0], fgs), Cross(bgs[1..], fgs);
      forall k | 0 <= k < |row + rest|
        ensures (row + rest)[k] == if k < |row| then row[k] else rest[k - |row|]
      {
      }
    }
  }

  /**
   * Every scope the loop over the definitions collects comes from one definition of
   * that scope, and its regions are that definition's matches.
   */
  lemma {:induction false} FoundOrigin(defs: seq<AnsiDefinition>, t: string, scope: string) returns (i: nat)
    requires scope in Found(map[], defs, t)
    ensures i < |defs| && defs[i].scope == scope
    ensures Found(map[], defs, t)[scope] == FindAll(defs[i].regex, t, 0)
    decreases |defs|
  {
    var init, d := defs[..|defs| - 1], defs[|defs| - 1];
    if FindAll(d.regex, t, 0) != [] && scope == d.scope {
      i := |defs| - 1;
    } else {
      i := FoundOrigin(init, t, scope);
      assert init[i] == defs[i];
    }
  }

  /** A scope none of whose definitions has matches is not collected. */
  lemma {:induction false} FoundAbsent(m: map<string, seq<Span>>, defs: seq<AnsiDefinition>, t: string, scope: string)
    requires scope !in m
    requires forall j :: 0 <= j < |defs| && defs[j].scope == scope ==> FindAll(defs[j].regex, t, 0) == []
    ensures scope !in Found(m, defs, t)
    decreases |defs|
  {
    if defs != [] {
      var init := defs[..|defs| - 1];
      forall j | 0 <= j < |init| && init[j].scope == scope
        ensures FindAll(init[j].regex, t, 0) == []
      {
        assert init[j] == defs[j];
      }
      FoundAbsent(m, init, t, scope);
    }
  }

  /**
   * When no two definitions share a scope, a definition's scope is collected exactly
   * when the definition has matches, and then holds those matches.
   */
  lemma FoundDistinct(defs: seq<AnsiDefinition>, t: string, i: nat)
    requires DistinctScopes(defs) && i < |defs|
    ensures defs[i].scope in Found(map[], defs, t) <==> FindAll(defs[i].regex, t, 0) != []
    ensures defs[i].scope in Found(map[], defs, t) ==> Found(map[], defs, t)[defs[i].scope] == FindAll(defs[i].regex, t, 0)
  {
    if FindAll(defs[i].regex, t, 0) != [] {
      FoundLast(map[], defs, t, i);
    } else {
      FoundAbsent(map[], defs, t, defs[i].scope);
    }
  }
}
