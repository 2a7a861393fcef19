/**
 * The fixed regular expressions of the plugin, as deterministic scanners.
 *
 * Every pattern the core hands to Python's `re` is modelled by `MatchLen`, the
 * length of the match that starts at a given position (0 when there is none).
 * `FindAll` is `re.finditer` (leftmost, non-overlapping, left to right) and `Sub`
 * is `re.sub` with a constant replacement.
 */
module Scanner {

  /** The escape character (0x1B) that opens every SGR sequence. */
  const ESC: char := '\U{1B}'

  /** A range of text positions [start, end); also the `[a, b]` pairs of a region. */
  type Span = (int, int)

  /** The characters of the class `[0-9;]`. */
  predicate IsParam(c: char) {
    '0' <= c <= '9' || c == ';'
  }

  /** `c` is the text `[ [0-9;]* m`, an SGR sequence without its leading ESC. */
  predicate IsBracket(c: string) {
    |c| >= 2 && c[0] == '[' && c[|c| - 1] == 'm'
    && forall k :: 1 <= k < |c| - 1 ==> IsParam(c[k])
  }

  /** `c` is one complete SGR sequence `ESC [ [0-9;]* m`. */
  predicate IsToken(c: string) {
    |c| >= 3 && c[0] == ESC && IsBracket(c[1..])
  }

  /** The attributes the plugin cannot render: dim, underline, blink, reverse, conceal. */
  predicate IsUnsupportedDigit(c: char) {
    c == '2' || c == '4' || c == '5' || c == '7' || c == '8'
  }

  /** `c` is `ESC [ (0;)? [24578] m`. */
  predicate IsUnsupported(c: string) {
    (|c| == 4 && c[0] == ESC && c[1] == '[' && IsUnsupportedDigit(c[2]) && c[3] == 'm')
    || (|c| == 6 && c[0] == ESC && c[1] == '[' && c[2] == '0' && c[3] == ';'
        && IsUnsupportedDigit(c[4]) && c[5] == 'm')
  }

  /** End of the longest run of `[0-9;]` that starts at `k`. */
  function ParamEnd(s: string, k: nat): (j: nat)
    requires k <= |s|
    ensures k <= j <= |s|
    decreases |s| - k
  {
    if k < |s| && IsParam(s[k]) then ParamEnd(s, k + 1) else k
  }

  /** `ParamEnd` stops at the first character outside `[0-9;]`. */
  lemma {:induction false} ParamEndSpec(s: string, k: nat)
    requires k <= |s|
    ensures forall n :: k <= n < ParamEnd(s, k) ==> IsParam(s[n])
    ensures ParamEnd(s, k) < |s| ==> !IsParam(s[ParamEnd(s, k)])
    decreases |s| - k
  {
    if k < |s| && IsParam(s[k]) {
      ParamEndSpec(s, k + 1);
    }
  }

  /** End of the longest run of `[^\x1b]` that starts at `k`. */
  function NonEscEnd(s: string, k: nat): (j: nat)
    requires k <= |s|
    ensures k <= j <= |s|
    decreases |s| - k
  {
    if k < |s| && s[k] != ESC then NonEscEnd(s, k + 1) else k
  }

  /** `NonEscEnd` stops at the first ESC. */
  lemma {:induction false} NonEscEndSpec(s: string, k: nat)
    requires k <= |s|
    ensures forall n :: k <= n < NonEscEnd(s, k) ==> s[n] != ESC
    ensures NonEscEnd(s, k) < |s| ==> s[NonEscEnd(s, k)] == ESC
    decreases |s| - k
  {
    if k < |s| && s[k] != ESC {
      NonEscEndSpec(s, k + 1);
    }
  }

  /** Length of the match of `\[[0-9;]*m` at `i`, or 0. */
  function BracketLen(s: string, i: nat): (n: nat)
    requires i <= |s|
    ensures i + n <= |s|
  {
    if i < |s| && s[i] == '[' then
      var k := ParamEnd(s, i + 1);
      if k < |s| && s[k] == 'm' then k + 1 - i else 0
    else
      0
  }

  /** `BracketLen` reports exactly the bracket that starts at `i`. */
  lemma BracketLenSpec(s: string, i: nat)
    requires i <= |s|
    ensures BracketLen(s, i) > 0 ==> IsBracket(s[i..i + BracketLen(s, i)])
    ensures forall e :: i <= e <= |s| && IsBracket(s[i..e]) ==> BracketLen(s, i) == e - i
  {
    if i < |s| {
      ParamEndSpec(s, i + 1);
    }
    forall e | i <= e <= |s| && IsBracket(s[i..e])
      ensures BracketLen(s, i) == e - i
    {
      var c := s[i..e];
      assert c[0] == s[i];
      assert !IsParam(s[e - 1]) by { assert c[|c| - 1] == s[e - 1]; }
      assert forall n :: i + 1 <= n < e - 1 ==> IsParam(s[n]) by {
        forall n | i + 1 <= n < e - 1 ensures IsParam(s[n]) { assert c[n - i] == s[n]; }
      }
    }
  }

  /** Length of the SGR sequence `\x1b\[[0-9;]*m` at `i`, or 0. */
  function TokenLen(s: string, i: nat): (n: nat)
    requires i <= |s|
    ensures i + n <= |s|
  {
    if i < |s| && s[i] == ESC && BracketLen(s, i + 1) > 0 then 1 + BracketLen(s, i + 1) else 0
  }

  /**
   * `TokenLen` reports exactly the SGR sequence that starts at `i`, and such a
   * sequence holds no ESC after its first character.
   */
  lemma TokenLenSpec(s: string, i: nat)
    requires i <= |s|
    ensures TokenLen(s, i) > 0 ==> 3 <= TokenLen(s, i) && IsToken(s[i..i + TokenLen(s, i)])
    ensures TokenLen(s, i) > 0 ==> forall k :: i < k < i + TokenLen(s, i) ==> s[k] != ESC
    ensures forall e :: i <= e <= |s| && IsToken(s[i..e]) ==> TokenLen(s, i) == e - i
  {
    if i < |s| {
      BracketLenSpec(s, i + 1);
    }
    var n := TokenLen(s, i);
    if n > 0 {
      assert s[i..i + n][1..] == s[i + 1..i + n];
      assert forall k :: i + 1 < k < i + n ==> s[k] == s[i + 1..i + n][k - i - 1];
    }
    forall e | i <= e <= |s| && IsToken(s[i..e])
      ensures TokenLen(s, i) == e - i
    {
      assert s[i..e][0] == s[i];
      assert s[i..e][1..] == s[i + 1..e];
    }
  }

  /** Length of the match of `\x1b\[(0;)?[24578]m` at `i`, or 0. */
  function UnsupportedLen(s: string, i: nat): (n: nat)
    requires i <= |s|
    ensures i + n <= |s|
  {
    if i + 6 <= |s| && s[i] == ESC && s[i + 1] == '[' && s[i + 2] == '0' && s[i + 3] == ';'
       && IsUnsupportedDigit(s[i + 4]) && s[i + 5] == 'm' then
      6
    else if i + 4 <= |s| && s[i] == ESC && s[i + 1] == '[' && IsUnsupportedDigit(s[i + 2])
       && s[i + 3] == 'm' then
      4
    else
      0
  }

  /** `UnsupportedLen` reports exactly the unsupported sequence that starts at `i`. */
  lemma UnsupportedLenSpec(s: string, i: nat)
    requires i <= |s|
    ensures UnsupportedLen(s, i) > 0 ==> IsUnsupported(s[i..i + UnsupportedLen(s, i)])
    ensures forall e :: i <= e <= |s| && IsUnsupported(s[i..e]) ==> UnsupportedLen(s, i) == e - i
  {
  }

  /** End of the maximal run of adjacent SGR sequences that starts at `i` (`i` if none). */
  function RunEnd(s: string, i: nat): (e: nat)
    requires i <= |s|
    ensures i <= e <= |s|
    ensures e > i <==> TokenLen(s, i) > 0
    decreases |s| - i
  {
    if TokenLen(s, i) > 0 then RunEnd(s, i + TokenLen(s, i)) else i
  }

  /** The regular expressions of the core. */
  datatype Pattern =
    | Code                          // \x1b\[[0-9;]*m
    | CodeRun                       // (\x1b\[[0-9;]*m)+
    | Unsupported                   // \x1b\[(0;)?[24578]m
    | Bracket                       // \[[0-9;]*m
    | Pair(fg: string, bg: string)  // (?:fg bg|bg fg)[^\x1b]*, with literal codes

  /** The literal `c` occurs in `s` at position `i`. */
  predicate StartsWith(s: string, i: nat, c: string)
    requires i <= |s|
    decreases |c|
  {
    c == [] || (i < |s| && s[i] == c[0] && StartsWith(s, i + 1, c[1..]))
  }

  lemma {:induction false} StartsWithSpec(s: string, i: nat, c: string)
    requires i <= |s|
    ensures StartsWith(s, i, c) <==> i + |c| <= |s| && s[i..i + |c|] == c
    decreases |c|
  {
    if c != [] && i < |s| {
      StartsWithSpec(s, i + 1, c[1..]);
      if i + |c| <= |s| {
        assert s[i..i + |c|] == [s[i]] + s[i + 1..i + 1 + |c[1..]|];
        assert c == [c[0]] + c[1..];
      }
    }
  }

  /**
   * Length of the span a definition's matcher covers at `i`: either order of the two
   * codes, then the longest run of characters other than ESC.
   */
  function PairLen(s: string, i: nat, fg: string, bg: string): (n: nat)
    requires i <= |s|
    ensures i + n <= |s|
  {
    if StartsWith(s, i, fg + bg) || StartsWith(s, i, bg + fg) then
      StartsWithSpec(s, i, fg + bg);
      StartsWithSpec(s, i, bg + fg);
      NonEscEnd(s, i + |fg| + |bg|) - i
    else
      0
  }

  /**
   * A definition's span opens with its two codes, in either order, and then runs over
   * characters other than ESC up to the next ESC or the end of the text. Conversely,
   * wherever the two codes occur, in either order, the matcher accepts the codes and
   * the longest ESC-free run after them.
   */
  lemma PairLenSpec(s: string, i: nat, fg: string, bg: string)
    requires i <= |s|
    ensures var n := PairLen(s, i, fg, bg);
      n > 0 ==>
        && i + |fg| + |bg| <= i + n <= |s|
        && (s[i..i + |fg| + |bg|] == fg + bg || s[i..i + |fg| + |bg|] == bg + fg)
        && (forall k :: i + |fg| + |bg| <= k < i + n ==> s[k] != ESC)
        && (i + n == |s| || s[i + n] == ESC)
    ensures var w := |fg| + |bg|;
      i + w <= |s| && (s[i..i + w] == fg + bg || s[i..i + w] == bg + fg) ==>
        PairLen(s, i, fg, bg) == NonEscEnd(s, i + w) - i >= w
  {
    StartsWithSpec(s, i, fg + bg);
    StartsWithSpec(s, i, bg + fg);
    if i + |fg| + |bg| <= |s| {
      NonEscEndSpec(s, i + |fg| + |bg|);
    }
  }

  /** A definition's match opens with its two codes, in some order. */
  lemma PairCodes(t: string, a: nat, fg: string, bg: string)
    requires a <= |t| && PairLen(t, a, fg, bg) > 0
    ensures && a + |fg| + |bg| <= |t|
      && ((t[a..a + |fg|] == fg && t[a + |fg|..a + |fg| + |bg|] == bg)
          || (t[a..a + |bg|] == bg && t[a + |bg|..a + |bg| + |fg|] == fg))
  {
    PairLenSpec(t, a, fg, bg);
    if t[a..a + |fg| + |bg|] == fg + bg {
      Halves(t, a, fg, bg);
    } else {
      Halves(t, a, bg, fg);
    }
  }

  lemma Halves(t: string, a: nat, x: string, y: string)
    requires a + |x| + |y| <= |t| && t[a..a + |x| + |y|] == x + y
    ensures t[a..a + |x|] == x && t[a + |x|..a + |x| + |y|] == y
  {
    assert t[a..a + |x|] == (x + y)[..|x|];
    assert t[a + |x|..a + |x| + |y|] == (x + y)[|x|..];
  }

  /** Length of the match of `p` at `i`; 0 means that `p` does not match there. */
  function MatchLen(p: Pattern, s: string, i: nat): (n: nat)
    requires i <= |s|
    ensures i + n <= |s|
  {
    match p
    case Code => TokenLen(s, i)
    case CodeRun => RunEnd(s, i) - i
    case Unsupported => UnsupportedLen(s, i)
    case Bracket => BracketLen(s, i)
    case Pair(fg, bg) => PairLen(s, i, fg, bg)
  }

  /** Spans in increasing order, pairwise disjoint, non-empty, inside [lo, hi]. */
  ghost predicate Ordered(spans: seq<Span>, lo: int, hi: int)
    decreases |spans|
  {
    spans == [] || (lo <= spans[0].0 < spans[0].1 <= hi && Ordered(spans[1..], spans[0].1, hi))
  }

  /** A table of match lengths, one per position, none reaching past the end. */
  predicate Fits(m: seq<nat>) {
    forall k :: 0 <= k < |m| ==> k + m[k] <= |m|
  }

  /** The length of the match of `p` at every position of `s`. */
  function Lengths(p: Pattern, s: string): (m: seq<nat>)
    ensures |m| == |s| && Fits(m)
    ensures forall k :: 0 <= k < |s| ==> m[k] == MatchLen(p, s, k)
  {
    seq(|s|, k requires 0 <= k < |s| => MatchLen(p, s, k))
  }

  /** The leftmost non-overlapping scan over a table of match lengths, from `i`. */
  function Scan(m: seq<nat>, i: nat): (r: seq<Span>)
    requires i <= |m| && Fits(m)
    ensures Ordered(r, i, |m|)
    decreases |m| - i
  {
    if i == |m| then []
    else if m[i] > 0 then [(i, i + m[i])] + Scan(m, i + m[i])
    else Scan(m, i + 1)
  }

  /** The text from `i` with every match the scan reports replaced by `rep`. */
  function ScanSub(m: seq<nat>, s: string, i: nat, rep: string): string
    requires |m| == |s| && i <= |s| && Fits(m)
    decreases |s| - i
  {
    if i == |s| then []
    else if m[i] > 0 then rep + ScanSub(m, s, i + m[i], rep)
    else [s[i]] + ScanSub(m, s, i + 1, rep)
  }

  /** `re.finditer(p, s[i:])`: the spans of all leftmost non-overlapping matches. */
  function FindAll(p: Pattern, s: string, i: nat): (r: seq<Span>)
    requires i <= |s|
    ensures Ordered(r, i, |s|)
  {
    Scan(Lengths(p, s), i)
  }

  /** `re.sub(p, rep, s[i:])`. */
  function Sub(p: Pattern, s: string, i: nat, rep: string): string
    requires i <= |s|
  {
    ScanSub(Lengths(p, s), s, i, rep)
  }

  /** Total length of a list of spans. */
  function Covered(spans: seq<Span>): int {
    if spans == [] then 0 else (spans[0].1 - spans[0].0) + Covered(spans[1..])
  }

  /** One step of the scan: the match at `i`, if any, then the scan from where it ends. */
  lemma ScanStep(m: seq<nat>, i: nat)
    requires i < |m| && Fits(m)
    ensures Scan(m, i) == (if m[i] > 0 then [(i, i + m[i])] else []) + Scan(m, if m[i] > 0 then i + m[i] else i + 1)
  {
  }

  /** One step of the rewriting scan. */
  lemma ScanSubStep(m: seq<nat>, s: string, i: nat, rep: string)
    requires |m| == |s| && i < |s| && Fits(m)
    ensures ScanSub(m, s, i, rep)
      == (if m[i] > 0 then rep else [s[i]]) + ScanSub(m, s, if m[i] > 0 then i + m[i] else i + 1, rep)
  {
  }

  lemma FindAllStep(p: Pattern, s: string, i: nat)
    requires i < |s|
    ensures var n := MatchLen(p, s, i);
      FindAll(p, s, i) == (if n > 0 then [(i, i + n)] else []) + FindAll(p, s, if n > 0 then i + n else i + 1)
  {
    ScanStep(Lengths(p, s), i);
  }

  /** One step of `re.sub`: the replacement or the character at `i`, then the rest. */
  lemma SubStep(p: Pattern, s: string, i: nat, rep: string)
    requires i < |s|
    ensures var n := MatchLen(p, s, i);
      Sub(p, s, i, rep) == (if n > 0 then rep else [s[i]]) + Sub(p, s, if n > 0 then i + n else i + 1, rep)
  {
    var m := Lengths(p, s);
    assert ScanSub(m, s, i, rep)
      == (if m[i] > 0 then rep else [s[i]]) + ScanSub(m, s, if m[i] > 0 then i + m[i] else i + 1, rep);
  }

  lemma {:induction false} ScanSound(m: seq<nat>, i: nat, k: nat)
    requires i <= |m| && Fits(m) && k < |Scan(m, i)|
    ensures var sp := Scan(m, i)[k]; i <= sp.0 < sp.1 <= |m| && m[sp.0] == sp.1 - sp.0
    decreases |m| - i
  {
    ScanStep(m, i);
    if m[i] > 0 {
      if k > 0 {
        ScanSound(m, i + m[i], k - 1);
      }
    } else {
      ScanSound(m, i + 1, k);
    }
  }

  /** Every span `FindAll` reports is a match of the pattern at its start. */
  lemma FindAllSound(p: Pattern, s: string, i: nat, k: nat)
    requires i <= |s| && k < |FindAll(p, s, i)|
    ensures var sp := FindAll(p, s, i)[k];
      i <= sp.0 < sp.1 <= |s| && MatchLen(p, s, sp.0) == sp.1 - sp.0
  {
    ScanSound(Lengths(p, s), i, k);
  }

  lemma {:induction false} ScanComplete(m: seq<nat>, i: nat, j: nat)
    requires Fits(m) && i <= j < |m| && m[j] > 0
    requires forall k :: i <= k < j ==> k + m[k] <= j
    ensures (j, j + m[j]) in Scan(m, i)
    decreases j - i
  {
    ScanStep(m, i);
    if i < j {
      ScanComplete(m, if m[i] > 0 then i + m[i] else i + 1, j);
    }
  }

  /**
   * A match at `j` that no earlier match can overlap is reported by `FindAll`:
   * the scan never skips over it.
   */
  lemma FindAllComplete(p: Pattern, s: string, i: nat, j: nat)
    requires i <= j < |s| && MatchLen(p, s, j) > 0
    requires forall k :: i <= k < j ==> k + MatchLen(p, s, k) <= j
    ensures (j, j + MatchLen(p, s, j)) in FindAll(p, s, i)
  {
    var m := Lengths(p, s);
    assert forall k :: i <= k < j ==> k + m[k] <= j;
    ScanComplete(m, i, j);
  }

  /** A span list ordered inside [lo, hi] is ordered inside any wider range. */
  lemma OrderedWeaken(spans: seq<Span>, lo: int, hi: int, lo': int)
    requires Ordered(spans, lo, hi) && lo' <= lo
    ensures Ordered(spans, lo', hi)
  {
  }

  /** What `Ordered` says about the span at index `i` and the spans after it. */
  lemma {:induction false} OrderedAt(spans: seq<Span>, lo: int, hi: int, i: nat)
    requires Ordered(spans, lo, hi) && i < |spans|
    ensures lo <= spans[i].0 < spans[i].1 <= hi
    ensures Ordered(spans[i..], spans[i].0, hi)
    ensures Ordered(spans[i + 1..], spans[i].1, hi)
    ensures i + 1 < |spans| ==> spans[i].1 <= spans[i + 1].0
    decreases i
  {
    if i > 0 {
      OrderedAt(spans[1..], spans[0].1, hi, i - 1);
      assert spans[1..][i - 1..] == spans[i..];
      assert spans[1..][i..] == spans[i + 1..];
    }
  }

  /** The quantified reading of `Ordered`: bounds of every span and order between any two. */
  lemma {:induction false} OrderedAll(spans: seq<Span>, lo: int, hi: int)
    requires Ordered(spans, lo, hi)
    ensures forall k :: 0 <= k < |spans| ==> lo <= spans[k].0 < spans[k].1 <= hi
    ensures forall a, b :: 0 <= a < b < |spans| ==> spans[a].1 <= spans[b].0
    decreases |spans|
  {
    if spans != [] {
      OrderedAll(spans[1..], spans[0].1, hi);
    }
  }
}
