/**
 * Replacing the attributes the plugin cannot render (dim, underline, blink,
 * reverse, conceal: `ESC[2m`, `ESC[4m`, `ESC[5m`, `ESC[7m`, `ESC[8m`, each also with
 * a `0;` prefix) by bold, `ESC[1m`, before anything else looks at the text.
 */
module Normalization {
  import opened Scanner
  import opened Splicing

  /** The replacement `\x1b[1m`. */
  const BOLD: string := [ESC, '[', '1', 'm']

  /** `re.sub(r'\x1b\[(0;)?[24578]m', "\x1b[1m", s)`. */
  function Normalize(s: string): string {
    Sub(Unsupported, s, 0, BOLD)
  }

  /** The replacement is not itself an unsupported sequence. */
  lemma BoldIsSupported()
    ensures UnsupportedLen(BOLD, 0) == 0
    ensures !IsUnsupported(BOLD)
  {
  }

  /** The rewrite replaces exactly the spans `re.finditer` reports and keeps the text between them. */
  lemma NormalizeIsSplice(s: string)
    ensures Normalize(s) == Splice(s, FindAll(Unsupported, s, 0), 0, BOLD)
  {
    SubIsSplice(Unsupported, s, 0, BOLD);
  }

  /** Each replaced span is an unsupported sequence, `ESC[Xm` or `ESC[0;Xm`. */
  lemma NormalizeReplacesMatches(s: string, k: nat)
    requires k < |FindAll(Unsupported, s, 0)|
    ensures var sp := FindAll(Unsupported, s, 0)[k];
      0 <= sp.0 < sp.1 <= |s| && IsUnsupported(s[sp.0..sp.1])
  {
    FindAllSound(Unsupported, s, 0, k);
    UnsupportedLenSpec(s, FindAll(Unsupported, s, 0)[k].0);
  }

  /** Every replaced sequence is at least as long as `ESC[1m`: the text never grows. */
  lemma {:induction false} NormalizeShorter(s: string, i: nat)
    requires i <= |s|
    ensures |Sub(Unsupported, s, i, BOLD)| <= |s| - i
    decreases |s| - i
  {
    if i < |s| {
      var n := UnsupportedLen(s, i);
      if n > 0 {
        NormalizeShorter(s, i + n);
      } else {
        NormalizeShorter(s, i + 1);
      }
    }
  }

  /** Whether an unsupported sequence starts at `|x| + k` depends only on what follows. */
  lemma UnsupportedSuffix(x: string, y: string, k: nat)
    requires k <= |y|
    ensures UnsupportedLen(x + y, |x| + k) == UnsupportedLen(y, k)
  {
    var s := x + y;
    assert forall d :: 0 <= d < |y| ==> s[|x| + d] == y[d];
  }

  /**
   * An unsupported sequence holds no ESC after its first character, so whether one
   * starts at `i` is decided before the next ESC.
   */
  lemma UnsupportedWindow(x: string, i: nat, e: nat)
    requires i < e <= |x| && (e == |x| || x[e] == ESC)
    ensures UnsupportedLen(x, i) == UnsupportedLen(x[i..e], 0)
  {
    var w := x[i..e];
    assert forall d :: 0 <= d < e - i ==> w[d] == x[i + d];
  }

  /** Text without ESC passes through the rewrite unchanged. */
  lemma {:induction false} NormalizePlain(s: string, j: nat)
    requires j <= |s|
    ensures var m := NonEscEnd(s, j);
      Sub(Unsupported, s, j, BOLD) == s[j..m] + Sub(Unsupported, s, m, BOLD)
    decreases |s| - j
  {
    if j < |s| && s[j] != ESC {
      NormalizePlain(s, j + 1);
      var m := NonEscEnd(s, j);
      assert UnsupportedLen(s, j) == 0;
      assert Sub(Unsupported, s, j, BOLD) == [s[j]] + Sub(Unsupported, s, j + 1, BOLD);
      assert s[j..m] == [s[j]] + s[j + 1..m];
    }
  }

  /** No unsupported sequence starts anywhere in `t`. */
  predicate NoUnsupported(t: string) {
    forall k :: 0 <= k <= |t| ==> UnsupportedLen(t, k) == 0
  }

  /** Prepending `head` keeps `t` free of unsupported sequences when none starts inside `head`. */
  lemma PrefixKeepsNone(head: string, t: string)
    requires NoUnsupported(t)
    requires forall k :: 0 <= k < |head| ==> UnsupportedLen(head + t, k) == 0
    ensures NoUnsupported(head + t)
  {
    forall k | |head| <= k <= |head + t|
      ensures UnsupportedLen(head + t, k) == 0
    {
      UnsupportedSuffix(head, t, k - |head|);
      assert |head| + (k - |head|) == k;
    }
  }

  /** The rewrite starts with ESC wherever the input has one. */
  lemma RewriteKeepsEsc(s: string, m: nat)
    requires m < |s| && s[m] == ESC
    ensures |Sub(Unsupported, s, m, BOLD)| > 0 && Sub(Unsupported, s, m, BOLD)[0] == ESC
  {
  }

  /** Two texts that agree up to an ESC (or their end) agree on an unsupported sequence there. */
  lemma WindowAgree(s: string, i: nat, m: nat, t: string)
    requires i < m <= |s| && (m == |s| || s[m] == ESC)
    requires m - i <= |t| && t[..m - i] == s[i..m] && (|t| == m - i || t[m - i] == ESC)
    ensures UnsupportedLen(t, 0) == UnsupportedLen(s, i)
  {
    UnsupportedWindow(s, i, m);
    UnsupportedWindow(t, 0, m - i);
    assert t[0..m - i] == t[..m - i];
  }

  /** Up to the next ESC after `i`, the rewrite of `s[i..]` starting at an ESC copies the input. */
  lemma KeptEscShape(s: string, i: nat)
    requires i < |s| && s[i] == ESC
    ensures var m := NonEscEnd(s, i + 1); var t := [ESC] + Sub(Unsupported, s, i + 1, BOLD);
      && (m == |s| || s[m] == ESC)
      && m - i <= |t| && t[..m - i] == s[i..m] && (|t| == m - i || t[m - i] == ESC)
  {
    var m := NonEscEnd(s, i + 1);
    NonEscEndSpec(s, i + 1);
    NormalizePlain(s, i + 1);
    var rest := Sub(Unsupported, s, m, BOLD);
    var w := [ESC] + s[i + 1..m];
    assert w == s[i..m];
    if m < |s| {
      RewriteKeepsEsc(s, m);
    }
    ConcatWindow(w, rest);
  }

  /**
   * An ESC that does not open an unsupported sequence in the input does not open
   * one in the output either: up to the next ESC the output copies the input.
   */
  lemma KeptEsc(s: string, i: nat)
    requires i < |s| && s[i] == ESC && UnsupportedLen(s, i) == 0
    ensures UnsupportedLen([ESC] + Sub(Unsupported, s, i + 1, BOLD), 0) == 0
  {
    KeptEscShape(s, i);
    WindowAgree(s, i, NonEscEnd(s, i + 1), [ESC] + Sub(Unsupported, s, i + 1, BOLD));
  }

  lemma ConcatWindow(w: string, rest: string)
    requires rest == [] || rest[0] == ESC
    ensures (w + rest)[..|w|] == w
    ensures |w + rest| == |w| || (w + rest)[|w|] == ESC
  {
  }

  /** The output of the rewrite holds no unsupported sequence anywhere. */
  lemma {:induction false} NormalizeLeavesNone(s: string, i: nat)
    requires i <= |s|
    ensures NoUnsupported(Sub(Unsupported, s, i, BOLD))
    decreases |s| - i
  {
    if i < |s| {
      var n := UnsupportedLen(s, i);
      var next := if n > 0 then i + n else i + 1;
      var t' := Sub(Unsupported, s, next, BOLD);
      NormalizeLeavesNone(s, next);
      var head := if n > 0 then BOLD else [s[i]];
      assert Sub(Unsupported, s, i, BOLD) == head + t';
      if n == 0 && s[i] == ESC {
        KeptEsc(s, i);
      }
      PrefixKeepsNone(head, t');
    }
  }

  /** Running the rewrite a second time changes nothing. */
  lemma NormalizeIdempotent(s: string)
    ensures Normalize(Normalize(s)) == Normalize(s)
  {
    var t := Normalize(s);
    NormalizeLeavesNone(s, 0);
    assert NoUnsupported(t);
    forall k | 0 <= k < |t|
      ensures MatchLen(Unsupported, t, k) == 0
    {
      assert UnsupportedLen(t, k) == 0;
    }
    SubNoMatch(Unsupported, t, 0, BOLD);
  }
}
