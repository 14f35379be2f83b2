/** The cover-image rewrite of the shelf row: every Goodreads thumbnail size
    marker such as `._SY75_.` or `._SX50_.` in an image URL is replaced by a
    single `.`, so that the URL names the full-size image. This is
    `re.sub(r"\._S[YX]\d+_\.", ".", url)`: the pattern is tried at each
    position from the left, a match is replaced and the scan resumes after
    it, and a position where it does not match is copied. */
module Covers {
  import opened Text

  /** The text of one thumbnail marker: ".", "_S", "Y" or "X", one or more
      digits, "_." */
  predicate IsSizeMarker(t: string)
  {
    && |t| >= 7
    && t[..3] == "._S"
    && (t[3] == 'Y' || t[3] == 'X')
    && AllDigits(t[4..|t| - 2])
    && t[|t| - 2..] == "_."
  }

  /** The number of digits in `s` from index `i` on: how far a greedy `\d+`
      started at `i` reaches. */
  function DigitsFrom(s: string, i: nat): (k: nat)
    requires i <= |s|
    ensures i + k <= |s|
    ensures i + k == |s| || !IsDigit(s[i + k])
    decreases |s| - i
  {
    if i == |s| || !IsDigit(s[i]) then 0 else 1 + DigitsFrom(s, i + 1)
  }

  /** What the greedy scan passes over are digits. */
  lemma {:induction false} DigitsFromAreDigits(s: string, i: nat)
    requires i <= |s|
    ensures AllDigits(s[i..i + DigitsFrom(s, i)])
    decreases |s| - i
  {
    if i < |s| && IsDigit(s[i]) {
      DigitsFromAreDigits(s, i + 1);
      assert s[i..i + DigitsFrom(s, i)] == [s[i]] + s[i + 1..i + 1 + DigitsFrom(s, i + 1)];
    }
  }

  /** A run of digits followed by a non-digit is exactly what the greedy
      scan passes over. */
  lemma {:induction false} DigitsFromRun(s: string, i: nat, k: nat)
    requires i + k <= |s| && AllDigits(s[i..i + k]) && (i + k == |s| || !IsDigit(s[i + k]))
    ensures DigitsFrom(s, i) == k
    decreases k
  {
    if k > 0 {
      assert IsDigit(s[i..i + k][0]);
      assert s[i + 1..i + 1 + (k - 1)] == s[i..i + k][1..];
      DigitsFromRun(s, i + 1, k - 1);
    }
  }

  /** The length of the pattern's match at index `i` of `s`, or 0 when it
      does not match there. */
  function MarkerAt(s: string, i: nat): (n: nat)
    requires i <= |s|
    ensures n == 0 || 7 <= n <= |s| - i
  {
    if i + 4 > |s| || s[i] != '.' || s[i + 1] != '_' || s[i + 2] != 'S' || (s[i + 3] != 'Y' && s[i + 3] != 'X') then 0
    else
      var k := DigitsFrom(s, i + 4);
      if k == 0 || i + 6 + k > |s| || s[i + 4 + k] != '_' || s[i + 5 + k] != '.' then 0
      else 6 + k
  }

  /** The scan of `re.sub` from index `i` on. */
  function RewriteFrom(s: string, i: nat): (r: string)
    requires i <= |s|
    ensures |r| <= |s| - i
    decreases |s| - i
  {
    if i == |s| then ""
    else if MarkerAt(s, i) > 0 then "." + RewriteFrom(s, i + MarkerAt(s, i))
    else [s[i]] + RewriteFrom(s, i + 1)
  }

  /** `re.sub(r"\._S[YX]\d+_\.", ".", url)`. */
  function RewriteCover(url: string): (r: string)
    ensures |r| <= |url|
  {
    RewriteFrom(url, 0)
  }

  /** No thumbnail marker starts in `s` at an index from `i` up to `n`. */
  predicate NoMarkerIn(s: string, i: nat, n: nat)
    requires i <= n <= |s|
  {
    forall k :: i <= k < n ==> MarkerAt(s, k) == 0
  }

  /** What the pattern matches is a thumbnail marker. */
  lemma MarkerAtIsMarker(s: string, i: nat)
    requires i <= |s| && MarkerAt(s, i) > 0
    ensures IsSizeMarker(s[i..i + MarkerAt(s, i)])
  {
    var n := MarkerAt(s, i);
    var t := s[i..i + n];
    assert t[..3] == s[i..i + 3];
    assert t[|t| - 2..] == s[i + n - 2..i + n];
    DigitsFromAreDigits(s, i + 4);
    SliceOfSlice(s, i, i + n, 4, n - 2);
  }

  /** Where a thumbnail marker starts, the pattern matches exactly that
      marker: its digits stop at the "_". */
  lemma MarkerAtMarker(s: string, i: nat, m: nat)
    requires i + m <= |s| && IsSizeMarker(s[i..i + m])
    ensures MarkerAt(s, i) == m
  {
    var t := s[i..i + m];
    assert s[i] == t[0] && s[i + 1] == t[1] && s[i + 2] == t[2] && s[i + 3] == t[3];
    SliceOfSlice(s, i, i + m, 4, m - 2);
    assert s[i + m - 2] == t[|t| - 2..][0];
    assert s[i + m - 1] == t[|t| - 2..][1];
    DigitsFromRun(s, i + 4, m - 6);
  }

  /** The scan copies a stretch in which no marker starts. */
  lemma {:induction false} RewriteCopies(s: string, i: nat, n: nat)
    requires i <= n <= |s| && NoMarkerIn(s, i, n)
    ensures RewriteFrom(s, i) == s[i..n] + RewriteFrom(s, n)
    decreases n - i
  {
    if i < n {
      assert MarkerAt(s, i) == 0;
      CopyStep(s, i);
      RewriteCopies(s, i + 1, n);
      assert s[i..n] == [s[i]] + s[i + 1..n];
    } else {
      assert s[i..n] == [];
    }
  }

  /** The scan replaces a marker at index `i` by "." and goes on after it. */
  lemma RewriteReplaces(s: string, i: nat, m: nat)
    requires i + m <= |s| && IsSizeMarker(s[i..i + m])
    ensures RewriteFrom(s, i) == "." + RewriteFrom(s, i + m)
  {
    MarkerAtMarker(s, i, m);
  }

  /** The pattern looks only forward, so the scan of `p + q` from index
      `j == |p| + i` is the scan of `q` from `i`. */
  lemma {:induction false} RewriteFromShift(p: string, q: string, i: nat, j: nat)
    requires i <= |q| && j == |p| + i
    ensures RewriteFrom(p + q, j) == RewriteFrom(q, i)
    decreases |q| - i
  {
    if i < |q| {
      var n := MarkerAt(q, i);
      if n > 0 {
        RewriteFromShift(p, q, i + n, j + n);
        ShiftedReplace(p, q, i, j, n);
      } else {
        RewriteFromShift(p, q, i + 1, j + 1);
        ShiftedCopy(p, q, i, j);
      }
    }
  }

  /** One replacing step taken at index `i` of `q` and at the same place in
      `p + q`. */
  lemma ShiftedReplace(p: string, q: string, i: nat, j: nat, n: nat)
    requires i < |q| && j == |p| + i && MarkerAt(q, i) == n > 0
    requires RewriteFrom(p + q, j + n) == RewriteFrom(q, i + n)
    ensures RewriteFrom(p + q, j) == RewriteFrom(q, i)
  {
    MarkerAtShift(p, q, i);
    ReplaceStep(p + q, j, n);
    ReplaceStep(q, i, n);
  }

  /** One copying step taken at index `i` of `q` and at the same place in
      `p + q`. */
  lemma ShiftedCopy(p: string, q: string, i: nat, j: nat)
    requires i < |q| && j == |p| + i && MarkerAt(q, i) == 0
    requires RewriteFrom(p + q, j + 1) == RewriteFrom(q, i + 1)
    ensures RewriteFrom(p + q, j) == RewriteFrom(q, i)
  {
    MarkerAtShift(p, q, i);
    CopyStep(p + q, j);
    CopyStep(q, i);
  }

  lemma ReplaceStep(s: string, i: nat, n: nat)
    requires i < |s| && MarkerAt(s, i) == n > 0
    ensures RewriteFrom(s, i) == "." + RewriteFrom(s, i + n)
  {
  }

  lemma CopyStep(s: string, i: nat)
    requires i < |s| && MarkerAt(s, i) == 0
    ensures RewriteFrom(s, i) == [s[i]] + RewriteFrom(s, i + 1)
  {
  }

  lemma MarkerAtShift(p: string, q: string, i: nat)
    requires i <= |q|
    ensures MarkerAt(p + q, |p| + i) == MarkerAt(q, i)
  {
    if i + 4 <= |q| {
      DigitsFromShift(p, q, i + 4);
    }
  }

  lemma {:induction false} DigitsFromShift(p: string, q: string, i: nat)
    requires i <= |q|
    ensures DigitsFrom(p + q, |p| + i) == DigitsFrom(q, i)
    decreases |q| - i
  {
    if i < |q| {
      DigitsFromShift(p, q, i + 1);
    }
  }

  /** The scan at a marker `t` followed by `q` gives "." and the rewrite of
      `q` on its own. */
  lemma MarkerThenRest(p: string, t: string, q: string)
    requires IsSizeMarker(t)
    ensures RewriteFrom(p + t + q, |p|) == "." + RewriteCover(q)
  {
    var u := p + t;
    var s := u + q;
    assert s[|p|..|p| + |t|] == t;
    MarkerAtMarker(s, |p|, |t|);
    ReplaceUpTo(s, |p|, |u|);
    ScanFromJoin(u, q);
  }

  lemma ReplaceUpTo(s: string, i: nat, j: nat)
    requires i < j <= |s| && MarkerAt(s, i) == j - i
    ensures RewriteFrom(s, i) == "." + RewriteFrom(s, j)
  {
  }

  /** The scan of `u + q` from the join is the rewrite of `q`. */
  lemma ScanFromJoin(u: string, q: string)
    ensures RewriteFrom(u + q, |u|) == RewriteCover(q)
  {
    RewriteFromShift(u, q, 0, |u|);
  }

  /** The leftmost marker is replaced by "." and the rest of the URL is
      rewritten on its own: every marker, left to right, is replaced. */
  lemma LeftmostMarkerReplaced(p: string, t: string, q: string)
    requires IsSizeMarker(t) && NoMarkerIn(p + t + q, 0, |p|)
    ensures RewriteCover(p + t + q) == p + "." + RewriteCover(q)
  {
    var s := p + t + q;
    RewriteCopies(s, 0, |p|);
    assert s[0..|p|] == p;
    MarkerThenRest(p, t, q);
    calc {
      RewriteCover(s);
      s[0..|p|] + RewriteFrom(s, |p|);
      p + ("." + RewriteCover(q));
      p + "." + RewriteCover(q);
    }
  }

  /** A URL in which no marker starts is returned unchanged. */
  lemma RewriteWithoutMarker(s: string)
    requires NoMarkerIn(s, 0, |s|)
    ensures RewriteCover(s) == s
  {
    RewriteCopies(s, 0, |s|);
    assert s[0..|s|] == s;
  }

  /** A scan that meets a marker shortens the URL. */
  lemma {:induction false} RewriteShortens(s: string, i: nat, k: nat)
    requires i <= k < |s| && MarkerAt(s, k) > 0
    ensures |RewriteFrom(s, i)| < |s| - i
    decreases k - i
  {
    if MarkerAt(s, i) == 0 {
      RewriteShortens(s, i + 1, k);
    }
  }

  /** The rewrite leaves a URL alone if and only if no marker occurs in it. */
  lemma RewriteUnchangedIff(s: string)
    ensures RewriteCover(s) == s <==> NoMarkerIn(s, 0, |s|)
  {
    if NoMarkerIn(s, 0, |s|) {
      RewriteWithoutMarker(s);
    } else {
      var k :| 0 <= k < |s| && MarkerAt(s, k) != 0;
      RewriteShortens(s, 0, k);
    }
  }

  /** The thumbnail URL of the Goodreads CDN becomes the full-size one. */
  lemma ThumbnailExample()
    ensures RewriteCover("106136930._SY75_.jpg") == "106136930.jpg"
  {
    var p, t, q := "106136930", "._SY75_.", "jpg";
    ThumbnailTexts(p, t, q);
    assert IsSizeMarker(t);
    NoMarkerInDigits(p + t + q, |p|);
    LeftmostMarkerReplaced(p, t, q);
    NoMarkerInShort(q);
    RewriteWithoutMarker(q);
  }

  lemma ThumbnailTexts(p: string, t: string, q: string)
    requires p == "106136930" && t == "._SY75_." && q == "jpg"
    ensures p + t + q == "106136930._SY75_.jpg"
    ensures p + "." + q == "106136930.jpg"
    ensures AllDigits(p)
  {
  }

  /** A marker starts with ".", so none starts inside a run of digits. */
  lemma NoMarkerInDigits(s: string, n: nat)
    requires n <= |s| && AllDigits(s[..n])
    ensures NoMarkerIn(s, 0, n)
  {
    forall k | 0 <= k < n
      ensures MarkerAt(s, k) == 0
    {
      assert IsDigit(s[..n][k]);
    }
  }

  /** A marker is at least 7 characters long. */
  lemma NoMarkerInShort(s: string)
    requires |s| < 7
    ensures NoMarkerIn(s, 0, |s|)
  {
  }
}
