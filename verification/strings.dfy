/**
 * The parts of Go's `strings` package the loader relies on: `TrimSpace`
 * (with `unicode.IsSpace` as its notion of white space), `Index`,
 * `Split` (on a non-empty separator, and character by character on an
 * empty one), and `Join` as the inverse of `Split`.
 * Strings are sequences of Unicode code points.
 */
module Strings {
  import opened Wrappers

  /** White space as Go's `unicode.IsSpace` defines it: its switch on the
      eight Latin-1 space characters (first line), then Unicode's
      White_Space table above Latin-1 (the rest). */
  predicate IsSpace(c: char) {
    || c == '\t' || c == '\n' || c == '\U{000B}' || c == '\U{000C}' || c == '\r' || c == ' '
    || c == '\U{0085}' || c == '\U{00A0}' || c == '\U{1680}'
    || ('\U{2000}' <= c <= '\U{200A}')
    || c == '\U{2028}' || c == '\U{2029}' || c == '\U{202F}' || c == '\U{205F}' || c == '\U{3000}'
  }

  /** Every character of `s` from position `lo` up to `hi` is white space. */
  predicate SpaceBetween(s: string, lo: int, hi: int) {
    forall i :: lo <= i < hi && 0 <= i < |s| ==> IsSpace(s[i])
  }

  /** `s` is blank: nothing but white space. */
  predicate AllSpace(s: string) {
    SpaceBetween(s, 0, |s|)
  }

  /** Neither starts nor ends with white space: what `TrimSpace` returns. */
  predicate IsTrimmed(s: string) {
    s == [] || (!IsSpace(s[0]) && !IsSpace(s[|s| - 1]))
  }

  /** Go's first loop in `TrimSpace`: from position `k`, step over white
      space. The result is the first position at or after `k` that does not
      hold white space, or the end of `s`. */
  function SkipSpace(s: string, k: nat): (start: nat)
    requires k <= |s|
    ensures k <= start <= |s|
    ensures SpaceBetween(s, k, start)
    ensures start == |s| || !IsSpace(s[start])
    decreases |s| - k
  {
    if k < |s| && IsSpace(s[k]) then SkipSpace(s, k + 1) else k
  }

  /** Go's second loop in `TrimSpace`: from position `k`, step back over
      white space, never going below `start`. */
  function BackSpace(s: string, start: nat, k: nat): (stop: nat)
    requires start <= k <= |s|
    ensures start <= stop <= k
    ensures SpaceBetween(s, stop, k)
    ensures stop == start || !IsSpace(s[stop - 1])
    decreases k
  {
    if k > start && IsSpace(s[k - 1]) then BackSpace(s, start, k - 1) else k
  }

  /** `strings.TrimSpace`: `s` without its leading and trailing white space.
      As in Go, the scan for the end stops at the start, so a blank `s`
      gives "". The result is trimmed, and is empty exactly when `s` is
      blank. */
  function TrimSpace(s: string): (r: string)
    ensures |r| <= |s|
    ensures IsTrimmed(r)
    ensures r == [] <==> AllSpace(s)
  {
    var start := SkipSpace(s, 0);
    s[start..BackSpace(s, start, |s|)]
  }

  /** `TrimSpace` keeps what lies between the two scans. */
  lemma TrimSpaceScans(s: string, a: nat, b: nat)
    requires a == SkipSpace(s, 0) && b == BackSpace(s, a, |s|)
    ensures TrimSpace(s) == s[a..b]
  {
  }

  /** The forward scan stops at the first non-space character; no other
      position has that property. */
  lemma SkipSpaceUnique(s: string, k: nat, n: nat)
    requires k <= n <= |s| && SpaceBetween(s, k, n)
    requires n == |s| || !IsSpace(s[n])
    ensures SkipSpace(s, k) == n
  {
  }

  /** The backward scan is likewise determined. */
  lemma BackSpaceUnique(s: string, start: nat, k: nat, n: nat)
    requires start <= n <= k <= |s| && SpaceBetween(s, n, k)
    requires n == start || !IsSpace(s[n - 1])
    ensures BackSpace(s, start, k) == n
  {
  }

  /** `x` holds `s` at offset `d`, with nothing but white space before and
      after it. */
  predicate Framed(x: string, s: string, d: nat) {
    && d + |s| <= |x|
    && SpaceBetween(x, 0, d)
    && SpaceBetween(x, d + |s|, |x|)
    && forall i :: 0 <= i < |s| ==> x[d + i] == s[i]
  }

  /** White space on both sides of a string frames it. */
  lemma PaddedFramed(p: string, s: string, q: string)
    requires AllSpace(p) && AllSpace(q)
    ensures Framed(p + s + q, s, |p|)
  {
    var x := p + s + q;
    forall i | 0 <= i < |p|
      ensures IsSpace(x[i])
    {
      assert x[i] == p[i];
    }
    forall i | |p| + |s| <= i < |x|
      ensures IsSpace(x[i])
    {
      assert x[i] == q[i - |p| - |s|];
    }
    forall i | 0 <= i < |s|
      ensures x[|p| + i] == s[i]
    {
    }
  }

  /** In a frame, the forward scan of a string that is not blank stops on
      the same character. */
  lemma FramedSkip(x: string, s: string, d: nat)
    requires Framed(x, s, d) && SkipSpace(s, 0) < |s|
    ensures SkipSpace(x, 0) == d + SkipSpace(s, 0)
  {
    var a := SkipSpace(s, 0);
    forall i | d <= i < d + a
      ensures IsSpace(x[i])
    {
      assert x[d + (i - d)] == s[i - d];
    }
    assert x[d + a] == s[a];
    SkipSpaceUnique(x, 0, d + a);
  }

  /** In a frame, the backward scan from the end stops after the same
      character. */
  lemma FramedBack(x: string, s: string, d: nat, a: nat)
    requires Framed(x, s, d) && a < |s| && !IsSpace(s[a])
    ensures d + a <= |x|
    ensures BackSpace(x, d + a, |x|) == d + BackSpace(s, a, |s|)
  {
    var b := BackSpace(s, a, |s|);
    forall i | d + b <= i < d + |s|
      ensures IsSpace(x[i])
    {
      assert x[d + (i - d)] == s[i - d];
    }
    assert b > a;
    assert x[d + (b - 1)] == s[b - 1];
    BackSpaceUnique(x, d + a, |x|, d + b);
  }

  /** In a frame, a slice of `s` is the slice of `x` shifted by `d`. */
  lemma FramedSlice(x: string, s: string, d: nat, lo: nat, hi: nat)
    requires Framed(x, s, d) && lo <= hi <= |s|
    ensures x[d + lo..d + hi] == s[lo..hi]
  {
    forall i | 0 <= i < hi - lo
      ensures x[d + lo..d + hi][i] == s[lo..hi][i]
    {
      assert x[d + (lo + i)] == s[lo + i];
    }
  }

  /** White space around a blank string leaves it blank. */
  lemma FramedBlank(x: string, s: string, d: nat)
    requires Framed(x, s, d) && AllSpace(s)
    ensures AllSpace(x)
  {
    forall i | d <= i < d + |s|
      ensures IsSpace(x[i])
    {
      assert x[d + (i - d)] == s[i - d];
    }
  }

  /** Two strings whose scans find the same text, at positions `d` apart,
      trim to the same result. */
  lemma TrimSpaceShifted(x: string, s: string, d: nat, a: nat, b: nat)
    requires a == SkipSpace(s, 0) && b == BackSpace(s, a, |s|)
    requires d + a == SkipSpace(x, 0) && d + b == BackSpace(x, d + a, |x|)
    requires x[d + a..d + b] == s[a..b]
    ensures TrimSpace(x) == TrimSpace(s)
  {
    TrimSpaceScans(x, d + a, d + b);
    TrimSpaceScans(s, a, b);
  }

  /** Whatever white space frames a string, `TrimSpace` returns the same. */
  lemma TrimSpaceFramed(x: string, s: string, d: nat)
    requires Framed(x, s, d)
    ensures TrimSpace(x) == TrimSpace(s)
  {
    var a := SkipSpace(s, 0);
    if a == |s| {
      FramedBlank(x, s, d);
    } else {
      var b := BackSpace(s, a, |s|);
      FramedSkip(x, s, d);
      FramedBack(x, s, d, a);
      FramedSlice(x, s, d, a, b);
      TrimSpaceShifted(x, s, d, a, b);
    }
  }

  /** Surrounding white space never changes what `TrimSpace` returns. */
  lemma TrimSpacePadded(p: string, s: string, q: string)
    requires AllSpace(p) && AllSpace(q)
    ensures TrimSpace(p + s + q) == TrimSpace(s)
  {
    PaddedFramed(p, s, q);
    TrimSpaceFramed(p + s + q, s, |p|);
  }

  /** A string that already neither starts nor ends with white space is
      left as it is. */
  lemma TrimSpaceTrimmed(s: string)
    requires IsTrimmed(s)
    ensures TrimSpace(s) == s
  {
    assert s[0..] == s;
    assert s[..|s|] == s;
  }

  /** `TrimSpace` recovers `s` from any white-space padding of it: together
      with `TrimSpace`'s own contract this determines its result. */
  lemma TrimSpaceStripsPadding(p: string, s: string, q: string)
    requires AllSpace(p) && AllSpace(q) && IsTrimmed(s)
    ensures TrimSpace(p + s + q) == s
  {
    TrimSpacePadded(p, s, q);
    TrimSpaceTrimmed(s);
  }

  lemma TrimSpaceIdempotent(s: string)
    ensures TrimSpace(TrimSpace(s)) == TrimSpace(s)
  {
    TrimSpaceTrimmed(TrimSpace(s));
  }

  /** `sep` occurs in `s` at position `i`. */
  predicate OccursAt(s: string, sep: string, i: nat) {
    i + |sep| <= |s| && s[i..i + |sep|] == sep
  }

  /** The first occurrence of `sep` in `s` at or after position `k`. */
  function IndexFrom(s: string, sep: string, k: nat): (r: Option<nat>)
    requires k <= |s|
    ensures r.Some? ==> k <= r.value && OccursAt(s, sep, r.value)
    ensures r.Some? ==> forall j: nat :: k <= j < r.value ==> !OccursAt(s, sep, j)
    ensures r.None? ==> forall j: nat :: k <= j ==> !OccursAt(s, sep, j)
    decreases |s| - k
  {
    if k + |sep| > |s| then None
    else if s[k..k + |sep|] == sep then Some(k)
    else IndexFrom(s, sep, k + 1)
  }

  /** `strings.Index`: the leftmost occurrence of `sep` in `s`, or `None`
      for Go's -1. */
  function Index(s: string, sep: string): (r: Option<nat>)
    ensures r.Some? ==> OccursAt(s, sep, r.value)
    ensures r.Some? ==> forall j: nat :: j < r.value ==> !OccursAt(s, sep, j)
    ensures r.None? ==> forall j: nat :: !OccursAt(s, sep, j)
  {
    IndexFrom(s, sep, 0)
  }

  /** With a one-character separator, `Index` finds the first position
      holding that character. */
  lemma IndexOfChar(s: string, c: char, i: nat)
    requires i < |s| && s[i] == c
    requires forall j :: 0 <= j < i ==> s[j] != c
    ensures Index(s, [c]) == Some(i)
  {
    assert OccursAt(s, [c], i) by {
      assert s[i..i + 1] == [c];
    }
    forall j: nat | j < i
      ensures !OccursAt(s, [c], j)
    {
      assert s[j..j + 1][0] == s[j];
    }
  }

  /** A character that does not occur is not found. */
  lemma IndexOfAbsentChar(s: string, c: char)
    requires forall j :: 0 <= j < |s| ==> s[j] != c
    ensures Index(s, [c]) == None
  {
    forall j: nat | j + 1 <= |s|
      ensures !OccursAt(s, [c], j)
    {
      assert s[j..j + 1][0] == s[j];
    }
  }

  /** Go's `explode`, which `strings.Split` uses for an empty separator:
      one piece per character, and no piece at all for "". */
  function Explode(s: string): (pieces: seq<string>)
    ensures |pieces| == |s|
    ensures forall k :: 0 <= k < |s| ==> pieces[k] == [s[k]]
  {
    if s == [] then [] else [[s[0]]] + Explode(s[1..])
  }

  /** `strings.Split` with a non-empty separator (Go's `genSplit`): the
      pieces of `s` between the leftmost non-overlapping occurrences of
      `sep`, so always at least one. */
  function SplitOn(s: string, sep: string): (pieces: seq<string>)
    requires sep != []
    ensures |pieces| >= 1
    decreases |s|
  {
    match Index(s, sep)
    case None => [s]
    case Some(i) => [s[..i]] + SplitOn(s[i + |sep|..], sep)
  }

  /** `strings.Split`: the characters of `s` for an empty separator, the
      pieces between the separators otherwise. */
  function Split(s: string, sep: string): (pieces: seq<string>)
    ensures sep != [] ==> |pieces| >= 1
  {
    if sep == [] then Explode(s) else SplitOn(s, sep)
  }

  /** `strings.Join`: the pieces with `sep` between each neighbouring pair;
      no pieces join to "". */
  function Join(pieces: seq<string>, sep: string): string {
    if |pieces| == 0 then ""
    else if |pieces| == 1 then pieces[0]
    else pieces[0] + sep + Join(pieces[1..], sep)
  }

  /** The characters of `s`, joined with nothing between them, are `s`. */
  lemma {:induction false} JoinExplode(s: string)
    ensures Join(Explode(s), "") == s
  {
    if |s| > 1 {
      var rest := s[1..];
      JoinExplode(rest);
      assert Explode(s)[1..] == Explode(rest);
      assert [s[0]] + "" + rest == s;
    } else if |s| == 1 {
      assert Explode(s) == [[s[0]]];
      assert [s[0]] == s;
    }
  }

  /** Splitting loses nothing: joining the pieces gives back the input. */
  lemma JoinSplit(s: string, sep: string)
    ensures Join(Split(s, sep), sep) == s
  {
    if sep == [] {
      JoinExplode(s);
    } else {
      JoinSplitOn(s, sep);
    }
  }

  /** The same, for a non-empty separator, by induction on the pieces. */
  lemma {:induction false} JoinSplitOn(s: string, sep: string)
    requires sep != []
    ensures Join(SplitOn(s, sep), sep) == s
    decreases |s|
  {
    match Index(s, sep)
    case None =>
    case Some(i) =>
      var head, rest := s[..i], s[i + |sep|..];
      var pieces := SplitOn(s, sep);
      assert pieces == [head] + SplitOn(rest, sep);
      assert pieces[1..] == SplitOn(rest, sep);
      calc {
        Join(pieces, sep);
        head + sep + Join(SplitOn(rest, sep), sep);
        { JoinSplitOn(rest, sep); }
        head + sep + rest;
        { assert s[i..i + |sep|] == sep; }
        s[..i] + s[i..i + |sep|] + s[i + |sep|..];
        s;
      }
  }

  /** No piece of a split contains the separator. */
  lemma {:induction false} SplitPiecesFree(s: string, sep: string)
    requires sep != []
    ensures forall k :: 0 <= k < |SplitOn(s, sep)| ==> Index(SplitOn(s, sep)[k], sep) == None
  {
    match Index(s, sep)
    case None =>
    case Some(i) =>
      var rest := s[i + |sep|..];
      SplitPiecesFree(rest, sep);
      var head := s[..i];
      forall j: nat | OccursAt(head, sep, j)
        ensures false
      {
        assert head[j..j + |sep|] == s[j..j + |sep|];
        assert OccursAt(s, sep, j);
      }
      assert Index(head, sep) == None;
      assert SplitOn(s, sep)[1..] == SplitOn(rest, sep);
  }

  /** `Index` finds `i` exactly when `sep` occurs there and nowhere before. */
  lemma IndexIs(s: string, sep: string, i: nat)
    ensures Index(s, sep) == Some(i)
        <==> OccursAt(s, sep, i) && forall j: nat :: j < i ==> !OccursAt(s, sep, j)
  {
  }

  /** Up to the end of an occurrence at `i`, a prefix of `s` and `s` itself
      agree on whether `i` is the leftmost occurrence. */
  lemma IndexOfPrefix(s: string, t: string, sep: string, i: nat)
    requires |t| <= |s| && t == s[..|t|] && i + |sep| <= |t|
    ensures Index(s, sep) == Some(i) <==> Index(t, sep) == Some(i)
  {
    forall j: nat | j <= i
      ensures OccursAt(s, sep, j) <==> OccursAt(t, sep, j)
    {
      assert s[j..j + |sep|] == t[j..j + |sep|];
    }
    IndexIs(s, sep, i);
    IndexIs(t, sep, i);
  }

  /** Every piece but the last ends where the leftmost occurrence of `sep`
      begins: the piece followed by `sep` holds `sep` first right after the
      piece. */
  lemma {:induction false} SplitCutsLeftmost(s: string, sep: string)
    requires sep != []
    ensures forall k :: 0 <= k < |SplitOn(s, sep)| - 1 ==>
      Index(SplitOn(s, sep)[k] + sep, sep) == Some(|SplitOn(s, sep)[k]|)
    decreases |s|
  {
    match Index(s, sep)
    case None =>
    case Some(i) =>
      var head, rest := s[..i], s[i + |sep|..];
      SplitCutsLeftmost(rest, sep);
      var pieces := SplitOn(s, sep);
      assert pieces == [head] + SplitOn(rest, sep);
      assert Index(head + sep, sep) == Some(i) by {
        assert s[i..i + |sep|] == sep;
        assert head + sep == s[..i + |sep|];
        IndexOfPrefix(s, head + sep, sep, i);
      }
      forall k | 0 < k < |pieces| - 1
        ensures Index(pieces[k] + sep, sep) == Some(|pieces[k]|)
      {
        assert pieces[k] == SplitOn(rest, sep)[k - 1];
      }
  }

  /** A piece cut at the leftmost occurrence of `sep` is split off first,
      whatever follows it. */
  lemma SplitOnCut(head: string, sep: string, rest: string)
    requires sep != [] && Index(head + sep, sep) == Some(|head|)
    ensures SplitOn(head + sep + rest, sep) == [head] + SplitOn(rest, sep)
  {
    var s := head + sep + rest;
    assert head + sep == s[..|head| + |sep|];
    IndexOfPrefix(s, head + sep, sep, |head|);
    assert s[..|head|] == head && s[|head| + |sep|..] == rest;
  }

  /** The pieces of a split are the only ones with its three properties:
      they join back to `s`, none holds `sep`, and each but the last is cut
      at the leftmost occurrence of `sep`. */
  lemma {:induction false} SplitUnique(s: string, sep: string, pieces: seq<string>)
    requires sep != [] && |pieces| >= 1 && Join(pieces, sep) == s
    requires forall k :: 0 <= k < |pieces| ==> Index(pieces[k], sep) == None
    requires forall k :: 0 <= k < |pieces| - 1 ==> Index(pieces[k] + sep, sep) == Some(|pieces[k]|)
    ensures pieces == SplitOn(s, sep)
    decreases |pieces|
  {
    if |pieces| == 1 {
      assert s == pieces[0];
    } else {
      var head, tail := pieces[0], pieces[1..];
      var rest := Join(tail, sep);
      assert s == head + sep + rest;
      SplitOnCut(head, sep, rest);
      assert forall k :: 0 <= k < |tail| ==> tail[k] == pieces[k + 1];
      SplitUnique(rest, sep, tail);
      assert pieces == [head] + tail;
    }
  }

  /** `k` copies of `sep`, one after another. */
  function Repeat(sep: string, k: nat): (r: string)
    ensures |r| == k * |sep|
  {
    if k == 0 then [] else sep + Repeat(sep, k - 1)
  }

  /** Every element of `pieces` is the empty string. */
  predicate AllEmpty(pieces: seq<string>) {
    forall j :: 0 <= j < |pieces| ==> pieces[j] == ""
  }

  /** A run of `k` separators splits into `k + 1` empty pieces. */
  lemma {:induction false} SplitRepeat(sep: string, k: nat)
    requires sep != []
    ensures |SplitOn(Repeat(sep, k), sep)| == k + 1
    ensures AllEmpty(SplitOn(Repeat(sep, k), sep))
  {
    var s := Repeat(sep, k);
    if k > 0 {
      var rest := Repeat(sep, k - 1);
      assert s[0..|sep|] == sep;
      assert Index(s, sep) == Some(0);
      assert s[|sep|..] == rest;
      SplitRepeat(sep, k - 1);
      assert SplitOn(s, sep) == [""] + SplitOn(rest, sep);
    } else {
      assert Index(s, sep) == None;
    }
  }

  lemma {:induction false} JoinEmpties(pieces: seq<string>, sep: string)
    requires |pieces| >= 1 && AllEmpty(pieces)
    ensures Join(pieces, sep) == Repeat(sep, |pieces| - 1)
  {
    if |pieces| > 1 {
      var tail := pieces[1..];
      assert AllEmpty(tail) by {
        forall j | 0 <= j < |tail|
          ensures tail[j] == ""
        {
          assert tail[j] == pieces[j + 1];
        }
      }
      JoinEmpties(tail, sep);
      var rest := Join(tail, sep);
      assert pieces[0] == "";
      assert Join(pieces, sep) == pieces[0] + sep + rest;
      assert pieces[0] + sep == sep;
    }
  }

  /** Every piece of a split is empty exactly when the input is a run of
      separators, one fewer than there are pieces. */
  lemma SplitAllEmpty(s: string, sep: string)
    requires sep != []
    ensures AllEmpty(Split(s, sep)) <==> s == Repeat(sep, |Split(s, sep)| - 1)
  {
    var pieces := Split(s, sep);
    if AllEmpty(pieces) {
      JoinSplit(s, sep);
      JoinEmpties(pieces, sep);
    }
    if s == Repeat(sep, |pieces| - 1) {
      SplitRepeat(sep, |pieces| - 1);
    }
  }
}
