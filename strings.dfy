/** The parts of Python's `str` that the extraction applies to URLs:
    `pat in s` and `s.split(sep)`, both built on a leftmost search. */
module Strings {
  import opened Common

  /** `pat` occurs in `s` starting at index `j`. */
  predicate OccursAt(s: string, pat: string, j: int)
  {
    0 <= j && j + |pat| <= |s| && s[j..j + |pat|] == pat
  }

  /** The search behind `pat in s` and `s.split(pat)`: the leftmost occurrence of
      `pat` at or after `from`. */
  function IndexOf(s: string, pat: string, from: nat): (r: Option<nat>)
    decreases |s| - from
    ensures r.Some? ==> from <= r.value && OccursAt(s, pat, r.value)
    ensures forall j :: from <= j && (r.Some? ==> j < r.value) ==> !OccursAt(s, pat, j)
  {
    if from + |pat| > |s| then None
    else if s[from..from + |pat|] == pat then Some(from)
    else IndexOf(s, pat, from + 1)
  }

  /** Python's `pat in s`. */
  function Contains(s: string, pat: string): (b: bool)
    ensures b <==> exists j :: OccursAt(s, pat, j)
  {
    IndexOf(s, pat, 0).Some?
  }

  /** `s.split(sep)`: cut at the leftmost occurrence, then go on in what follows it,
      so occurrences are taken left to right and never overlap. */
  function Split(s: string, sep: string): (pieces: seq<string>)
    requires |sep| > 0
    decreases |s|
    ensures |pieces| >= 1
  {
    match IndexOf(s, sep, 0)
    case None => [s]
    case Some(i) => [s[..i]] + Split(s[i + |sep|..], sep)
  }

  /** `sep.join(pieces)`, the inverse of `Split`. */
  function Join(pieces: seq<string>, sep: string): string
    requires |pieces| >= 1
    decreases |pieces|
  {
    if |pieces| == 1 then pieces[0] else pieces[0] + sep + Join(pieces[1..], sep)
  }

  /** Python's `xs[-1]`. */
  function Last(pieces: seq<string>): string
    requires |pieces| >= 1
  {
    pieces[|pieces| - 1]
  }

  /** Joining the pieces back with the separator gives the original string. */
  lemma {:induction false} JoinSplit(s: string, sep: string)
    requires |sep| > 0
    ensures Join(Split(s, sep), sep) == s
    decreases |s|
  {
    match IndexOf(s, sep, 0)
    case None =>
    case Some(i) =>
      var rest := s[i + |sep|..];
      var tail := Split(rest, sep);
      JoinSplit(rest, sep);
      var pieces := [s[..i]] + tail;
      assert Split(s, sep) == pieces;
      assert pieces[1..] == tail;
      assert Join(pieces, sep) == s[..i] + sep + Join(tail, sep);
      assert s[i..i + |sep|] == sep;
      assert s == s[..i] + s[i..i + |sep|] + rest;
  }

  /** An occurrence in a prefix is an occurrence in the whole string. */
  lemma PrefixOccurrence(s: string, n: nat, pat: string, j: int)
    requires n <= |s| && OccursAt(s[..n], pat, j)
    ensures OccursAt(s, pat, j)
  {
    assert s[..n][j..j + |pat|] == s[j..j + |pat|];
  }

  /** No piece of a split contains the separator. */
  lemma {:induction false} SplitPiecesFree(s: string, sep: string)
    requires |sep| > 0
    ensures forall k :: 0 <= k < |Split(s, sep)| ==> !Contains(Split(s, sep)[k], sep)
    decreases |s|
  {
    match IndexOf(s, sep, 0)
    case None =>
    case Some(i) =>
      var rest := s[i + |sep|..];
      SplitPiecesFree(rest, sep);
      var pieces := Split(s, sep);
      assert pieces == [s[..i]] + Split(rest, sep);
      forall j | OccursAt(s[..i], sep, j)
        ensures false
      {
        PrefixOccurrence(s, i, sep, j);
      }
      forall k | 0 <= k < |pieces|
        ensures !Contains(pieces[k], sep)
      {
        if k > 0 {
          assert pieces[k] == Split(rest, sep)[k - 1];
        }
      }
  }

  /** The split has more than one piece exactly when the separator occurs. */
  lemma SplitSingle(s: string, sep: string)
    requires |sep| > 0
    ensures |Split(s, sep)| == 1 <==> !Contains(s, sep)
  {
  }

  /** Joining two or more pieces ends with the separator and the last piece. */
  lemma {:induction false} JoinLast(pieces: seq<string>, sep: string)
    requires |pieces| >= 2
    ensures Join(pieces, sep) == Join(pieces[..|pieces| - 1], sep) + sep + Last(pieces)
    decreases |pieces|
  {
    var n := |pieces|;
    if n > 2 {
      var tail := pieces[1..];
      JoinLast(tail, sep);
      var init := pieces[..n - 1];
      assert init[0] == pieces[0] && init[1..] == tail[..n - 2];
      assert Last(tail) == Last(pieces);
    }
  }

  /** When the separator occurs, the string ends with the separator followed by
      the last piece. */
  lemma LastPieceSuffix(s: string, sep: string)
    requires |sep| > 0
    requires Contains(s, sep)
    ensures |sep| + |Last(Split(s, sep))| <= |s|
    ensures s[|s| - |Last(Split(s, sep))| - |sep|..] == sep + Last(Split(s, sep))
  {
    var pieces := Split(s, sep);
    assert |pieces| >= 2 by { SplitSingle(s, sep); }
    assert s == Join(pieces, sep) by { JoinSplit(s, sep); }
    JoinLast(pieces, sep);
    EndsWith(s, Join(pieces[..|pieces| - 1], sep), sep + Last(pieces));
  }

  lemma EndsWith(s: string, front: string, back: string)
    requires s == front + back
    ensures s[|s| - |back|..] == back
  {
  }

  /** `pieces` is a split of `s` at `sep` taken left to right without overlap: joined
      with `sep` they give `s`, no occurrence of `sep` starts inside a piece before the
      separator that follows it, and the last piece holds no `sep`. */
  ghost predicate IsLeftmostSplit(pieces: seq<string>, s: string, sep: string)
  {
    && |pieces| >= 1
    && Join(pieces, sep) == s
    && |sep| > 0
    && (forall k :: 0 <= k < |pieces| - 1 ==> !Contains(pieces[k] + sep[..|sep| - 1], sep))
    && !Contains(Last(pieces), sep)
  }

  /** An occurrence of `sep` that starts inside `s[..i]` lies in `s[..i + |sep| - 1]`. */
  lemma OccurrenceInPrefix(s: string, sep: string, i: nat, j: int)
    requires |sep| > 0 && i + |sep| <= |s| && s[i..i + |sep|] == sep
    requires 0 <= j < i && OccursAt(s, sep, j)
    ensures OccursAt(s[..i] + sep[..|sep| - 1], sep, j)
  {
    var t := s[..i] + sep[..|sep| - 1];
    assert t == s[..i + |sep| - 1];
    assert t[j..j + |sep|] == s[j..j + |sep|];
  }

  /** `Split` is a leftmost split. */
  lemma {:induction false} SplitLeftmost(s: string, sep: string)
    requires |sep| > 0
    ensures IsLeftmostSplit(Split(s, sep), s, sep)
    decreases |s|
  {
    JoinSplit(s, sep);
    SplitPiecesFree(s, sep);
    match IndexOf(s, sep, 0)
    case None =>
    case Some(i) =>
      var rest := s[i + |sep|..];
      var tail := Split(rest, sep);
      var pieces := Split(s, sep);
      assert pieces == [s[..i]] + tail;
      SplitLeftmost(rest, sep);
      assert !Contains(pieces[0] + sep[..|sep| - 1], sep) by {
        var t := s[..i] + sep[..|sep| - 1];
        assert t == s[..i + |sep| - 1];
        forall j | OccursAt(t, sep, j)
          ensures false
        {
          PrefixOccurrence(s, i + |sep| - 1, sep, j);
        }
      }
      forall k | 1 <= k < |pieces| - 1
        ensures !Contains(pieces[k] + sep[..|sep| - 1], sep)
      {
        assert pieces[k] == tail[k - 1];
      }
  }

  /** A leftmost split is unique: any leftmost split of `s` is `Split(s, sep)`. So
      `Split` takes separators left to right; a split taken right to left differs from
      it where occurrences overlap. */
  lemma {:induction false} SplitUnique(pieces: seq<string>, s: string, sep: string)
    requires IsLeftmostSplit(pieces, s, sep)
    ensures pieces == Split(s, sep)
    decreases |pieces|
  {
    if |pieces| == 1 {
      assert s == pieces[0];
    } else {
      var p0 := pieces[0];
      var i := |p0|;
      var tail := pieces[1..];
      var rest := Join(tail, sep);
      assert s == p0 + sep + rest;
      assert s[..i] == p0 && s[i..i + |sep|] == sep && s[i + |sep|..] == rest;
      assert IndexOf(s, sep, 0) == Some(i) by {
        forall j | 0 <= j < i && OccursAt(s, sep, j)
          ensures false
        {
          OccurrenceInPrefix(s, sep, i, j);
        }
        assert OccursAt(s, sep, i);
      }
      assert IsLeftmostSplit(tail, rest, sep) by {
        forall k | 0 <= k < |tail| - 1
          ensures !Contains(tail[k] + sep[..|sep| - 1], sep)
        {
          assert tail[k] == pieces[k + 1];
        }
        assert Last(tail) == Last(pieces);
      }
      SplitUnique(tail, rest, sep);
      assert pieces == [p0] + tail;
    }
  }
}
