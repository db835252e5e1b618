/**
 * Python's `str.split(sep)` with an explicit separator, and its inverse
 * `sep.join(pieces)`. The separator is searched left to right from the
 * end of the previous cut; every occurrence found cuts the string, and the
 * text between cuts is kept.
 */
module PyStr {

  import opened Wrappers

  /** `sep` occurs in `s` starting at index `i`. */
  predicate OccursAt(s: string, sep: string, i: int) {
    0 <= i && i + |sep| <= |s| && s[i..i + |sep|] == sep
  }

  /** `sep in s`. */
  ghost predicate Contains(s: string, sep: string) {
    exists i :: OccursAt(s, sep, i)
  }

  /** `s.find(sep, start)`: the first occurrence at or after `start`, if any (see FindFromIsFirst). */
  function FindFrom(s: string, sep: string, start: nat): (r: Option<nat>)
    requires start <= |s|
    decreases |s| - start
    ensures r.Some? ==> start <= r.value && OccursAt(s, sep, r.value)
  {
    if start + |sep| > |s| then None
    else if s[start..start + |sep|] == sep then Some(start)
    else FindFrom(s, sep, start + 1)
  }

  /** The search misses no occurrence: nothing occurs from `start` up to what it finds, or anywhere after `start` when it finds nothing. */
  lemma {:induction false} FindFromIsFirst(s: string, sep: string, start: nat, k: int)
    requires start <= |s| && start <= k
    requires FindFrom(s, sep, start).Some? ==> k < FindFrom(s, sep, start).value
    ensures !OccursAt(s, sep, k)
    decreases |s| - start
  {
    if start + |sep| <= |s| && s[start..start + |sep|] != sep && start < k {
      FindFromIsFirst(s, sep, start + 1, k);
    }
  }

  /** `sep.join(pieces)`. */
  function Join(pieces: seq<string>, sep: string): string {
    if |pieces| == 0 then ""
    else if |pieces| == 1 then pieces[0]
    else pieces[0] + sep + Join(pieces[1..], sep)
  }

  /**
   * The pieces that `s[start..].split(sep)` yields, cutting at each
   * occurrence found by searching left to right from `start`. There is
   * always at least one piece.
   */
  function SplitFrom(s: string, sep: string, start: nat): (pieces: seq<string>)
    requires |sep| > 0 && start <= |s|
    decreases |s| - start
    ensures |pieces| >= 1
  {
    match FindFrom(s, sep, start)
    case None => [s[start..]]
    case Some(i) => [s[start..i]] + SplitFrom(s, sep, i + |sep|)
  }

  /** `s.split(sep)` for a non-empty separator (Python raises ValueError on an empty one). */
  function Split(s: string, sep: string): (pieces: seq<string>)
    requires |sep| > 0
    ensures |pieces| >= 1
  {
    SplitFrom(s, sep, 0)
  }

  /** Joining the pieces of a split with the separator gives the string back. */
  lemma {:induction false} JoinSplitFrom(s: string, sep: string, start: nat)
    requires |sep| > 0 && start <= |s|
    ensures Join(SplitFrom(s, sep, start), sep) == s[start..]
    decreases |s| - start
  {
    match FindFrom(s, sep, start)
    case None =>
    case Some(i) =>
      var rest := SplitFrom(s, sep, i + |sep|);
      JoinSplitFrom(s, sep, i + |sep|);
      JoinCons(s[start..i], rest, sep);
      SliceAround(s, start, i, i + |sep|);
  }

  /** Joining a piece in front of at least one more puts the separator between them. */
  lemma JoinCons(piece: string, rest: seq<string>, sep: string)
    requires |rest| >= 1
    ensures Join([piece] + rest, sep) == piece + sep + Join(rest, sep)
  {
    assert ([piece] + rest)[1..] == rest;
  }

  /** A suffix of `s` splits at any two later cut points into three consecutive slices. */
  lemma SliceAround(s: string, lo: nat, i: nat, j: nat)
    requires lo <= i <= j <= |s|
    ensures s[lo..] == s[lo..i] + s[i..j] + s[j..]
  {
  }

  /** `sep.join(s.split(sep)) == s`. */
  lemma JoinSplit(s: string, sep: string)
    requires |sep| > 0
    ensures Join(Split(s, sep), sep) == s
  {
    JoinSplitFrom(s, sep, 0);
  }

  /** Text that ends before the first occurrence found from `lo` contains no `sep`. */
  lemma NoSeparatorBeforeFirst(s: string, sep: string, lo: nat, hi: nat)
    requires |sep| > 0 && lo <= hi <= |s|
    requires FindFrom(s, sep, lo).Some? ==> hi <= FindFrom(s, sep, lo).value
    requires FindFrom(s, sep, lo).Some? || hi == |s|
    ensures !Contains(s[lo..hi], sep)
  {
    forall m | OccursAt(s[lo..hi], sep, m) ensures false {
      OccursInSlice(s, sep, lo, hi, m);
      FindFromIsFirst(s, sep, lo, lo + m);
    }
  }

  /** No piece of a split contains the separator. */
  lemma {:induction false} SplitFromPiecesHaveNoSeparator(s: string, sep: string, start: nat, j: int)
    requires |sep| > 0 && start <= |s| && 0 <= j < |SplitFrom(s, sep, start)|
    ensures !Contains(SplitFrom(s, sep, start)[j], sep)
    decreases |s| - start
  {
    match FindFrom(s, sep, start)
    case None =>
      NoSeparatorBeforeFirst(s, sep, start, |s|);
      assert s[start..] == s[start..|s|];
    case Some(i) =>
      if j == 0 {
        NoSeparatorBeforeFirst(s, sep, start, i);
      } else {
        SplitFromPiecesHaveNoSeparator(s, sep, i + |sep|, j - 1);
      }
  }

  /** Where the last piece of `s[start..].split(sep)` begins (see LastCutProperties). */
  function LastCutFrom(s: string, sep: string, start: nat): (c: nat)
    requires |sep| > 0 && start <= |s|
    decreases |s| - start
    ensures start <= c <= |s|
  {
    match FindFrom(s, sep, start)
    case None => start
    case Some(i) => LastCutFrom(s, sep, i + |sep|)
  }

  /** Searching from the last cut finds nothing. */
  lemma {:induction false} NothingAfterLastCut(s: string, sep: string, start: nat)
    requires |sep| > 0 && start <= |s|
    ensures FindFrom(s, sep, LastCutFrom(s, sep, start)) == None
    decreases |s| - start
  {
    match FindFrom(s, sep, start)
    case None =>
    case Some(i) => NothingAfterLastCut(s, sep, i + |sep|);
  }

  /** When something is found, the last cut lies just after an occurrence of `sep`. */
  lemma {:induction false} LastCutFollowsSeparator(s: string, sep: string, start: nat)
    requires |sep| > 0 && start <= |s| && FindFrom(s, sep, start) != None
    ensures start + |sep| <= LastCutFrom(s, sep, start)
    ensures OccursAt(s, sep, LastCutFrom(s, sep, start) - |sep|)
    decreases |s| - start
  {
    var i := FindFrom(s, sep, start).value;
    assert LastCutFrom(s, sep, start) == LastCutFrom(s, sep, i + |sep|);
    if FindFrom(s, sep, i + |sep|) != None {
      LastCutFollowsSeparator(s, sep, i + |sep|);
    } else {
      assert LastCutFrom(s, sep, i + |sep|) == i + |sep|;
      assert OccursAt(s, sep, i);
    }
  }

  /** The last piece of a split starts at the last cut. */
  lemma {:induction false} LastPieceStartsAtLastCut(s: string, sep: string, start: nat)
    requires |sep| > 0 && start <= |s|
    ensures var pieces := SplitFrom(s, sep, start); pieces[|pieces| - 1] == s[LastCutFrom(s, sep, start)..]
    decreases |s| - start
  {
    match FindFrom(s, sep, start)
    case None =>
    case Some(i) =>
      LastPieceStartsAtLastCut(s, sep, i + |sep|);
  }

  /** No character of `sep` after the first repeats the first, so two occurrences never overlap. */
  predicate HeadUnique(sep: string) {
    |sep| > 0 && forall d :: 0 < d < |sep| ==> sep[d] != sep[0]
  }

  /** Two overlapping occurrences force a repeat of the separator's first character. */
  lemma OverlapRepeatsHead(s: string, sep: string, i: int, k: int)
    requires OccursAt(s, sep, i) && OccursAt(s, sep, k) && i < k < i + |sep|
    ensures sep[k - i] == sep[0]
  {
    assert s[k..k + |sep|][0] == s[k];
    assert s[i..i + |sep|][k - i] == s[k];
  }

  /** Two occurrences of a head-unique separator are at least its length apart. */
  lemma OccurrencesApart(s: string, sep: string, i: int, k: int)
    requires HeadUnique(sep) && OccursAt(s, sep, i) && OccursAt(s, sep, k) && i < k
    ensures i + |sep| <= k
  {
    if k < i + |sep| {
      OverlapRepeatsHead(s, sep, i, k);
      assert false;
    }
  }

  /** An occurrence inside a slice of `s` is an occurrence in `s`, shifted. */
  lemma OccursInSlice(s: string, sep: string, lo: nat, hi: nat, m: int)
    requires lo <= hi <= |s| && OccursAt(s[lo..hi], sep, m)
    ensures OccursAt(s, sep, lo + m)
  {
    var inner, outer := s[lo..hi][m..m + |sep|], s[lo + m..lo + m + |sep|];
    assert forall j :: 0 <= j < |sep| ==> inner[j] == outer[j];
    assert inner == outer;
  }

  /**
   * For a separator whose first character does not recur in it, the last
   * cut follows the LAST occurrence of `sep` in `s`; there is no cut when
   * `sep` does not occur.
   */
  lemma LastCutFollowsLastOccurrence(s: string, sep: string)
    requires HeadUnique(sep)
    ensures !Contains(s, sep) ==> LastCutFrom(s, sep, 0) == 0
    ensures Contains(s, sep) ==>
      var i := LastCutFrom(s, sep, 0) - |sep|;
      && OccursAt(s, sep, i)
      && forall k :: OccursAt(s, sep, k) ==> k <= i
  {
    var c := LastCutFrom(s, sep, 0);
    NothingAfterLastCut(s, sep, 0);
    if Contains(s, sep) {
      var k :| OccursAt(s, sep, k);
      if FindFrom(s, sep, 0) == None {
        FindFromIsFirst(s, sep, 0, k);
      }
      LastCutFollowsSeparator(s, sep, 0);
      var i := c - |sep|;
      forall k | OccursAt(s, sep, k) ensures k <= i {
        if k > i {
          OccurrencesApart(s, sep, i, k);
          FindFromIsFirst(s, sep, c, k);
        }
      }
    }
  }

  /** `s.split(sep)[-1]` never contains `sep`. */
  lemma SplitLastHasNoSeparator(s: string, sep: string)
    requires |sep| > 0
    ensures var pieces := Split(s, sep); !Contains(pieces[|pieces| - 1], sep)
  {
    SplitFromPiecesHaveNoSeparator(s, sep, 0, |Split(s, sep)| - 1);
  }

  /** When `sep` does not occur in `s`, `s.split(sep)[-1]` is all of `s`. */
  lemma SplitLastWithoutSeparator(s: string, sep: string)
    requires |sep| > 0 && !Contains(s, sep)
    ensures var pieces := Split(s, sep); pieces[|pieces| - 1] == s
  {
    LastPieceStartsAtLastCut(s, sep, 0);
    NothingFoundWithoutSeparator(s, sep);
    assert s[0..] == s;
  }

  /** When `sep` does not occur, the search from the start finds nothing. */
  lemma NothingFoundWithoutSeparator(s: string, sep: string)
    requires !Contains(s, sep)
    ensures FindFrom(s, sep, 0) == None
  {
    if FindFrom(s, sep, 0).Some? {
      assert false;
    }
  }

  /**
   * For a separator whose first character does not recur in it,
   * `s.split(sep)[-1]` is the text after the LAST occurrence of `sep`.
   */
  lemma SplitLastAfterLastOccurrence(s: string, sep: string)
    requires HeadUnique(sep) && Contains(s, sep)
    ensures var pieces := Split(s, sep);
      var i := |s| - |pieces[|pieces| - 1]| - |sep|;
      && OccursAt(s, sep, i)
      && pieces[|pieces| - 1] == s[i + |sep|..]
      && forall k :: OccursAt(s, sep, k) ==> k <= i
  {
    LastPieceStartsAtLastCut(s, sep, 0);
    LastCutFollowsLastOccurrence(s, sep);
  }
}
