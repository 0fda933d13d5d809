/** The two character-level helpers of the prefix tree: `areEqual`, which compares a
    string against a window of another, and `findNextDelimiterStartIndex`, the forward
    scan that bounds a captured parameter value. Each loop is a method proved against a
    functional definition; the properties of the scan are stated about that definition. */
module Scanner {

  function Min(a: int, b: int): int {
    if a < b then a else b
  }

  /** Reference definition of `areEqual(first, second, shift)`: `first` agrees with
      `second` read from `shift` on, as far as `second` goes. The part of `first` that
      falls past the end of `second` is never compared, and when `shift` is at or past
      the end nothing is compared at all. */
  predicate Agree(first: string, second: string, shift: nat)
    decreases |first|
  {
    first == [] || shift >= |second| ||
    (first[0] == second[shift] && Agree(first[1..], second, shift + 1))
  }

  /** `Agree` is the character-by-character comparison `areEqual` performs: equal
      characters at every position inside both strings. */
  lemma {:induction false} AgreePointwise(first: string, second: string, shift: nat)
    ensures Agree(first, second, shift) <==>
            forall i :: 0 <= i < |first| && i + shift < |second| ==> first[i] == second[i + shift]
    decreases |first|
  {
    if first != [] && shift < |second| {
      AgreePointwise(first[1..], second, shift + 1);
      if forall i :: 0 <= i < |first| && i + shift < |second| ==> first[i] == second[i + shift] {
        forall i | 0 <= i < |first[1..]| && i + shift + 1 < |second|
          ensures first[1..][i] == second[i + shift + 1]
        {
          assert first[1..][i] == first[i + 1];
        }
      }
      if Agree(first, second, shift) {
        forall i | 0 <= i < |first| && i + shift < |second|
          ensures first[i] == second[i + shift]
        {
          if i > 0 {
            assert first[i] == first[1..][i - 1];
          }
        }
      }
    }
  }

  /** The comparison loop of `areEqual`. */
  method AreEqual(first: string, second: string, shift: nat) returns (equal: bool)
    ensures equal <==> Agree(first, second, shift)
  {
    var i := 0;
    while i < |first| && i + shift < |second|
      invariant 0 <= i <= |first|
      invariant Agree(first, second, shift) == Agree(first[i..], second, shift + i)
    {
      if first[i] != second[i + shift] {
        return false;
      }
      assert first[i..][1..] == first[i + 1..];
      i := i + 1;
    }
    return true;
  }

  /** Up to the end of `second`, `Agree` is equality of `first` with the window of
      `second` it is compared against. */
  lemma AgreeSlice(first: string, second: string, shift: nat)
    requires shift < |second|
    ensures var m := Min(|first|, |second| - shift);
            Agree(first, second, shift) <==> first[..m] == second[shift..shift + m]
  {
    AgreePointwise(first, second, shift);
    var m := Min(|first|, |second| - shift);
    if forall i :: 0 <= i < |first| && i + shift < |second| ==> first[i] == second[i + shift] {
      assert forall j :: 0 <= j < m ==> first[..m][j] == second[shift..shift + m][j];
    }
    if first[..m] == second[shift..shift + m] {
      forall i | 0 <= i < |first| && i + shift < |second|
        ensures first[i] == second[i + shift]
      {
        assert first[..m][i] == second[shift..shift + m][i];
      }
    }
  }

  /** Past the end of `second` there is nothing to compare. */
  lemma AgreePastEnd(first: string, second: string, shift: nat)
    requires shift >= |second|
    ensures Agree(first, second, shift)
  {
  }

  /** When the whole of `first` fits, `Agree` is plain equality with the window. */
  lemma AgreeWithinBounds(first: string, second: string, shift: nat)
    requires shift + |first| <= |second|
    ensures Agree(first, second, shift) <==> second[shift..shift + |first|] == first
  {
    if shift >= |second| {
      assert first == [] && second[shift..shift] == [];
    } else {
      AgreeSlice(first, second, shift);
      assert Min(|first|, |second| - shift) == |first|;
      assert first[..|first|] == first;
    }
  }

  /** The scan of `findNextDelimiterStartIndex` at position `i`, with the first `k`
      characters of the delimiter matched by the characters just before `i`. A mismatch
      resets the count to zero and moves on WITHOUT testing the current character as the
      start of a new occurrence. */
  function ScanFrom(path: string, delimiter: string, i: nat, k: nat): (r: nat)
    requires k < |delimiter| && k <= i
    ensures r <= |path|
    ensures i - k <= |path| ==> i - k <= r
    decreases |path| - i
  {
    if i >= |path| then
      |path|
    else if path[i] != delimiter[k] then
      ScanFrom(path, delimiter, i + 1, 0)
    else if k + 1 >= |delimiter| then
      i - k
    else
      ScanFrom(path, delimiter, i + 1, k + 1)
  }

  /** Started with a true partial match, the scan stops only at a real occurrence of the
      delimiter (or at the end of the path). */
  lemma {:induction false} ScanStopsAtOccurrence(path: string, delimiter: string, i: nat, k: nat)
    requires k < |delimiter| && k <= i
    requires k == 0 || (i <= |path| && path[i - k..i] == delimiter[..k])
    ensures var r := ScanFrom(path, delimiter, i, k);
            r < |path| ==> r + |delimiter| <= |path| && path[r..r + |delimiter|] == delimiter
    decreases |path| - i
  {
    if i < |path| {
      if path[i] != delimiter[k] {
        ScanStopsAtOccurrence(path, delimiter, i + 1, 0);
        assert ScanFrom(path, delimiter, i, k) == ScanFrom(path, delimiter, i + 1, 0);
      } else if k + 1 >= |delimiter| {
        assert ScanFrom(path, delimiter, i, k) == i - k && i - k + |delimiter| == i + 1;
        assert path[i - k..i + 1] == delimiter by {
          assert path[i - k..i + 1] == path[i - k..i] + [path[i]];
          assert delimiter == delimiter[..k] + [delimiter[k]];
        }
      } else {
        assert path[i - k..i + 1] == delimiter[..k + 1] by {
          assert path[i - k..i + 1] == path[i - k..i] + [path[i]];
          assert delimiter[..k + 1] == delimiter[..k] + [delimiter[k]];
        }
        ScanStopsAtOccurrence(path, delimiter, i + 1, k + 1);
        assert ScanFrom(path, delimiter, i, k) == ScanFrom(path, delimiter, i + 1, k + 1);
      }
    }
  }

  /** The index `findNextDelimiterStartIndex(path, start)` returns: the start of the first
      delimiter occurrence the scan recognises at or after `start`, or `|path|`. */
  function NextDelimiter(path: string, delimiter: string, start: nat): (r: nat)
    requires |delimiter| > 0
    ensures r <= |path|
    ensures start <= |path| ==> start <= r
  {
    ScanFrom(path, delimiter, start, 0)
  }

  /** What `findNextDelimiterStartIndex` finds is an occurrence of the delimiter, unless
      it is the end of the path. */
  lemma NextDelimiterIsOccurrence(path: string, delimiter: string, start: nat)
    requires |delimiter| > 0
    ensures var r := NextDelimiter(path, delimiter, start);
            r < |path| ==> r + |delimiter| <= |path| && path[r..r + |delimiter|] == delimiter
  {
    ScanStopsAtOccurrence(path, delimiter, start, 0);
  }

  /** The scanning loop of `findNextDelimiterStartIndex`. */
  method FindNextDelimiterStartIndex(path: string, delimiter: string, searchStartIndex: nat)
    returns (r: nat)
    requires |delimiter| > 0
    ensures r == NextDelimiter(path, delimiter, searchStartIndex)
  {
    var delimiterIndex := 0;
    var i := searchStartIndex;
    while i < |path|
      invariant delimiterIndex < |delimiter| && delimiterIndex <= i
      invariant ScanFrom(path, delimiter, i, delimiterIndex) == NextDelimiter(path, delimiter, searchStartIndex)
      decreases |path| - i
    {
      var expected := delimiter[delimiterIndex];
      delimiterIndex := delimiterIndex + 1;
      if path[i] != expected {
        delimiterIndex := 0;
        i := i + 1;
        continue;
      }
      if delimiterIndex >= |delimiter| {
        return i - |delimiter| + 1;
      }
      i := i + 1;
    }
    return |path|;
  }

  /** A delimiter occurrence whose first `k` characters have already been matched is
      recognised: the scan returns its start. */
  lemma {:induction false} ScanFindsOccurrence(path: string, delimiter: string, i: nat, k: nat)
    requires k < |delimiter| && k <= i
    requires i - k + |delimiter| <= |path| && path[i - k..i - k + |delimiter|] == delimiter
    ensures ScanFrom(path, delimiter, i, k) == i - k
    decreases |delimiter| - k
  {
    var p := i - k;
    assert path[i] == delimiter[k] by {
      assert path[i] == path[p..p + |delimiter|][k];
    }
    if k + 1 < |delimiter| {
      ScanFindsOccurrence(path, delimiter, i + 1, k + 1);
      assert ScanFrom(path, delimiter, i, k) == ScanFrom(path, delimiter, i + 1, k + 1);
    } else {
      assert ScanFrom(path, delimiter, i, k) == i - k;
    }
  }

  /** An occurrence of the delimiter that starts right at `start` is found. */
  lemma OccurrenceAtStart(path: string, delimiter: string, start: nat)
    requires |delimiter| > 0
    requires start + |delimiter| <= |path| && path[start..start + |delimiter|] == delimiter
    ensures NextDelimiter(path, delimiter, start) == start
  {
    ScanFindsOccurrence(path, delimiter, start, 0);
  }

  /** A token none of whose characters is the delimiter's first character, followed by the
      delimiter or by the end of the path, is scanned to its end exactly. */
  lemma {:induction false} ScanSkipsToken(path: string, delimiter: string, s: nat, tokenEnd: nat)
    requires |delimiter| > 0
    requires s <= tokenEnd <= |path|
    requires forall j :: s <= j < tokenEnd ==> path[j] != delimiter[0]
    requires tokenEnd == |path| ||
             (tokenEnd + |delimiter| <= |path| && path[tokenEnd..tokenEnd + |delimiter|] == delimiter)
    ensures NextDelimiter(path, delimiter, s) == tokenEnd
    decreases tokenEnd - s
  {
    if s < tokenEnd {
      ScanSkipsToken(path, delimiter, s + 1, tokenEnd);
    } else if tokenEnd < |path| {
      OccurrenceAtStart(path, delimiter, s);
    }
  }

  /** With a one-character delimiter the scan is an exact search: it returns the first
      occurrence of that character at or after `start`, or `|path|` when there is none. */
  lemma {:induction false} SingleCharacterScan(path: string, c: char, start: nat)
    requires start <= |path|
    ensures var r := NextDelimiter(path, [c], start);
            start <= r <= |path| &&
            (forall j :: start <= j < r ==> path[j] != c) &&
            (r < |path| ==> path[r] == c)
    decreases |path| - start
  {
    var r := NextDelimiter(path, [c], start);
    if start < |path| && path[start] != c {
      SingleCharacterScan(path, c, start + 1);
    }
    if r < |path| {
      NextDelimiterIsOccurrence(path, [c], start);
      assert path[r..r + 1][0] == c;
    }
  }

  /** With a longer delimiter an occurrence that begins at the character which broke a
      partial match is missed: "AB" occurs in "AAB" at 1, yet the scan reports none, and
      likewise for the three-character delimiter "ABC" in "AABC". */
  lemma BrokenPartialMatchIsSkipped()
    ensures "AAB"[1..3] == "AB" && NextDelimiter("AAB", "AB", 0) == 3
    ensures "AABC"[1..4] == "ABC" && NextDelimiter("AABC", "ABC", 0) == 4
  {
    assert ScanFrom("AAB", "AB", 2, 0) == 3;
    assert ScanFrom("AAB", "AB", 1, 1) == 3;
    assert ScanFrom("AABC", "ABC", 3, 0) == 4;
    assert ScanFrom("AABC", "ABC", 2, 0) == 4;
    assert ScanFrom("AABC", "ABC", 1, 1) == 4;
  }
}
