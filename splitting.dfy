/** `String.split(delimiter)` as the tree's `insert` uses it, for a delimiter that holds
    no regular-expression metacharacters: a split at every leftmost, non-overlapping
    occurrence of the delimiter, after which trailing empty pieces are dropped, except
    that a string without any occurrence is returned whole. */
module Splitting {

  /** Where the search for `d` that starts at `i` stops: the first occurrence at or after
      `i`, or `|s|` when there is none. */
  function NextCut(s: string, d: string, i: nat): (j: nat)
    requires |d| > 0 && i <= |s|
    ensures i <= j <= |s| && (j < |s| ==> j + |d| <= |s|)
    decreases |s| - i
  {
    if i + |d| > |s| then |s| else if s[i..i + |d|] == d then i else NextCut(s, d, i + 1)
  }

  /** The pieces of `s[from..]`, each ending where the next occurrence of `d` starts. */
  function Pieces(s: string, d: string, from: nat): (ps: seq<string>)
    requires |d| > 0 && from <= |s|
    ensures |ps| >= 1
    decreases |s| - from
  {
    var j := NextCut(s, d, from);
    if j == |s| then [s[from..]] else [s[from..j]] + Pieces(s, d, j + |d|)
  }

  /** The inverse of splitting: the pieces glued back together with `d`. */
  function Join(ps: seq<string>, d: string): string
    requires |ps| >= 1
  {
    if |ps| == 1 then ps[0] else ps[0] + d + Join(ps[1..], d)
  }

  /** Removes every empty piece at the end. */
  function DropTrailingEmpty(ps: seq<string>): (r: seq<string>)
    ensures |r| <= |ps| && r == ps[..|r|]
    ensures r == [] || r[|r| - 1] != ""
    ensures forall j :: |r| <= j < |ps| ==> ps[j] == ""
    decreases |ps|
  {
    if ps != [] && ps[|ps| - 1] == "" then DropTrailingEmpty(ps[..|ps| - 1]) else ps
  }

  /** `s.split(d)`: the pieces between occurrences of `d`; trailing empty pieces are dropped
      unless `d` does not occur at all. */
  function Split(s: string, d: string): (chunks: seq<string>)
    requires |d| > 0
    ensures chunks == [] || |chunks| == 1 || chunks[|chunks| - 1] != ""
  {
    var ps := Pieces(s, d, 0);
    if |ps| == 1 then ps else DropTrailingEmpty(ps)
  }

  /** The search stops at an occurrence of `d`, unless it runs off the end. */
  lemma {:induction false} NextCutIsOccurrence(s: string, d: string, i: nat)
    requires |d| > 0 && i <= |s|
    ensures var j := NextCut(s, d, i); j < |s| ==> s[j..j + |d|] == d
    decreases |s| - i
  {
    if i + |d| <= |s| && s[i..i + |d|] != d {
      NextCutIsOccurrence(s, d, i + 1);
    }
  }

  /** `d` occurs in `s` at `k`. */
  predicate OccursAt(s: string, d: string, k: nat) {
    k + |d| <= |s| && s[k..k + |d|] == d
  }

  /** `d` occurs nowhere in `p`. */
  predicate FreeOf(p: string, d: string) {
    forall k :: 0 <= k < |p| ==> !OccursAt(p, d, k)
  }

  /** No proper suffix of `d` is also a prefix of it: two occurrences of `d` never overlap. */
  predicate Unbordered(d: string) {
    forall l :: 0 < l < |d| ==> d[l..] != d[..|d| - l]
  }

  /** A piece that the search cannot cut inside once it is followed by the delimiter: it
      never holds the delimiter's first character, or the delimiter cannot overlap itself
      and the piece does not contain it. */
  predicate Separable(p: string, d: string)
    requires |d| > 0
  {
    d[0] !in p || (Unbordered(d) && FreeOf(p, d))
  }

  /** The search stops at `j` when no occurrence of `d` starts before `j` and `j` is the end
      of `s` or an occurrence of `d`. */
  lemma {:induction false} NextCutAt(s: string, d: string, i: nat, j: nat)
    requires |d| > 0 && i <= j <= |s|
    requires forall k :: i <= k < j ==> !OccursAt(s, d, k)
    requires j == |s| || OccursAt(s, d, j)
    ensures NextCut(s, d, i) == j
    decreases j - i
  {
    if i < j {
      assert !OccursAt(s, d, i);
      NextCutAt(s, d, i + 1, j);
    } else if j < |s| {
      assert i + |d| <= |s|;
    }
  }

  /** The search finds the first occurrence: none starts between `i` and where it stops. */
  lemma {:induction false} NextCutIsFirst(s: string, d: string, i: nat)
    requires |d| > 0 && i <= |s|
    ensures forall k :: i <= k < NextCut(s, d, i) ==> !OccursAt(s, d, k)
    decreases |s| - i
  {
    if i + |d| <= |s| && s[i..i + |d|] != d {
      NextCutIsFirst(s, d, i + 1);
    }
  }

  /** Text without the delimiter's first character holds no occurrence of the delimiter. */
  lemma NoFirstCharNoOccurrence(s: string, d: string, i: nat, j: nat)
    requires |d| > 0 && i <= j <= |s|
    requires forall k :: i <= k < j ==> s[k] != d[0]
    ensures forall k :: i <= k < j ==> !OccursAt(s, d, k)
  {
    forall k | i <= k < j
      ensures !OccursAt(s, d, k)
    {
      if k + |d| <= |s| {
        assert s[k..k + |d|][0] == s[k];
      }
    }
  }

  /** Two overlapping occurrences of `d` give a proper suffix of `d` that is also a prefix. */
  lemma OverlapIsBorder(s: string, d: string, k: nat, e: nat)
    requires k < e < k + |d| && OccursAt(s, d, k) && OccursAt(s, d, e)
    ensures d[e - k..] == d[..|d| - (e - k)]
  {
    var l := e - k;
    assert d[l..] == s[k..k + |d|][l..];
    assert s[k..k + |d|][l..] == s[e..k + |d|];
    assert d[..|d| - l] == s[e..e + |d|][..|d| - l];
    assert s[e..e + |d|][..|d| - l] == s[e..k + |d|];
  }

  /** An occurrence of `d` inside a window of `s` is an occurrence in the window. */
  lemma OccurrenceInWindow(s: string, d: string, from: nat, end: nat, k: nat)
    requires from <= k && k + |d| <= end <= |s| && OccursAt(s, d, k)
    ensures OccursAt(s[from..end], d, k - from)
  {
    var w := s[from..end][k - from..k - from + |d|];
    forall i | 0 <= i < |d|
      ensures w[i] == s[k..k + |d|][i]
    {
      assert w[i] == s[from..end][k - from + i];
    }
    assert w == s[k..k + |d|];
  }

  /** A separable piece followed by the delimiter, or by the end of `s`, holds no occurrence
      of the delimiter that starts inside it. */
  lemma PieceHasNoOccurrence(s: string, d: string, from: nat, end: nat)
    requires |d| > 0 && from <= end <= |s| && Separable(s[from..end], d)
    requires end == |s| || OccursAt(s, d, end)
    ensures forall k :: from <= k < end ==> !OccursAt(s, d, k)
  {
    var p := s[from..end];
    if d[0] !in p {
      forall k | from <= k < end
        ensures s[k] != d[0]
      {
        assert s[k] == p[k - from];
      }
      NoFirstCharNoOccurrence(s, d, from, end);
    } else {
      forall k | from <= k < end
        ensures !OccursAt(s, d, k)
      {
        if OccursAt(s, d, k) {
          if k + |d| <= end {
            OccurrenceInWindow(s, d, from, end, k);
            assert false;
          } else {
            OverlapIsBorder(s, d, k, end);
            assert false;
          }
        }
      }
    }
  }

  lemma ThreeWay(s: string, a: nat, b: nat, c: nat)
    requires a <= b <= c <= |s|
    ensures s[a..] == s[a..b] + s[b..c] + s[c..]
  {
  }

  /** Text cut before an occurrence of `d` and glued again with `d`. */
  lemma Glue(s: string, d: string, from: nat, j: nat, tail: string)
    requires from <= j && j + |d| <= |s| && s[j..j + |d|] == d && tail == s[j + |d|..]
    ensures s[from..j] + d + tail == s[from..]
  {
    ThreeWay(s, from, j, j + |d|);
  }

  lemma JoinCons(p: string, rest: seq<string>, d: string)
    requires |rest| >= 1
    ensures Join([p] + rest, d) == p + d + Join(rest, d)
  {
    assert ([p] + rest)[1..] == rest;
  }

  /** One cut: the piece before an occurrence of `d`, glued to the rest again. */
  lemma JoinStep(s: string, d: string, from: nat, j: nat, rest: seq<string>)
    requires from <= j && j + |d| <= |s| && s[j..j + |d|] == d
    requires |rest| >= 1 && Join(rest, d) == s[j + |d|..]
    ensures Join([s[from..j]] + rest, d) == s[from..]
  {
    JoinCons(s[from..j], rest, d);
    Glue(s, d, from, j, Join(rest, d));
  }

  /** Joining the pieces gives back the string they were cut from. */
  lemma {:induction false} JoinPieces(s: string, d: string, from: nat)
    requires |d| > 0 && from <= |s|
    ensures Join(Pieces(s, d, from), d) == s[from..]
    decreases |s| - from
  {
    var j := NextCut(s, d, from);
    if j < |s| {
      var rest := Pieces(s, d, j + |d|);
      assert Pieces(s, d, from) == [s[from..j]] + rest;
      JoinPieces(s, d, j + |d|);
      NextCutIsOccurrence(s, d, from);
      JoinStep(s, d, from, j, rest);
    } else {
      assert Pieces(s, d, from) == [s[from..]];
    }
  }

  /** A last piece that is empty means the string ends with the delimiter. */
  lemma {:induction false} EmptyLastPiece(s: string, d: string, from: nat)
    requires |d| > 0 && from <= |s|
    requires var ps := Pieces(s, d, from); ps[|ps| - 1] == ""
    ensures |Pieces(s, d, from)| == 1 || (|d| <= |s| && s[|s| - |d|..] == d)
    decreases |s| - from
  {
    var j := NextCut(s, d, from);
    if j < |s| {
      var rest := Pieces(s, d, j + |d|);
      assert Pieces(s, d, from)[|Pieces(s, d, from)| - 1] == rest[|rest| - 1];
      if |rest| == 1 {
        NextCutIsOccurrence(s, d, from);
        assert |s| == j + |d|;
      } else {
        EmptyLastPiece(s, d, j + |d|);
      }
    }
  }

  /** Split is undone by Join whenever the string does not end with the delimiter. */
  lemma JoinSplit(s: string, d: string)
    requires |d| > 0
    requires !(|d| <= |s| && s[|s| - |d|..] == d)
    ensures |Split(s, d)| >= 1 && Join(Split(s, d), d) == s
  {
    var ps := Pieces(s, d, 0);
    assert Split(s, d) == ps by {
      if |ps| != 1 {
        assert ps[|ps| - 1] != "" by {
          if ps[|ps| - 1] == "" {
            EmptyLastPiece(s, d, 0);
          }
        }
        assert DropTrailingEmpty(ps) == ps;
      }
    }
    JoinPieces(s, d, 0);
    assert s[0..] == s;
  }

  /** No piece contains the delimiter. */
  lemma {:induction false} PiecesAreFree(s: string, d: string, from: nat)
    requires |d| > 0 && from <= |s|
    ensures forall p <- Pieces(s, d, from) :: FreeOf(p, d)
    decreases |s| - from
  {
    var j := NextCut(s, d, from);
    NextCutIsFirst(s, d, from);
    assert FreeOf(s[from..j], d) by {
      forall k | 0 <= k < j - from
        ensures !OccursAt(s[from..j], d, k)
      {
        if OccursAt(s[from..j], d, k) {
          assert s[from..j][k..k + |d|] == s[from + k..from + k + |d|];
          assert OccursAt(s, d, from + k);
        }
      }
    }
    if j < |s| {
      PiecesAreFree(s, d, j + |d|);
      assert Pieces(s, d, from) == [s[from..j]] + Pieces(s, d, j + |d|);
    } else {
      assert s[from..j] == s[from..];
    }
  }

  /** No chunk of a split contains the delimiter. */
  lemma ChunksAreFree(s: string, d: string)
    requires |d| > 0
    ensures forall c <- Split(s, d) :: FreeOf(c, d)
  {
    PiecesAreFree(s, d, 0);
    var ps := Pieces(s, d, 0);
    forall c <- Split(s, d)
      ensures FreeOf(c, d)
    {
      assert c in ps;
    }
  }

  /** Reading `Join(ps, d)` at offset `from` of `s`: the first piece, then either the end
      of `s` or the delimiter and the join of the other pieces. */
  lemma JoinAt(s: string, d: string, ps: seq<string>, from: nat)
    requires |ps| >= 1 && from <= |s| && s[from..] == Join(ps, d)
    ensures var end := from + |ps[0]|;
            end <= |s| && s[from..end] == ps[0] &&
            (|ps| == 1 ==> end == |s|) &&
            (|ps| > 1 ==> end + |d| <= |s| && s[end..end + |d|] == d &&
                          s[end + |d|..] == Join(ps[1..], d))
  {
    var end := from + |ps[0]|;
    if |ps| == 1 {
      assert s[from..end] == s[from..];
    } else {
      var rest := Join(ps[1..], d);
      assert s[from..] == ps[0] + (d + rest);
      assert s[from..end] == s[from..][..|ps[0]|];
      assert s[end..end + |d|] == s[from..][|ps[0]|..|ps[0]| + |d|];
      assert s[end + |d|..] == s[from..][|ps[0]| + |d|..];
    }
  }

  /** Every piece is separable. */
  predicate AllSeparable(ps: seq<string>, d: string)
    requires |d| > 0
    decreases |ps|
  {
    ps == [] || (Separable(ps[0], d) && AllSeparable(ps[1..], d))
  }

  lemma {:induction false} AllSeparableEach(ps: seq<string>, d: string)
    requires |d| > 0 && forall k :: 0 <= k < |ps| ==> Separable(ps[k], d)
    ensures AllSeparable(ps, d)
    decreases |ps|
  {
    if ps != [] {
      assert forall k :: 0 <= k < |ps| - 1 ==> ps[1..][k] == ps[k + 1];
      AllSeparableEach(ps[1..], d);
    }
  }

  /** Text glued from separable pieces is cut exactly at the glue: the search from `from`
      stops where the first piece ends. */
  lemma FirstCut(s: string, d: string, ps: seq<string>, from: nat)
    requires |d| > 0 && |ps| >= 1 && Separable(ps[0], d)
    requires from <= |s| && s[from..] == Join(ps, d)
    ensures var end := from + |ps[0]|;
            NextCut(s, d, from) == (if |ps| == 1 then |s| else end) &&
            s[from..end] == ps[0] &&
            (|ps| > 1 ==> end + |d| <= |s| && s[end + |d|..] == Join(ps[1..], d))
  {
    var end := from + |ps[0]|;
    JoinAt(s, d, ps, from);
    PieceHasNoOccurrence(s, d, from, end);
    NextCutAt(s, d, from, end);
  }

  /** Splitting text glued from separable pieces recovers exactly those pieces. */
  lemma {:induction false} PiecesOfJoin(s: string, d: string, ps: seq<string>, from: nat)
    requires |d| > 0 && |ps| >= 1 && AllSeparable(ps, d)
    requires from <= |s| && s[from..] == Join(ps, d)
    ensures Pieces(s, d, from) == ps
    decreases |ps|
  {
    FirstCut(s, d, ps, from);
    if |ps| > 1 {
      var end := from + |ps[0]|;
      PiecesOfJoin(s, d, ps[1..], end + |d|);
      assert ps == [ps[0]] + ps[1..];
    }
  }

  /** Split of a glued pattern returns its pieces, provided every piece is separable and
      the last piece is not empty. */
  lemma SplitOfJoin(ps: seq<string>, d: string)
    requires |d| > 0 && |ps| >= 1 && ps[|ps| - 1] != "" && AllSeparable(ps, d)
    ensures Split(Join(ps, d), d) == ps
  {
    var s := Join(ps, d);
    PiecesOfJoin(s, d, ps, 0);
    if |ps| != 1 {
      assert DropTrailingEmpty(ps) == ps;
    }
  }
}
