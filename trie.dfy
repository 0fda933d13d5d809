/** The nodes of `SimpleParametrizedPrefixTree` and its two recursive operations, the
    private `insert(node, chunks, index, value)` and `find(node, path, start, params)`, as
    functions over an immutable first-child/next-sibling trie. */
module Trie {
  import opened Wrappers
  import opened Scanner

  /** `Node`: `key` is the segment text, or the parameter name without its braces when
      `isParam`; `value` is present exactly when the node is a leaf (`isLeaf`); `child`
      is the next segment and `brother` the alternative segment at the same depth. */
  datatype Node<V> = Nil | Node(key: string, isParam: bool, value: Option<V>, child: Node<V>, brother: Node<V>)

  /** A pattern chunk once classified: its key and whether it was written `{name}`. */
  datatype Segment = Segment(key: string, isParam: bool)

  /** The `IllegalStateException` that `insert` throws on an overlapping pattern. */
  datatype Error = RouteOverlap

  /** `Parameter`: a view of `length` characters of the looked-up path from `startIndex`. */
  datatype Parameter = Parameter(name: string, startIndex: nat, length: nat)

  /** What `find` produces: the value (Java's null is `None`) and the parameters it
      appends to the caller's list, in order. */
  datatype Found<V> = Found(value: Option<V>, params: seq<Parameter>)

  predicate BraceWrapped(chunk: string) {
    |chunk| >= 2 && chunk[0] == '{' && chunk[|chunk| - 1] == '}'
  }

  /** How a segment is written in a pattern. */
  function Raw(seg: Segment): string {
    if seg.isParam then "{" + seg.key + "}" else seg.key
  }

  /** A chunk starting with '{' and ending with '}' is a parameter, stored without them. */
  function ParseChunk(chunk: string): (seg: Segment)
    ensures seg.isParam == BraceWrapped(chunk)
    ensures Raw(seg) == chunk
  {
    var isParam := |chunk| > 0 && chunk[0] == '{' && chunk[|chunk| - 1] == '}';
    if isParam then
      assert chunk == "{" + chunk[1..|chunk| - 1] + "}";
      Segment(chunk[1..|chunk| - 1], true)
    else
      Segment(chunk, false)
  }

  /** Classifying how a segment is written gives the segment back, unless a literal key
      itself looks like `{name}`. */
  lemma ParseRaw(seg: Segment)
    requires seg.isParam || !BraceWrapped(seg.key)
    ensures ParseChunk(Raw(seg)) == seg
  {
    if seg.isParam {
      assert Raw(seg)[1..|Raw(seg)| - 1] == seg.key;
    }
  }

  function Segments(chunks: seq<string>): (segs: seq<Segment>)
    ensures |segs| == |chunks|
    ensures forall j :: 0 <= j < |chunks| ==> segs[j] == ParseChunk(chunks[j])
  {
    seq(|chunks|, j requires 0 <= j < |chunks| => ParseChunk(chunks[j]))
  }

  /** `match`: the key agrees with the path at `start` and the delimiter agrees right
      after the key, both in the sense of `areEqual`. */
  predicate Matches(key: string, path: string, delimiter: string, start: nat) {
    Agree(key, path, start) && Agree(delimiter, path, start + |key|)
  }

  /** Inside the path, `match` is exactly "key followed by delimiter". */
  lemma MatchesWithinBounds(key: string, path: string, delimiter: string, start: nat)
    requires start + |key| + |delimiter| <= |path|
    ensures Matches(key, path, delimiter, start) <==>
            path[start..start + |key| + |delimiter|] == key + delimiter
  {
    AgreeWithinBounds(key, path, start);
    AgreeWithinBounds(delimiter, path, start + |key|);
    var w := path[start..start + |key| + |delimiter|];
    assert w[..|key|] == path[start..start + |key|];
    assert w[|key|..] == path[start + |key|..start + |key| + |delimiter|];
    if w == key + delimiter {
      assert w[..|key|] == key && w[|key|..] == delimiter;
    }
  }

  /** At the end of the path, `match` only asks that the rest of the path be a prefix of
      the key: a key cut off by the end of the path still matches. */
  lemma MatchesCutOff(key: string, path: string, delimiter: string, start: nat)
    requires start <= |path| <= start + |key|
    ensures Matches(key, path, delimiter, start) <==> path[start..] <= key
  {
    AgreePastEnd(delimiter, path, start + |key|);
    if start < |path| {
      AgreeSlice(key, path, start);
      assert Min(|key|, |path| - start) == |path| - start;
      assert path[start..start + (|path| - start)] == path[start..];
    }
  }

  /** The private recursive `insert`: resolves `chunks[index..]` against the sibling chain
      `n`, extending it where keys are missing. Key equality ignores `isParam`. */
  function InsertAt<V>(n: Node<V>, chunks: seq<string>, index: nat, value: V): (r: Result<Node<V>, Error>)
    ensures n == Nil ==> r.Success?
    ensures r.Success? ==> (r.value == Nil <==> index >= |chunks|)
    decreases n, |chunks| - index
  {
    if index >= |chunks| then
      if n.Node? then Failure(RouteOverlap) else Success(Nil)
    else
      var seg := ParseChunk(chunks[index]);
      if n.Node? then
        if n.key == seg.key then
          if index + 1 >= |chunks| then
            Failure(RouteOverlap)
          else
            match InsertAt(n.child, chunks, index + 1, value)
            case Success(c) => Success(n.(child := c))
            case Failure(e) => Failure(e)
        else
          match InsertAt(n.brother, chunks, index, value)
          case Success(b) => Success(n.(brother := b))
          case Failure(e) => Failure(e)
      else
        var c := InsertAt(Nil, chunks, index + 1, value).value;
        Success(Node(seg.key, seg.isParam, if c == Nil then Some(value) else None, c, Nil))
  }

  /** All values held in the trie, with multiplicity. */
  function Values<V>(n: Node<V>): multiset<V> {
    if n == Nil then multiset{}
    else (if n.value.Some? then multiset{n.value.value} else multiset{}) + Values(n.child) + Values(n.brother)
  }

  /** Names of all parameter nodes. */
  function ParamKeys<V>(n: Node<V>): set<string> {
    if n == Nil then {}
    else (if n.isParam then {n.key} else {}) + ParamKeys(n.child) + ParamKeys(n.brother)
  }

  /** Keys of a sibling chain. */
  function ChainKeys<V>(n: Node<V>): set<string> {
    if n == Nil then {} else {n.key} + ChainKeys(n.brother)
  }

  /** `m` is `n` grown: every node of `n` is still there with its key, kind and value. */
  ghost predicate Extends<V>(n: Node<V>, m: Node<V>) {
    n == Nil ||
    (m.Node? && m.key == n.key && m.isParam == n.isParam && m.value == n.value &&
     Extends(n.child, m.child) && Extends(n.brother, m.brother))
  }

  /** What `insert` maintains: keys in a sibling chain are distinct, and every node
      without a child holds a value. */
  ghost predicate WellFormed<V>(n: Node<V>) {
    n == Nil ||
    (n.key !in ChainKeys(n.brother) && (n.child == Nil ==> n.value.Some?) &&
     WellFormed(n.child) && WellFormed(n.brother))
  }

  /** The value stored at the end of the key path `segs` (parameter flags not compared),
      following the first sibling with the wanted key at each depth. */
  function Lookup<V>(n: Node<V>, segs: seq<Segment>): Option<V> {
    if segs == [] || n == Nil then None
    else if n.key == segs[0].key then
      if |segs| == 1 then n.value else Lookup(n.child, segs[1..])
    else Lookup(n.brother, segs)
  }

  /** An insert that succeeds keeps every existing node's key, kind and value. */
  lemma {:induction false} InsertExtends<V>(n: Node<V>, chunks: seq<string>, index: nat, value: V)
    requires InsertAt(n, chunks, index, value).Success?
    ensures Extends(n, InsertAt(n, chunks, index, value).value)
    decreases n, |chunks| - index
  {
    if index < |chunks| && n.Node? {
      if n.key == ParseChunk(chunks[index]).key {
        InsertExtends(n.child, chunks, index + 1, value);
        ExtendsReflexive(n.brother);
      } else {
        InsertExtends(n.brother, chunks, index, value);
        ExtendsReflexive(n.child);
      }
    }
  }

  lemma {:induction false} ExtendsReflexive<V>(n: Node<V>)
    ensures Extends(n, n)
  {
    if n.Node? {
      ExtendsReflexive(n.child);
      ExtendsReflexive(n.brother);
    }
  }

  /** A successful insert of a pattern with at least one segment adds exactly one value,
      the inserted one. */
  lemma {:induction false} InsertAddsOneValue<V>(n: Node<V>, chunks: seq<string>, index: nat, value: V)
    requires index < |chunks| && InsertAt(n, chunks, index, value).Success?
    ensures Values(InsertAt(n, chunks, index, value).value) == Values(n) + multiset{value}
    decreases n, |chunks| - index
  {
    if n.Node? {
      if n.key == ParseChunk(chunks[index]).key {
        InsertAddsOneValue(n.child, chunks, index + 1, value);
      } else {
        InsertAddsOneValue(n.brother, chunks, index, value);
      }
    } else if index + 1 < |chunks| {
      InsertAddsOneValue(Nil, chunks, index + 1, value);
      assert value in Values(InsertAt(Nil, chunks, index + 1, value).value);
    }
  }

  /** After a successful insert, the inserted key path leads to the inserted value. */
  lemma {:induction false} InsertThenLookup<V>(n: Node<V>, chunks: seq<string>, index: nat, value: V)
    requires index < |chunks| && InsertAt(n, chunks, index, value).Success?
    ensures Lookup(InsertAt(n, chunks, index, value).value, Segments(chunks)[index..]) == Some(value)
    decreases n, |chunks| - index
  {
    var segs := Segments(chunks)[index..];
    assert segs[0] == ParseChunk(chunks[index]);
    assert index + 1 < |chunks| ==> segs[1..] == Segments(chunks)[index + 1..];
    if n.Node? {
      if n.key == segs[0].key {
        InsertThenLookup(n.child, chunks, index + 1, value);
      } else {
        InsertThenLookup(n.brother, chunks, index, value);
      }
    } else if index + 1 < |chunks| {
      InsertThenLookup(Nil, chunks, index + 1, value);
    }
  }

  /** A successful insert keeps the trie well formed and adds the first segment's key to
      the sibling chain it starts from. */
  lemma {:induction false} InsertKeepsWellFormed<V>(n: Node<V>, chunks: seq<string>, index: nat, value: V)
    requires WellFormed(n) && InsertAt(n, chunks, index, value).Success?
    ensures var t := InsertAt(n, chunks, index, value).value;
            WellFormed(t) &&
            ChainKeys(t) == ChainKeys(n) + (if index < |chunks| then {ParseChunk(chunks[index]).key} else {})
    decreases n, |chunks| - index
  {
    if index < |chunks| {
      if n.Node? {
        if n.key == ParseChunk(chunks[index]).key {
          InsertKeepsWellFormed(n.child, chunks, index + 1, value);
        } else {
          InsertKeepsWellFormed(n.brother, chunks, index, value);
        }
      } else {
        InsertKeepsWellFormed(Nil, chunks, index + 1, value);
      }
    }
  }

  /** Duplicate and prefix conflict: once `chunks` has been inserted, inserting any
      `other` pattern whose keys agree with it from `index` up to its own end, and which
      is no longer than `chunks`, throws. The keys are compared without braces, so a
      literal and a parameter segment with the same name collide. */
  lemma {:induction false} OverlapIsRejected<V>(n: Node<V>, chunks: seq<string>, index: nat, value: V,
                                                 other: seq<string>, otherValue: V)
    requires index < |other| <= |chunks|
    requires forall j :: index <= j < |other| ==> ParseChunk(other[j]).key == ParseChunk(chunks[j]).key
    requires InsertAt(n, chunks, index, value).Success?
    ensures InsertAt(InsertAt(n, chunks, index, value).value, other, index, otherValue).Failure?
    decreases n, |chunks| - index
  {
    if n.Node? {
      if n.key == ParseChunk(chunks[index]).key {
        if index + 1 < |other| {
          OverlapIsRejected(n.child, chunks, index + 1, value, other, otherValue);
        }
      } else {
        OverlapIsRejected(n.brother, chunks, index, value, other, otherValue);
      }
    } else if index + 1 < |other| {
      OverlapIsRejected(Nil, chunks, index + 1, value, other, otherValue);
    }
  }

  /** The key path `segs` ends on a node of `n`: following equal keys (braces and the
      parameter flag play no part) the last segment lands on a node, whatever that
      node holds. */
  predicate EndsOnNode<V>(n: Node<V>, segs: seq<Segment>) {
    segs != [] && n.Node? &&
    if n.key == segs[0].key then |segs| == 1 || EndsOnNode(n.child, segs[1..])
    else EndsOnNode(n.brother, segs)
  }

  /** Exactly when `insert` throws: a pattern with segments left throws if and only if its
      key path ends on an existing node; a pattern with none left throws if and only if
      the subtree is not empty. */
  lemma {:induction false} InsertFailsIffEndsOnNode<V>(n: Node<V>, chunks: seq<string>, index: nat, value: V)
    ensures index < |chunks| ==>
              (InsertAt(n, chunks, index, value).Failure? <==> EndsOnNode(n, Segments(chunks)[index..]))
    ensures index >= |chunks| ==> (InsertAt(n, chunks, index, value).Failure? <==> n.Node?)
    decreases n
  {
    if index < |chunks| && n.Node? {
      var segs := Segments(chunks)[index..];
      assert segs[0] == ParseChunk(chunks[index]);
      if n.key == segs[0].key {
        if index + 1 < |chunks| {
          assert segs[1..] == Segments(chunks)[index + 1..];
          InsertFailsIffEndsOnNode(n.child, chunks, index + 1, value);
        }
      } else {
        InsertFailsIffEndsOnNode(n.brother, chunks, index, value);
      }
    }
  }

  /** A key path that ends on a node of `n` still does so in every extension of `n`. */
  lemma {:induction false} EndsOnNodeExtends<V>(n: Node<V>, m: Node<V>, segs: seq<Segment>)
    requires Extends(n, m) && EndsOnNode(n, segs)
    ensures EndsOnNode(m, segs)
    decreases n
  {
    if n.key == segs[0].key {
      if |segs| > 1 {
        EndsOnNodeExtends(n.child, m.child, segs[1..]);
      }
    } else {
      EndsOnNodeExtends(n.brother, m.brother, segs);
    }
  }

  /** Extension is transitive, so a run of successful inserts extends the first tree. */
  lemma {:induction false} ExtendsTransitive<V>(a: Node<V>, b: Node<V>, c: Node<V>)
    requires Extends(a, b) && Extends(b, c)
    ensures Extends(a, c)
    decreases a
  {
    if a.Node? {
      ExtendsTransitive(a.child, b.child, c.child);
      ExtendsTransitive(a.brother, b.brother, c.brother);
    }
  }

  /** A pattern that a tree rejects is rejected by every tree grown from it by further
      inserts. */
  lemma RejectionSurvivesExtension<V>(n: Node<V>, m: Node<V>, chunks: seq<string>, index: nat, value: V)
    requires Extends(n, m) && InsertAt(n, chunks, index, value).Failure?
    ensures InsertAt(m, chunks, index, value).Failure?
  {
    InsertFailsIffEndsOnNode(n, chunks, index, value);
    InsertFailsIffEndsOnNode(m, chunks, index, value);
    if index < |chunks| {
      EndsOnNodeExtends(n, m, Segments(chunks)[index..]);
    }
  }

  /** The reverse order is accepted: a pattern that continues past an existing leaf is
      hung below it, and the leaf keeps its value. */
  lemma LongerPatternExtendsLeaf<V>(key: string, isParam: bool, existing: V, brother: Node<V>,
                                    chunks: seq<string>, index: nat, value: V)
    requires index + 1 < |chunks| && ParseChunk(chunks[index]).key == key
    ensures var r := InsertAt(Node(key, isParam, Some(existing), Nil, brother), chunks, index, value);
            r.Success? && r.value.value == Some(existing) && r.value.brother == brother &&
            r.value.child == InsertAt(Nil, chunks, index + 1, value).value &&
            Lookup(r.value, Segments(chunks)[index..]) == Some(value)
  {
    InsertThenLookup(Node(key, isParam, Some(existing), Nil, brother), chunks, index, value);
  }

  /** A parameter view taken by `find`: it starts inside the path and stops at the next
      delimiter the scan recognises (or at the end of the path). */
  predicate ValidCapture(path: string, delimiter: string, p: Parameter)
    requires |delimiter| > 0
  {
    p.startIndex < |path| && p.startIndex + p.length <= |path| &&
    p.startIndex + p.length == NextDelimiter(path, delimiter, p.startIndex)
  }

  /** Parameters lie after `from`, left to right and without overlapping. */
  predicate InOrder(ps: seq<Parameter>, from: nat) {
    (forall i :: 0 <= i < |ps| ==> from < ps[i].startIndex) &&
    (forall i, j :: 0 <= i < j < |ps| ==> ps[i].startIndex + ps[i].length < ps[j].startIndex)
  }

  /** The path from offset `start` is used up by a chain of matching nodes that ends on a
      node holding `v`: every node on the chain matches its key at its offset, a
      parameter node also takes the token up to the next delimiter, and the last node's
      key (and token) together with one delimiter reach the end of the path. The chain
      may pass over brothers. */
  ghost predicate EndsAt<V>(n: Node<V>, path: string, delimiter: string, start: nat, v: V)
    requires |delimiter| > 0
    decreases n
  {
    n.Node? && start < |path| &&
    ((Matches(n.key, path, delimiter, start) &&
      var next := start + |n.key| + |delimiter|;
      if n.isParam then
        next < |path| &&
        var after := NextDelimiter(path, delimiter, next) + |delimiter|;
        (n.value == Some(v) && after >= |path|) || EndsAt(n.child, path, delimiter, after, v)
      else
        (n.value == Some(v) && next >= |path|) || EndsAt(n.child, path, delimiter, next, v)) ||
     EndsAt(n.brother, path, delimiter, start, v))
  }

  /** The private recursive `find`, from node `n` at offset `start` of `path`. A literal
      node that matches moves past its key and one delimiter. A parameter node's key must
      appear literally in the path; the token after it is captured as a `Parameter`.
      After a match the search commits to the child and never returns to a sibling. */
  function FindFrom<V>(n: Node<V>, path: string, delimiter: string, start: nat): (r: Found<V>)
    requires |delimiter| > 0
    decreases n
  {
    if n == Nil || start >= |path| then
      Found(None, [])
    else if !Matches(n.key, path, delimiter, start) then
      FindFrom(n.brother, path, delimiter, start)
    else
      var next := start + |n.key| + |delimiter|;
      if n.isParam then
        if next >= |path| then
          Found(None, [])
        else
          var length := NextDelimiter(path, delimiter, next) - next;
          var p := Parameter(n.key, next, length);
          var after := next + length + |delimiter|;
          var rest := if n.value.Some? && after >= |path| then Found(n.value, [])
                      else FindFrom(n.child, path, delimiter, after);
          Found(rest.value, [p] + rest.params)
      else if n.value.Some? && next >= |path| then
        Found(n.value, [])
      else
        FindFrom(n.child, path, delimiter, next)
  }

  /** A value `find` returns sits at the end of a chain of matching nodes that uses up
      the whole path (`EndsAt`): a match that stops short of the end of the path, at a
      leaf, does not return the leaf's value. */
  lemma {:induction false} FindConsumesPath<V>(n: Node<V>, path: string, delimiter: string, start: nat)
    requires |delimiter| > 0
    ensures var r := FindFrom(n, path, delimiter, start);
            r.value.Some? ==> EndsAt(n, path, delimiter, start, r.value.value)
    decreases n
  {
    if n.Node? && start < |path| {
      var next := start + |n.key| + |delimiter|;
      if !Matches(n.key, path, delimiter, start) {
        FindConsumesPath(n.brother, path, delimiter, start);
      } else if !n.isParam {
        FindConsumesPath(n.child, path, delimiter, next);
      } else if next < |path| {
        FindConsumesPath(n.child, path, delimiter, NextDelimiter(path, delimiter, next) + |delimiter|);
      }
    }
  }

  /** What `find` promises about a result taken from node `n` at offset `start`: a value
      it returns is stored in the trie, and the parameters it appends are views of
      delimiter-bounded tokens of the path, named after parameter nodes, in left-to-right
      order after the start offset. */
  ghost predicate Sound<V>(n: Node<V>, path: string, delimiter: string, start: nat, r: Found<V>)
    requires |delimiter| > 0
  {
    (r.value.Some? ==> r.value.value in Values(n)) &&
    (forall p <- r.params :: ValidCapture(path, delimiter, p) && p.name in ParamKeys(n)) &&
    InOrder(r.params, start)
  }

  /** A result sound for the brother, or for the child from a later offset, is sound for
      the node. */
  lemma SoundForParent<V>(n: Node<V>, path: string, delimiter: string, start: nat, from: nat,
                          r: Found<V>, viaChild: bool)
    requires |delimiter| > 0 && n.Node? && start <= from
    requires viaChild ==> Sound(n.child, path, delimiter, from, r)
    requires !viaChild ==> Sound(n.brother, path, delimiter, from, r)
    ensures Sound(n, path, delimiter, start, r)
  {
  }

  /** A parameter captured before a result that is sound from a later offset. */
  lemma SoundCapture<V>(n: Node<V>, path: string, delimiter: string, start: nat, p: Parameter,
                        after: nat, rest: Found<V>)
    requires |delimiter| > 0 && n.Node? && n.isParam && p.name == n.key
    requires start < p.startIndex && ValidCapture(path, delimiter, p)
    requires p.startIndex + p.length < after
    requires rest == Found(n.value, []) || Sound(n.child, path, delimiter, after, rest)
    ensures Sound(n, path, delimiter, start, Found(rest.value, [p] + rest.params))
  {
    var ps := [p] + rest.params;
    forall i, j | 0 <= i < j < |ps|
      ensures ps[i].startIndex + ps[i].length < ps[j].startIndex
    {
      assert ps[j] == rest.params[j - 1];
      if i > 0 {
        assert ps[i] == rest.params[i - 1];
      }
    }
    forall q <- ps
      ensures ValidCapture(path, delimiter, q) && q.name in ParamKeys(n)
    {
      if q != p {
        assert q in rest.params;
      }
    }
  }

  /** `find` keeps the promise described by `Sound`. */
  lemma {:induction false} FindResultIsSound<V>(n: Node<V>, path: string, delimiter: string, start: nat)
    requires |delimiter| > 0
    ensures Sound(n, path, delimiter, start, FindFrom(n, path, delimiter, start))
    decreases n, 1
  {
    if n == Nil || start >= |path| {
    } else if !Matches(n.key, path, delimiter, start) {
      FindResultIsSound(n.brother, path, delimiter, start);
      BrotherFindIsSound(n, path, delimiter, start);
    } else if n.isParam {
      ParamFindIsSound(n, path, delimiter, start);
    } else {
      LiteralFindIsSound(n, path, delimiter, start);
    }
  }

  /** `find` at a node that does not match hands over to the brother. */
  lemma BrotherFindIsSound<V>(n: Node<V>, path: string, delimiter: string, start: nat)
    requires |delimiter| > 0 && n.Node? && start < |path| && !Matches(n.key, path, delimiter, start)
    requires Sound(n.brother, path, delimiter, start, FindFrom(n.brother, path, delimiter, start))
    ensures Sound(n, path, delimiter, start, FindFrom(n, path, delimiter, start))
  {
    var r := FindFrom(n.brother, path, delimiter, start);
    assert FindFrom(n, path, delimiter, start) == r;
    SoundForParent(n, path, delimiter, start, start, r, false);
  }

  /** `find` at a literal node that matches returns its value at the end of the path and
      otherwise hands over to the child after the key and a delimiter. */
  lemma {:induction false} LiteralFindIsSound<V>(n: Node<V>, path: string, delimiter: string, start: nat)
    requires |delimiter| > 0 && n.Node? && !n.isParam && start < |path| && Matches(n.key, path, delimiter, start)
    ensures Sound(n, path, delimiter, start, FindFrom(n, path, delimiter, start))
    decreases n, 0
  {
    var next := start + |n.key| + |delimiter|;
    if !(n.value.Some? && next >= |path|) {
      FindResultIsSound(n.child, path, delimiter, next);
      var r := FindFrom(n.child, path, delimiter, next);
      assert FindFrom(n, path, delimiter, start) == r;
      SoundForParent(n, path, delimiter, start, next, r, true);
    }
  }

  /** `find` at a parameter node that matches: the captured parameter comes first, then
      what the child finds. */
  lemma {:induction false} ParamFindIsSound<V>(n: Node<V>, path: string, delimiter: string, start: nat)
    requires |delimiter| > 0 && n.Node? && n.isParam && start < |path|
    requires Matches(n.key, path, delimiter, start)
    ensures Sound(n, path, delimiter, start, FindFrom(n, path, delimiter, start))
    decreases n, 0
  {
    var next := start + |n.key| + |delimiter|;
    if next < |path| {
      var end := NextDelimiter(path, delimiter, next);
      var p := Parameter(n.key, next, end - next);
      var after := end + |delimiter|;
      var rest := if n.value.Some? && after >= |path| then Found(n.value, [])
                  else FindFrom(n.child, path, delimiter, after);
      if !(n.value.Some? && after >= |path|) {
        FindResultIsSound(n.child, path, delimiter, after);
      }
      assert FindFrom(n, path, delimiter, start) == Found(rest.value, [p] + rest.params);
      SoundCapture(n, path, delimiter, start, p, after, rest);
    }
  }
}
