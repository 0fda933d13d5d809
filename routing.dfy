/** The round trip between `insert` and `find`. A pattern is a sequence of segments; a
    subject "instantiates" it by writing each literal key, and each parameter as its
    name followed by a value token, all delimiter-separated. When the sibling keys of the
    trie never extend one another, `find` on such a subject follows the inserted path,
    returns the inserted value and captures exactly the value tokens. */
module Routing {
  import opened Wrappers
  import opened Scanner
  import opened Splitting
  import opened Trie

  /** Neither string is a prefix of the other (in particular they differ). */
  predicate Unrelated(a: string, b: string) {
    !(a <= b) && !(b <= a)
  }

  /** In every sibling chain, no key is a prefix of another. This rules out the false
      matches that `match` allows when a key is cut off by the end of the path. */
  ghost predicate Routable<V>(n: Node<V>) {
    n == Nil ||
    ((forall k <- ChainKeys(n.brother) :: Unrelated(n.key, k)) && Routable(n.child) && Routable(n.brother))
  }

  /** The pattern `segs` can be inserted into `n` without conflict and without breaking
      `Routable`: along the way it shares only nodes of the same kind, it never ends on an
      existing node, and a key it adds is unrelated to the keys already beside it. */
  ghost predicate Compatible<V>(n: Node<V>, segs: seq<Segment>) {
    segs == [] || n == Nil ||
    if n.key == segs[0].key then
      n.isParam == segs[0].isParam && |segs| > 1 && Compatible(n.child, segs[1..])
    else
      Unrelated(n.key, segs[0].key) && Compatible(n.brother, segs)
  }

  /** `segs` leads through `n`, node kinds included, to a node holding `v`. */
  ghost predicate Routes<V>(n: Node<V>, segs: seq<Segment>, v: V) {
    segs != [] && n.Node? &&
    if n.key == segs[0].key then
      n.isParam == segs[0].isParam &&
      if |segs| == 1 then n.value == Some(v) else Routes(n.child, segs[1..], v)
    else
      Routes(n.brother, segs, v)
  }

  /** The pattern text: chunk 0 empty, then every segment as written, delimiter-separated. */
  function Pattern(segs: seq<Segment>, delimiter: string): string {
    Join([""] + Raws(segs), delimiter)
  }

  /** Every segment as written. */
  function Raws(segs: seq<Segment>): (raws: seq<string>)
    ensures |raws| == |segs| && forall i :: 0 <= i < |segs| ==> raws[i] == Raw(segs[i])
  {
    seq(|segs|, i requires 0 <= i < |segs| => Raw(segs[i]))
  }

  /** One segment of a subject: the delimiter and the key, and for a parameter another
      delimiter and the value token. */
  function SegmentText(seg: Segment, token: string, delimiter: string): string {
    delimiter + seg.key + (if seg.isParam then delimiter + token else "")
  }

  /** A subject for the pattern: its segments written one after another. */
  function Subject(segs: seq<Segment>, tokens: seq<string>, delimiter: string): string
    requires |tokens| == |segs|
  {
    if segs == [] then ""
    else SegmentText(segs[0], tokens[0], delimiter) + Subject(segs[1..], tokens[1..], delimiter)
  }

  /** Conditions under which a subject is read back unambiguously: keys are not empty and
      value tokens are non-empty and free of the delimiter's first character. */
  predicate ProperInstance(segs: seq<Segment>, tokens: seq<string>, delimiter: string)
    requires |delimiter| > 0
  {
    |tokens| == |segs| &&
    forall i :: 0 <= i < |segs| ==>
      segs[i].key != "" && (segs[i].isParam ==> tokens[i] != "" && delimiter[0] !in tokens[i])
  }

  /** Conditions under which a pattern text splits back into its segments: keys are not
      empty, a literal key does not look like `{name}`, and the delimiter cannot cut inside a
      written segment (see `Separable`). */
  predicate Writable(segs: seq<Segment>, delimiter: string)
    requires |delimiter| > 0
  {
    forall i :: 0 <= i < |segs| ==>
      segs[i].key != "" && (segs[i].isParam || !BraceWrapped(segs[i].key)) &&
      Separable(Raw(segs[i]), delimiter)
  }

  datatype Binding = Binding(name: string, text: string)

  /** The parameter values a subject carries, in order. */
  function Bindings(segs: seq<Segment>, tokens: seq<string>): seq<Binding>
    requires |tokens| == |segs|
  {
    if segs == [] then []
    else (if segs[0].isParam then [Binding(segs[0].key, tokens[0])] else []) + Bindings(segs[1..], tokens[1..])
  }

  /** The parameters `ps`, read as views of `path`, name and spell out `bs`, in order. */
  predicate Recovers(path: string, ps: seq<Parameter>, bs: seq<Binding>)
    decreases |ps|
  {
    |ps| == |bs| &&
    (ps == [] ||
     (ps[0].name == bs[0].name && ps[0].startIndex + ps[0].length <= |path| &&
      path[ps[0].startIndex..ps[0].startIndex + ps[0].length] == bs[0].text &&
      Recovers(path, ps[1..], bs[1..])))
  }

  lemma RecoversCons(path: string, p: Parameter, ps: seq<Parameter>, b: Binding, bs: seq<Binding>)
    requires Recovers(path, ps, bs)
    requires p.name == b.name && p.startIndex + p.length <= |path|
    requires path[p.startIndex..p.startIndex + p.length] == b.text
    ensures Recovers(path, [p] + ps, [b] + bs)
  {
    assert ([p] + ps)[1..] == ps && ([b] + bs)[1..] == bs;
  }

  lemma {:induction false} RoutesKeyInChain<V>(n: Node<V>, segs: seq<Segment>, v: V)
    requires Routes(n, segs, v)
    ensures segs[0].key in ChainKeys(n)
    decreases n
  {
    if n.key != segs[0].key {
      RoutesKeyInChain(n.brother, segs, v);
    }
  }

  /** A key unrelated to the key written at `start` does not match there, even when it
      would be cut off by the end of the path. */
  lemma UnrelatedDoesNotMatch(other: string, key: string, path: string, delimiter: string, start: nat)
    requires Unrelated(other, key)
    requires start + |key| <= |path| && path[start..start + |key|] == key
    ensures !Matches(other, path, delimiter, start)
  {
    AgreePointwise(other, path, start);
    var m := Min(|other|, |key|);
    assert other[..m] != key[..m] by {
      if |other| <= |key| {
        assert other[..m] == other;
      } else {
        assert key[..m] == key;
      }
    }
    var i :| 0 <= i < m && other[..m][i] != key[..m][i];
    assert path[start..start + |key|][i] == key[i];
    assert other[i] == other[..m][i] && key[i] == key[..m][i];
  }

  /** A subject with a non-empty first key starts with the delimiter and goes on past it. */
  lemma SubjectStart(segs: seq<Segment>, tokens: seq<string>, delimiter: string)
    requires |tokens| == |segs| && |segs| > 0 && segs[0].key != ""
    ensures var s := Subject(segs, tokens, delimiter);
            |s| > |delimiter| && s[..|delimiter|] == delimiter
  {
    var rest := segs[0].key + (if segs[0].isParam then delimiter + tokens[0] else "") +
                Subject(segs[1..], tokens[1..], delimiter);
    assert Subject(segs, tokens, delimiter) == delimiter + rest;
  }

  lemma ProperInstanceTail(segs: seq<Segment>, tokens: seq<string>, delimiter: string)
    requires |delimiter| > 0 && ProperInstance(segs, tokens, delimiter) && |segs| > 0
    ensures ProperInstance(segs[1..], tokens[1..], delimiter)
  {
    forall i | 0 <= i < |segs| - 1
      ensures segs[1..][i].key != "" &&
              (segs[1..][i].isParam ==> tokens[1..][i] != "" && delimiter[0] !in tokens[1..][i])
    {
      assert segs[1..][i] == segs[i + 1] && tokens[1..][i] == tokens[i + 1];
    }
  }

  /** Reading `a + b` at offset `at` of `path`: `a` first, then `b` to the end. */
  lemma SplitAt(path: string, at: nat, a: string, b: string)
    requires at <= |path| && path[at..] == a + b
    ensures at + |a| <= |path| && path[at..at + |a|] == a && path[at + |a|..] == b
  {
    assert path[at..at + |a|] == path[at..][..|a|];
    assert path[at + |a|..] == path[at..][|a|..];
  }

  /** Where the pieces of a first parameter segment lie when a subject is written at `at`:
      the delimiter, the name, the delimiter and the value token. */
  lemma ParamHead(segs: seq<Segment>, tokens: seq<string>, delimiter: string, path: string, at: nat)
    requires |tokens| == |segs| > 0 && segs[0].isParam
    requires at <= |path| && path[at..] == Subject(segs, tokens, delimiter)
    ensures var d, key, token := delimiter, segs[0].key, tokens[0];
            var keyEnd := at + |d| + |key|;
            var next := keyEnd + |d|;
            next + |token| <= |path| &&
            at + |SegmentText(segs[0], token, d)| == next + |token| &&
            path[at + |d|..keyEnd] == key && path[keyEnd..next] == d &&
            path[next..next + |token|] == token
  {
    var d, key, token := delimiter, segs[0].key, tokens[0];
    var tail := Subject(segs[1..], tokens[1..], d);
    var keyEnd := at + |d| + |key|;
    var next := keyEnd + |d|;
    ParamShape(segs, tokens, d);
    ParamPieces(path, at, d, key, token, tail);
  }

  /** A subject whose first segment is a parameter, spelled out. */
  lemma ParamShape(segs: seq<Segment>, tokens: seq<string>, d: string)
    requires |tokens| == |segs| > 0 && segs[0].isParam
    ensures var key, token, tail := segs[0].key, tokens[0], Subject(segs[1..], tokens[1..], d);
            Subject(segs, tokens, d) == d + (key + (d + (token + tail))) &&
            |SegmentText(segs[0], token, d)| == |d| + |key| + |d| + |token|
  {
  }

  /** The delimiter, the name, the delimiter and the token, read off `path` at `at`. */
  lemma ParamPieces(path: string, at: nat, d: string, key: string, token: string, tail: string)
    requires at <= |path| && path[at..] == d + (key + (d + (token + tail)))
    ensures var keyEnd := at + |d| + |key|;
            var next := keyEnd + |d|;
            next + |token| <= |path| &&
            path[at + |d|..keyEnd] == key && path[keyEnd..next] == d &&
            path[next..next + |token|] == token
  {
    var keyEnd := at + |d| + |key|;
    SplitAt(path, at, d, key + (d + (token + tail)));
    SplitAt(path, at + |d|, key, d + (token + tail));
    SplitAt(path, keyEnd, d, token + tail);
    SplitAt(path, keyEnd + |d|, token, tail);
  }

  /** Where the key of a first literal segment lies when a subject is written at `at`. */
  lemma LiteralHead(segs: seq<Segment>, tokens: seq<string>, delimiter: string, path: string, at: nat)
    requires |tokens| == |segs| > 0 && !segs[0].isParam
    requires at <= |path| && path[at..] == Subject(segs, tokens, delimiter)
    ensures var d, key := delimiter, segs[0].key;
            at + |d| + |key| <= |path| &&
            at + |SegmentText(segs[0], tokens[0], d)| == at + |d| + |key| &&
            path[at + |d|..at + |d| + |key|] == key
  {
    var d, key := delimiter, segs[0].key;
    var tail := Subject(segs[1..], tokens[1..], d);
    var w := d + key;
    assert path[at..] == w + tail;
    SplitAt(path, at, w, tail);
    assert path[at + |d|..at + |d| + |key|] == path[at..at + |w|][|d|..];
  }

  /** The rest of the subject after its first segment. */
  lemma SubjectNext(segs: seq<Segment>, tokens: seq<string>, delimiter: string, path: string, at: nat)
    requires |delimiter| > 0 && ProperInstance(segs, tokens, delimiter) && |segs| > 0
    requires at <= |path| && path[at..] == Subject(segs, tokens, delimiter)
    ensures var textEnd := at + |SegmentText(segs[0], tokens[0], delimiter)|;
            textEnd <= |path| && path[textEnd..] == Subject(segs[1..], tokens[1..], delimiter) &&
            ProperInstance(segs[1..], tokens[1..], delimiter)
  {
    SplitAt(path, at, SegmentText(segs[0], tokens[0], delimiter), Subject(segs[1..], tokens[1..], delimiter));
    ProperInstanceTail(segs, tokens, delimiter);
  }

  /** What follows the first segment: nothing when it is the last, otherwise the
      delimiter and more. */
  lemma SubjectRest(segs: seq<Segment>, tokens: seq<string>, delimiter: string, path: string, at: nat)
    requires |delimiter| > 0 && ProperInstance(segs, tokens, delimiter) && |segs| > 0
    requires at <= |path| && path[at..] == Subject(segs, tokens, delimiter)
    ensures var textEnd := at + |SegmentText(segs[0], tokens[0], delimiter)|;
            ProperInstance(segs[1..], tokens[1..], delimiter) &&
            (|segs| == 1 <==> textEnd == |path|) &&
            (|segs| == 1 ==> Bindings(segs[1..], tokens[1..]) == []) &&
            (|segs| > 1 ==> textEnd + |delimiter| < |path| &&
                            path[textEnd..textEnd + |delimiter|] == delimiter)
  {
    var d := delimiter;
    var textEnd := at + |SegmentText(segs[0], tokens[0], d)|;
    SubjectNext(segs, tokens, d, path, at);
    if |segs| > 1 {
      assert segs[1..][0].key != "";
      SubjectStart(segs[1..], tokens[1..], d);
      assert path[textEnd..textEnd + |d|] == path[textEnd..][..|d|];
    } else {
      assert segs[1..] == [];
    }
  }

  /** A key written at `start` and followed by the delimiter or by the end of the path
      matches there. */
  lemma KeyMatches(key: string, path: string, delimiter: string, start: nat)
    requires start + |key| <= |path| && path[start..start + |key|] == key
    requires start + |key| == |path| ||
             (start + |key| + |delimiter| <= |path| &&
              path[start + |key|..start + |key| + |delimiter|] == delimiter)
    ensures Matches(key, path, delimiter, start)
  {
    AgreeWithinBounds(key, path, start);
    if start + |key| == |path| {
      AgreePastEnd(delimiter, path, start + |key|);
    } else {
      AgreeWithinBounds(delimiter, path, start + |key|);
    }
  }

  /** A value token followed by the delimiter or by the end of the path is scanned exactly. */
  lemma TokenScan(path: string, delimiter: string, next: nat, tokenEnd: nat)
    requires |delimiter| > 0 && next <= tokenEnd <= |path|
    requires delimiter[0] !in path[next..tokenEnd]
    requires tokenEnd == |path| ||
             (tokenEnd + |delimiter| <= |path| && path[tokenEnd..tokenEnd + |delimiter|] == delimiter)
    ensures NextDelimiter(path, delimiter, next) == tokenEnd
  {
    forall j | next <= j < tokenEnd
      ensures path[j] != delimiter[0]
    {
      assert path[j] == path[next..tokenEnd][j - next];
    }
    ScanSkipsToken(path, delimiter, next, tokenEnd);
  }

  /** `find` from `start` returns `v`, with parameters that spell out `bindings`. */
  ghost predicate Delivers<V>(n: Node<V>, path: string, delimiter: string, start: nat, v: V,
                              bindings: seq<Binding>)
    requires |delimiter| > 0
  {
    var r := FindFrom(n, path, delimiter, start);
    r.value == Some(v) && Recovers(path, r.params, bindings)
  }

  /** `find` at a matching parameter node whose value token ends at `tokenEnd`: it
      captures the token, then stops at the end of the path or continues in the child
      after the next delimiter; given what the child finds, the node finds the same value
      and one binding more. */
  lemma ParamRoute<V>(n: Node<V>, path: string, delimiter: string, start: nat, tokenEnd: nat,
                      later: seq<Binding>, v: V)
    requires |delimiter| > 0 && n.Node? && n.isParam
    requires Matches(n.key, path, delimiter, start)
    requires start + |n.key| + |delimiter| < tokenEnd <= |path|
    requires NextDelimiter(path, delimiter, start + |n.key| + |delimiter|) == tokenEnd
    requires tokenEnd == |path| ==> n.value == Some(v) && later == []
    requires tokenEnd < |path| ==>
               tokenEnd + |delimiter| < |path| &&
               Delivers(n.child, path, delimiter, tokenEnd + |delimiter|, v, later)
    ensures var next := start + |n.key| + |delimiter|;
            Delivers(n, path, delimiter, start, v, [Binding(n.key, path[next..tokenEnd])] + later)
  {
    var next := start + |n.key| + |delimiter|;
    var rest := if tokenEnd == |path| then Found(n.value, [])
                else FindFrom(n.child, path, delimiter, tokenEnd + |delimiter|);
    assert FindFrom(n, path, delimiter, start) ==
           Found(rest.value, [Parameter(n.key, next, tokenEnd - next)] + rest.params);
    RecoversCons(path, Parameter(n.key, next, tokenEnd - next), rest.params,
                 Binding(n.key, path[next..tokenEnd]), later);
  }

  /** What `find` achieves along a route, for a subject written from offset `at` to the
      end of `path`: it returns `v`, with parameters that spell out the subject's
      bindings. */
  ghost predicate FindsAlong<V>(n: Node<V>, segs: seq<Segment>, tokens: seq<string>,
                                delimiter: string, path: string, at: nat, v: V)
    requires |delimiter| > 0 && |tokens| == |segs|
  {
    Delivers(n, path, delimiter, at + |delimiter|, v, Bindings(segs, tokens))
  }

  /** A sibling whose key is unrelated to the segment's key is skipped. */
  lemma SkipRoute<V>(n: Node<V>, segs: seq<Segment>, tokens: seq<string>, delimiter: string,
                     path: string, at: nat, v: V)
    requires |delimiter| > 0 && ProperInstance(segs, tokens, delimiter) && |segs| > 0
    requires at <= |path| && path[at..] == Subject(segs, tokens, delimiter)
    requires n.Node? && Unrelated(n.key, segs[0].key)
    requires FindsAlong(n.brother, segs, tokens, delimiter, path, at, v)
    ensures FindsAlong(n, segs, tokens, delimiter, path, at, v)
  {
    var start := at + |delimiter|;
    if segs[0].isParam {
      ParamHead(segs, tokens, delimiter, path, at);
    } else {
      LiteralHead(segs, tokens, delimiter, path, at);
    }
    UnrelatedDoesNotMatch(n.key, segs[0].key, path, delimiter, start);
    assert FindFrom(n, path, delimiter, start) == FindFrom(n.brother, path, delimiter, start);
  }

  /** The segment's own parameter node, with its name written at `start` and its value
      token `token` after the next delimiter, captures the token and hands on to the
      child, or stops at the end of the path. */
  lemma ParamSegmentRoute<V>(n: Node<V>, path: string, delimiter: string, start: nat, token: string,
                             later: seq<Binding>, v: V)
    requires |delimiter| > 0 && n.Node? && n.isParam && token != "" && delimiter[0] !in token
    requires var keyEnd := start + |n.key|;
             var next := keyEnd + |delimiter|;
             next + |token| <= |path| && path[start..keyEnd] == n.key &&
             path[keyEnd..next] == delimiter && path[next..next + |token|] == token
    requires var tokenEnd := start + |n.key| + |delimiter| + |token|;
             (tokenEnd == |path| ==> n.value == Some(v) && later == []) &&
             (tokenEnd < |path| ==>
                tokenEnd + |delimiter| < |path| &&
                path[tokenEnd..tokenEnd + |delimiter|] == delimiter &&
                Delivers(n.child, path, delimiter, tokenEnd + |delimiter|, v, later))
    ensures Delivers(n, path, delimiter, start, v, [Binding(n.key, token)] + later)
  {
    var d, key := delimiter, n.key;
    var next := start + |key| + |d|;
    var tokenEnd := next + |token|;
    KeyMatches(key, path, d, start);
    TokenScan(path, d, next, tokenEnd);
    ParamRoute(n, path, d, start, tokenEnd, later, v);
  }

  /** The segment's own literal node, with its key written at `start`, hands on to the
      child, or stops at the end of the path. */
  lemma LiteralSegmentRoute<V>(n: Node<V>, path: string, delimiter: string, start: nat,
                               later: seq<Binding>, v: V)
    requires |delimiter| > 0 && n.Node? && !n.isParam && n.key != ""
    requires start + |n.key| <= |path| && path[start..start + |n.key|] == n.key
    requires var keyEnd := start + |n.key|;
             (keyEnd == |path| ==> n.value == Some(v) && later == []) &&
             (keyEnd < |path| ==>
                keyEnd + |delimiter| < |path| &&
                path[keyEnd..keyEnd + |delimiter|] == delimiter &&
                Delivers(n.child, path, delimiter, keyEnd + |delimiter|, v, later))
    ensures Delivers(n, path, delimiter, start, v, later)
  {
    KeyMatches(n.key, path, delimiter, start);
  }

  /** The layout of a subject whose first segment is a parameter, in offsets of `path`. */
  lemma ParamLayout(segs: seq<Segment>, tokens: seq<string>, delimiter: string, path: string, at: nat)
    requires |delimiter| > 0 && ProperInstance(segs, tokens, delimiter) && |segs| > 0
    requires at <= |path| && path[at..] == Subject(segs, tokens, delimiter) && segs[0].isParam
    ensures var d, key, token := delimiter, segs[0].key, tokens[0];
            var start := at + |d|;
            var tokenEnd := start + |key| + |d| + |token|;
            var later := Bindings(segs[1..], tokens[1..]);
            token != "" && d[0] !in token &&
            tokenEnd <= |path| && path[start..start + |key|] == key &&
            path[start + |key|..start + |key| + |d|] == d &&
            path[start + |key| + |d|..tokenEnd] == token &&
            at + |SegmentText(segs[0], token, d)| == tokenEnd &&
            Bindings(segs, tokens) == [Binding(key, token)] + later &&
            (|segs| == 1 <==> tokenEnd == |path|) && (|segs| == 1 ==> later == []) &&
            (|segs| > 1 ==> tokenEnd + |d| < |path| && path[tokenEnd..tokenEnd + |d|] == d)
  {
    ParamHead(segs, tokens, delimiter, path, at);
    SubjectRest(segs, tokens, delimiter, path, at);
  }

  /** The layout of a subject whose first segment is a literal, in offsets of `path`. */
  lemma LiteralLayout(segs: seq<Segment>, tokens: seq<string>, delimiter: string, path: string, at: nat)
    requires |delimiter| > 0 && ProperInstance(segs, tokens, delimiter) && |segs| > 0
    requires at <= |path| && path[at..] == Subject(segs, tokens, delimiter) && !segs[0].isParam
    ensures var d, key := delimiter, segs[0].key;
            var start := at + |d|;
            var keyEnd := start + |key|;
            var later := Bindings(segs[1..], tokens[1..]);
            key != "" && keyEnd <= |path| && path[start..keyEnd] == key &&
            at + |SegmentText(segs[0], tokens[0], d)| == keyEnd && Bindings(segs, tokens) == later &&
            (|segs| == 1 <==> keyEnd == |path|) && (|segs| == 1 ==> later == []) &&
            (|segs| > 1 ==> keyEnd + |d| < |path| && path[keyEnd..keyEnd + |d|] == d)
  {
    LiteralHead(segs, tokens, delimiter, path, at);
    SubjectRest(segs, tokens, delimiter, path, at);
  }

  /** Along a parameter segment of the subject. */
  lemma ParamSubjectRoute<V>(n: Node<V>, segs: seq<Segment>, tokens: seq<string>, delimiter: string,
                             path: string, at: nat, v: V)
    requires |delimiter| > 0 && ProperInstance(segs, tokens, delimiter) && |segs| > 0
    requires at <= |path| && path[at..] == Subject(segs, tokens, delimiter)
    requires n.Node? && n.key == segs[0].key && n.isParam && segs[0].isParam
    requires |segs| == 1 ==> n.value == Some(v)
    requires |segs| > 1 ==>
               FindsAlong(n.child, segs[1..], tokens[1..], delimiter, path,
                          at + |SegmentText(segs[0], tokens[0], delimiter)|, v)
    ensures FindsAlong(n, segs, tokens, delimiter, path, at, v)
  {
    var d := delimiter;
    ParamLayout(segs, tokens, d, path, at);
    ParamSegmentRoute(n, path, d, at + |d|, tokens[0], Bindings(segs[1..], tokens[1..]), v);
  }

  /** Along a literal segment of the subject. */
  lemma LiteralSubjectRoute<V>(n: Node<V>, segs: seq<Segment>, tokens: seq<string>, delimiter: string,
                               path: string, at: nat, v: V)
    requires |delimiter| > 0 && ProperInstance(segs, tokens, delimiter) && |segs| > 0
    requires at <= |path| && path[at..] == Subject(segs, tokens, delimiter)
    requires n.Node? && n.key == segs[0].key && !n.isParam && !segs[0].isParam
    requires |segs| == 1 ==> n.value == Some(v)
    requires |segs| > 1 ==>
               FindsAlong(n.child, segs[1..], tokens[1..], delimiter, path,
                          at + |SegmentText(segs[0], tokens[0], delimiter)|, v)
    ensures FindsAlong(n, segs, tokens, delimiter, path, at, v)
  {
    var d := delimiter;
    LiteralLayout(segs, tokens, d, path, at);
    LiteralSegmentRoute(n, path, d, at + |d|, Bindings(segs[1..], tokens[1..]), v);
  }

  /** The heart of the round trip: along a route, `find` skips the siblings whose keys
      differ, matches the segment's own node, captures each value token, and returns the
      value at the end of the route. */
  lemma {:induction false} FindFollowsRoute<V>(n: Node<V>, segs: seq<Segment>, tokens: seq<string>,
                                               delimiter: string, path: string, at: nat, v: V)
    requires |delimiter| > 0 && ProperInstance(segs, tokens, delimiter)
    requires at <= |path| && path[at..] == Subject(segs, tokens, delimiter)
    requires Routable(n) && Routes(n, segs, v)
    ensures FindsAlong(n, segs, tokens, delimiter, path, at, v)
    decreases n
  {
    var d, key := delimiter, segs[0].key;
    var textEnd := at + |SegmentText(segs[0], tokens[0], d)|;
    SubjectNext(segs, tokens, d, path, at);
    if n.key != key {
      RoutesKeyInChain(n.brother, segs, v);
      FindFollowsRoute(n.brother, segs, tokens, d, path, at, v);
      SkipRoute(n, segs, tokens, d, path, at, v);
    } else {
      if |segs| > 1 {
        FindFollowsRoute(n.child, segs[1..], tokens[1..], d, path, textEnd, v);
      }
      if n.isParam {
        ParamSubjectRoute(n, segs, tokens, d, path, at, v);
      } else {
        LiteralSubjectRoute(n, segs, tokens, d, path, at, v);
      }
    }
  }

  /** A compatible pattern is always accepted. */
  lemma {:induction false} CompatibleInsertSucceeds<V>(n: Node<V>, chunks: seq<string>, index: nat, value: V)
    requires index < |chunks| && Compatible(n, Segments(chunks)[index..])
    ensures InsertAt(n, chunks, index, value).Success?
    decreases n
  {
    var segs := Segments(chunks)[index..];
    if n.Node? {
      if n.key == segs[0].key {
        assert segs[1..] == Segments(chunks)[index + 1..];
        CompatibleInsertSucceeds(n.child, chunks, index + 1, value);
      } else {
        CompatibleInsertSucceeds(n.brother, chunks, index, value);
      }
    }
  }

  /** Inserting a compatible pattern keeps the sibling keys prefix-free. */
  lemma {:induction false} InsertKeepsRoutable<V>(n: Node<V>, chunks: seq<string>, index: nat, value: V)
    requires index < |chunks| && Routable(n) && Compatible(n, Segments(chunks)[index..])
    requires InsertAt(n, chunks, index, value).Success?
    ensures var t := InsertAt(n, chunks, index, value).value;
            Routable(t) && ChainKeys(t) == ChainKeys(n) + {ParseChunk(chunks[index]).key}
    decreases n, |chunks| - index
  {
    var segs := Segments(chunks)[index..];
    var t := InsertAt(n, chunks, index, value).value;
    assert index + 1 < |chunks| ==> segs[1..] == Segments(chunks)[index + 1..];
    if n.Node? {
      if n.key == segs[0].key {
        InsertKeepsRoutable(n.child, chunks, index + 1, value);
      } else {
        InsertKeepsRoutable(n.brother, chunks, index, value);
        assert forall k <- ChainKeys(t.brother) :: Unrelated(n.key, k);
      }
    } else if index + 1 < |chunks| {
      InsertKeepsRoutable(Nil, chunks, index + 1, value);
    }
  }

  /** Inserting a compatible pattern creates its route, node kinds included. */
  lemma {:induction false} InsertCreatesRoute<V>(n: Node<V>, chunks: seq<string>, index: nat, value: V)
    requires index < |chunks| && Compatible(n, Segments(chunks)[index..])
    requires InsertAt(n, chunks, index, value).Success?
    ensures Routes(InsertAt(n, chunks, index, value).value, Segments(chunks)[index..], value)
    decreases n, |chunks| - index
  {
    var segs := Segments(chunks)[index..];
    assert segs[0] == ParseChunk(chunks[index]);
    assert index + 1 < |chunks| ==> segs[1..] == Segments(chunks)[index + 1..];
    if n.Node? {
      if n.key == segs[0].key {
        InsertCreatesRoute(n.child, chunks, index + 1, value);
      } else {
        InsertCreatesRoute(n.brother, chunks, index, value);
      }
    } else if index + 1 < |chunks| {
      InsertCreatesRoute(Nil, chunks, index + 1, value);
    }
  }

  /** Growing the trie keeps every route it had. */
  lemma {:induction false} ExtendsKeepsRoutes<V>(n: Node<V>, m: Node<V>, segs: seq<Segment>, v: V)
    requires Extends(n, m) && Routes(n, segs, v)
    ensures Routes(m, segs, v)
    decreases n
  {
    if n.key == segs[0].key {
      if |segs| > 1 {
        ExtendsKeepsRoutes(n.child, m.child, segs[1..], v);
      }
    } else {
      ExtendsKeepsRoutes(n.brother, m.brother, segs, v);
    }
  }

  /** A later successful insert does not disturb the lookup of an earlier pattern. */
  lemma RouteSurvivesInsert<V>(n: Node<V>, segs: seq<Segment>, v: V, chunks: seq<string>, index: nat, value: V)
    requires Routes(n, segs, v) && InsertAt(n, chunks, index, value).Success?
    ensures Routes(InsertAt(n, chunks, index, value).value, segs, v)
  {
    InsertExtends(n, chunks, index, value);
    ExtendsKeepsRoutes(n, InsertAt(n, chunks, index, value).value, segs, v);
  }

  /** The pattern text splits back into chunk 0 and the segments as written. */
  lemma PatternPieces(segs: seq<Segment>, delimiter: string)
    requires |delimiter| > 0 && |segs| > 0 && Writable(segs, delimiter)
    ensures Split(Pattern(segs, delimiter), delimiter) == [""] + Raws(segs)
  {
    var ps := [""] + Raws(segs);
    forall k | 0 <= k < |ps|
      ensures Separable(ps[k], delimiter)
    {
      if k > 0 {
        assert ps[k] == Raws(segs)[k - 1];
      }
    }
    AllSeparableEach(ps, delimiter);
    assert ps[|ps| - 1] == Raw(segs[|segs| - 1]);
    SplitOfJoin(ps, delimiter);
  }

  /** Classifying the written segments gives the segments back. */
  lemma ParseRaws(segs: seq<Segment>)
    requires forall i :: 0 <= i < |segs| ==> segs[i].isParam || !BraceWrapped(segs[i].key)
    ensures Segments([""] + Raws(segs))[1..] == segs
  {
    var ps := [""] + Raws(segs);
    var parsed := Segments(ps);
    forall i | 0 <= i < |segs|
      ensures parsed[i + 1] == segs[i]
    {
      assert ps[i + 1] == Raws(segs)[i];
      ParseRaw(segs[i]);
    }
    assert parsed[1..] == segs;
  }

  /** A pattern whose first key is unrelated to every key at the top level of `n` goes in
      beside them without conflict. */
  lemma {:induction false} FreshHeadIsCompatible<V>(n: Node<V>, segs: seq<Segment>)
    requires segs != [] && forall k <- ChainKeys(n) :: Unrelated(k, segs[0].key)
    ensures Compatible(n, segs)
    decreases n
  {
    if n.Node? {
      FreshHeadIsCompatible(n.brother, segs);
    }
  }

  /** Splitting the pattern text gives chunk 0 and then the segments, as written. */
  lemma PatternChunks(segs: seq<Segment>, delimiter: string)
    requires |delimiter| > 0 && |segs| > 0 && Writable(segs, delimiter)
    ensures var chunks := Split(Pattern(segs, delimiter), delimiter);
            |chunks| == |segs| + 1 && Segments(chunks)[1..] == segs
  {
    PatternPieces(segs, delimiter);
    ParseRaws(segs);
  }

  /** Round trip: inserting a compatible pattern into a prefix-free trie succeeds, keeps the
      trie prefix-free, and a lookup of any instance of the pattern then returns the
      inserted value with the parameters recovering the instance's value tokens. */
  lemma InsertThenFind<V>(n: Node<V>, segs: seq<Segment>, tokens: seq<string>, delimiter: string, value: V)
    requires |delimiter| > 0 && |segs| > 0
    requires Writable(segs, delimiter) && ProperInstance(segs, tokens, delimiter)
    requires Routable(n) && Compatible(n, segs)
    ensures var r := InsertAt(n, Split(Pattern(segs, delimiter), delimiter), 1, value);
            r.Success? && Routable(r.value) && Routes(r.value, segs, value) &&
            var path := Subject(segs, tokens, delimiter);
            var found := FindFrom(r.value, path, delimiter, |delimiter|);
            found.value == Some(value) && Recovers(path, found.params, Bindings(segs, tokens))
  {
    var chunks := Split(Pattern(segs, delimiter), delimiter);
    PatternChunks(segs, delimiter);
    CompatibleInsertSucceeds(n, chunks, 1, value);
    InsertKeepsRoutable(n, chunks, 1, value);
    InsertCreatesRoute(n, chunks, 1, value);
    var t := InsertAt(n, chunks, 1, value).value;
    var path := Subject(segs, tokens, delimiter);
    assert path[0..] == path;
    FindFollowsRoute(t, segs, tokens, delimiter, path, 0, value);
  }

  /** A later compatible insert keeps every earlier pattern reachable: `find` on an
      instance of an earlier pattern still returns its value and recovers its value
      tokens. */
  lemma FindSurvivesInsert<V>(n: Node<V>, segs: seq<Segment>, tokens: seq<string>, delimiter: string, v: V,
                              pattern: seq<Segment>, value: V)
    requires |delimiter| > 0 && |pattern| > 0 && Writable(pattern, delimiter)
    requires Routable(n) && Compatible(n, pattern)
    requires Routes(n, segs, v) && ProperInstance(segs, tokens, delimiter)
    ensures var r := InsertAt(n, Split(Pattern(pattern, delimiter), delimiter), 1, value);
            r.Success? && Routable(r.value) && Routes(r.value, segs, v) &&
            var path := Subject(segs, tokens, delimiter);
            var found := FindFrom(r.value, path, delimiter, |delimiter|);
            found.value == Some(v) && Recovers(path, found.params, Bindings(segs, tokens))
  {
    var chunks := Split(Pattern(pattern, delimiter), delimiter);
    PatternChunks(pattern, delimiter);
    CompatibleInsertSucceeds(n, chunks, 1, value);
    InsertKeepsRoutable(n, chunks, 1, value);
    RouteSurvivesInsert(n, segs, v, chunks, 1, value);
    var t := InsertAt(n, chunks, 1, value).value;
    var path := Subject(segs, tokens, delimiter);
    assert path[0..] == path;
    FindFollowsRoute(t, segs, tokens, delimiter, path, 0, v);
  }
}
