/** Concrete situations from the tree's behaviour and its unit tests, stated over the
    recursive `insert` and `find`. */
module Scenarios {
  import opened Wrappers
  import opened Scanner
  import opened Splitting
  import opened Trie
  import opened Routing

  /** How the chunks used below are classified. */
  lemma ChunkKinds()
    ensures ParseChunk("div") == Segment("div", false)
    ensures ParseChunk("first") == Segment("first", false)
    ensures ParseChunk("second") == Segment("second", false)
    ensures ParseChunk("{first}") == Segment("first", true)
    ensures ParseChunk("{second}") == Segment("second", true)
  {
    ParseRaw(Segment("first", true));
    ParseRaw(Segment("second", true));
    assert Raw(Segment("first", true)) == "{first}";
    assert Raw(Segment("second", true)) == "{second}";
  }

  /** Pieces free of `/`, the last not empty, are what `split` returns for the text they
      are joined into. */
  lemma SlashPieces(ps: seq<string>)
    requires |ps| >= 1 && ps[|ps| - 1] != "" && forall k :: 0 <= k < |ps| ==> '/' !in ps[k]
    ensures Split(Join(ps, "/"), "/") == ps
  {
    forall k | 0 <= k < |ps|
      ensures Separable(ps[k], "/")
    {
    }
    AllSeparableEach(ps, "/");
    SplitOfJoin(ps, "/");
  }

  /** Four pieces joined by `d`, written out. */
  lemma JoinOfFour(a: string, b: string, c: string, e: string, d: string)
    ensures Join([a, b, c, e], d) == a + d + (b + d + (c + d + e))
  {
    assert Join([c, e], d) == c + d + e by {
      assert [c, e][1..] == [e];
    }
    assert Join([b, c, e], d) == b + d + (c + d + e) by {
      assert [b, c, e][1..] == [c, e];
    }
    assert [a, b, c, e][1..] == [b, c, e];
  }

  /** The chunks `split` returns for `/div/{first}/{second}`. */
  lemma DivWithParametersSplit()
    ensures Split("/div/{first}/{second}", "/") == ["", "div", "{first}", "{second}"]
  {
    JoinOfFour("", "div", "{first}", "{second}", "/");
    assert "" + "/" + ("div" + "/" + ("{first}" + "/" + "{second}")) == "/div/{first}/{second}";
    SlashPieces(["", "div", "{first}", "{second}"]);
  }

  /** The chunks `split` returns for `/div/first/second`. */
  lemma DivLiteralSplit()
    ensures Split("/div/first/second", "/") == ["", "div", "first", "second"]
  {
    JoinOfFour("", "div", "first", "second", "/");
    assert "" + "/" + ("div" + "/" + ("first" + "/" + "second")) == "/div/first/second";
    SlashPieces(["", "div", "first", "second"]);
  }

  /** The chunks `split` returns for `/div`. */
  lemma DivAloneSplit()
    ensures Split("/div", "/") == ["", "div"]
  {
    var ps := ["", "div"];
    assert Join(ps[1..], "/") == "div";
    assert Join(ps, "/") == "/div";
    SlashPieces(ps);
  }

  /** The tests' insertion loop: each pattern, already split, goes in with its value from
      chunk 1 on. A rejected pattern leaves the tree as it was, since `insert` throws
      before it changes a node. */
  function InsertEach<V>(n: Node<V>, patterns: seq<(seq<string>, V)>): Node<V>
    decreases |patterns|
  {
    if patterns == [] then n
    else
      var r := InsertAt(n, patterns[0].0, 1, patterns[0].1);
      InsertEach(if r.Success? then r.value else n, patterns[1..])
  }

  /** Every tree the loop builds extends the tree it started from. */
  lemma {:induction false} InsertEachExtends<V>(n: Node<V>, patterns: seq<(seq<string>, V)>)
    ensures Extends(n, InsertEach(n, patterns))
    decreases |patterns|
  {
    ExtendsReflexive(n);
    if patterns != [] {
      var r := InsertAt(n, patterns[0].0, 1, patterns[0].1);
      var t := if r.Success? then r.value else n;
      if r.Success? {
        InsertExtends(n, patterns[0].0, 1, patterns[0].1);
      }
      InsertEachExtends(t, patterns[1..]);
      ExtendsTransitive(n, t, InsertEach(t, patterns[1..]));
    }
  }

  /** Once `/div/{first}/{second}` is in the tree, `/div/first/second` is rejected, however
      many patterns were inserted in between (the tests insert `/mul`, `/sub` and `/sum`
      after it): keys are compared without their braces. The chunk lists are what `split`
      returns for the two patterns (`DivWithParametersSplit`, `DivLiteralSplit`). */
  lemma LiteralCollidesWithParameter<V>(n: Node<V>, v: V, later: seq<(seq<string>, V)>, other: V)
    requires InsertAt(n, ["", "div", "{first}", "{second}"], 1, v).Success?
    ensures InsertAt(InsertEach(InsertAt(n, ["", "div", "{first}", "{second}"], 1, v).value, later),
                     ["", "div", "first", "second"], 1, other).Failure?
  {
    var chunks, clash := ["", "div", "{first}", "{second}"], ["", "div", "first", "second"];
    forall j | 1 <= j < |clash|
      ensures ParseChunk(clash[j]).key == ParseChunk(chunks[j]).key
    {
      ChunkKinds();
    }
    var t := InsertAt(n, chunks, 1, v).value;
    OverlapIsRejected(n, chunks, 1, v, clash, other);
    InsertEachExtends(t, later);
    RejectionSurvivesExtension(t, InsertEach(t, later), clash, 1, other);
  }

  /** Once `/div/{first}/{second}` is in the tree, `/div` is rejected, again whatever was
      inserted in between: it ends on the existing `div` node. The chunk lists are what
      `split` returns (`DivWithParametersSplit`, `DivAloneSplit`). */
  lemma PrefixIsRejected<V>(n: Node<V>, v: V, later: seq<(seq<string>, V)>, other: V)
    requires InsertAt(n, ["", "div", "{first}", "{second}"], 1, v).Success?
    ensures InsertAt(InsertEach(InsertAt(n, ["", "div", "{first}", "{second}"], 1, v).value, later),
                     ["", "div"], 1, other).Failure?
  {
    var t := InsertAt(n, ["", "div", "{first}", "{second}"], 1, v).value;
    OverlapIsRejected(n, ["", "div", "{first}", "{second}"], 1, v, ["", "div"], other);
    InsertEachExtends(t, later);
    RejectionSurvivesExtension(t, InsertEach(t, later), ["", "div"], 1, other);
  }


  /** A pattern in which the delimiter `ABC` never occurs splits into chunk 0 alone, so it
      has no segment: it leaves an empty tree empty and is rejected by any other. */
  lemma PatternWithoutDelimiter<V>(n: Node<V>, v: V)
    ensures var r := InsertAt(n, Split("/sum/first/second", "ABC"), 1, v);
            if n == Nil then r == Success(Nil) else r == Failure(RouteOverlap)
  {
    var s := "/sum/first/second";
    assert NextCut(s, "ABC", 0) == |s| by {
      forall k | 0 <= k < |s|
        ensures s[k] != 'A'
      {
      }
      NoFirstCharNoOccurrence(s, "ABC", 0, |s|);
      NextCutAt(s, "ABC", 0, |s|);
    }
    assert s[0..] == s;
  }

  /** `/ab/c` then `/a`: both inserts succeed and `a` is stored, but `find("/a")` returns
      nothing. The key `ab`, cut off by the end of the path, matches; the search commits
      to its child and never comes back to the sibling `a`. Each chunk list joined by `/`
      gives its pattern, so it is what `split` returns (`SlashPieces`). */
  lemma NoBacktracking()
    ensures var t := InsertAt(InsertAt(Nil, ["", "ab", "c"], 1, 1).value, ["", "a"], 1, 2);
            t.Success? && Lookup(t.value, [Segment("a", false)]) == Some(2) &&
            FindFrom(t.value, "/a", "/", 1) == Found(None, [])
  {
  }

  /** A parameter captured on a branch that fails further down stays in the result
      (`/{x}/y` split on `/`, as `SlashPieces` gives). */
  lemma ParametersStayOnFailure()
    ensures var t := InsertAt(Nil, ["", "{x}", "y"], 1, 1).value;
            FindFrom(t, "/x/v/z", "/", 1) == Found(None, [Parameter("x", 3, 1)])
  {
    var path := "/x/v/z";
    var leaf := Node("y", false, Some(1), Nil, Nil);
    assert ParseChunk("{x}") == Segment("x", true) by {
      assert "{x}"[1..2] == "x";
    }
    assert InsertAt(Nil, ["", "{x}", "y"], 1, 1).value == Node("x", true, None, leaf, Nil);
    assert Matches("x", path, "/", 1);
    assert NextDelimiter(path, "/", 3) == 4;
    assert !Matches("y", path, "/", 5);
    assert FindFrom(leaf, path, "/", 5) == Found(None, []);
  }

  /** `ABC` cannot overlap itself. */
  lemma AbcIsUnbordered()
    ensures Unbordered("ABC")
  {
    assert "ABC"[1..] != "ABC"[..2] by {
      assert "ABC"[1..][0] == 'B';
    }
    assert "ABC"[2..] != "ABC"[..1] by {
      assert "ABC"[2..][0] == 'C';
    }
  }

  /** A text in which the delimiter's first character is never followed by its second
      holds no occurrence of the delimiter. */
  lemma SecondCharBreaks(p: string, d: string)
    requires |d| >= 2
    requires forall k :: 0 <= k < |p| - 1 && p[k] == d[0] ==> p[k + 1] != d[1]
    ensures FreeOf(p, d)
  {
    forall k | 0 <= k < |p|
      ensures !OccursAt(p, d, k)
    {
      if k + |d| <= |p| {
        assert p[k..k + |d|][0] == p[k] && p[k..k + |d|][1] == p[k + 1];
      }
    }
  }

  /** The addend pattern of the unit tests, written with the delimiter `ABC`: its keys hold
      the delimiter's first character, yet it splits back into its segments. */
  lemma AddendPatternIsWritable()
    ensures Writable([Segment("sum", false), Segment("firstAddend", true), Segment("secondAddend", true)], "ABC")
  {
    AbcIsUnbordered();
    assert Raw(Segment("firstAddend", true)) == "{firstAddend}";
    assert Raw(Segment("secondAddend", true)) == "{secondAddend}";
    SecondCharBreaks("{firstAddend}", "ABC");
    SecondCharBreaks("{secondAddend}", "ABC");
  }

  /** The four patterns of the addend test and the value tokens of its subject. */
  const AddendSegments := [Segment("sum", false), Segment("firstAddend", true), Segment("secondAddend", true)]
  const SubSegments := [Segment("sub", false), Segment("first", false), Segment("second", false)]
  const MulSegments := [Segment("mul", false), Segment("first", true), Segment("second", true)]
  const DivSegments := [Segment("div", false), Segment("first", false), Segment("second", false)]
  const AddendTokens := ["", "42", "24"]

  /** `insert` of a pattern written with the delimiter `ABC`. */
  function InsertWithAbc<V>(t: Node<V>, pattern: seq<Segment>, value: V): Result<Node<V>, Error> {
    InsertAt(t, Split(Pattern(pattern, "ABC"), "ABC"), 1, value)
  }

  /** The subject's value tokens are proper and bind `firstAddend = 42` and
      `secondAddend = 24`. */
  lemma AddendSubject()
    ensures ProperInstance(AddendSegments, AddendTokens, "ABC")
    ensures Bindings(AddendSegments, AddendTokens) == [Binding("firstAddend", "42"), Binding("secondAddend", "24")]
  {
    var segs, tokens := AddendSegments, AddendTokens;
    assert segs[1..] == [Segment("firstAddend", true), Segment("secondAddend", true)];
    assert segs[2..] == segs[1..][1..] == [Segment("secondAddend", true)];
    assert tokens[1..] == ["42", "24"] && tokens[2..] == tokens[1..][1..] == ["24"];
  }

  /** The addend subject is the path of the test,
      `ABCsumABCfirstAddendABC42ABCsecondAddendABC24`. */
  lemma AddendPath()
    ensures Subject(AddendSegments, AddendTokens, "ABC") ==
            "ABC" + "sum" + "ABC" + "firstAddend" + "ABC" + "42" + "ABC" + "secondAddend" + "ABC" + "24"
  {
    var segs, tokens := AddendSegments, AddendTokens;
    assert segs[1..] == [Segment("firstAddend", true), Segment("secondAddend", true)];
    assert segs[1..][1..] == [Segment("secondAddend", true)];
    assert tokens[1..] == ["42", "24"] && tokens[1..][1..] == ["24"];
    assert segs[1..][1..][1..] == [] && tokens[1..][1..][1..] == [];
    var last := Subject(segs[1..][1..], tokens[1..][1..], "ABC");
    assert last == SegmentText(Segment("secondAddend", true), "24", "ABC") + Subject([], [], "ABC");
    assert last == "ABC" + "secondAddend" + "ABC" + "24";
    var middle := Subject(segs[1..], tokens[1..], "ABC");
    assert middle == SegmentText(Segment("firstAddend", true), "42", "ABC") + last;
    assert middle == "ABC" + "firstAddend" + "ABC" + "42" + last;
    assert SegmentText(Segment("sum", false), "", "ABC") == "ABC" + "sum";
    assert Subject(segs, tokens, "ABC") == "ABC" + "sum" + middle;
  }

  /** `find` on the addend subject returns `v`, with `firstAddend = 42` and
      `secondAddend = 24`. */
  ghost predicate FindsAddends<V>(t: Node<V>, v: V) {
    var path := Subject(AddendSegments, AddendTokens, "ABC");
    var found := FindFrom(t, path, "ABC", 3);
    found.value == Some(v) &&
    Recovers(path, found.params, [Binding("firstAddend", "42"), Binding("secondAddend", "24")])
  }

  /** A three-segment pattern whose written segments hold no `A` can be written with `ABC`. */
  lemma WritableWithoutA(a: Segment, b: Segment, c: Segment)
    requires forall seg <- [a, b, c] :: seg.key != "" && (seg.isParam || !BraceWrapped(seg.key)) && 'A' !in Raw(seg)
    ensures Writable([a, b, c], "ABC")
  {
  }

  /** The other three patterns of the test hold no `A`. */
  lemma OtherPatternsAreWritable()
    ensures Writable(SubSegments, "ABC") && Writable(MulSegments, "ABC") && Writable(DivSegments, "ABC")
  {
    assert Raw(Segment("first", true)) == "{first}";
    assert Raw(Segment("second", true)) == "{second}";
    WritableWithoutA(Segment("sub", false), Segment("first", false), Segment("second", false));
    WritableWithoutA(Segment("mul", false), Segment("first", true), Segment("second", true));
    WritableWithoutA(Segment("div", false), Segment("first", false), Segment("second", false));
  }


  /** The tree during the test: prefix-free, holding the addend route, with `keys` at the
      top level. */
  ghost predicate HoldsAddend<V>(t: Node<V>, sum: V, keys: set<string>) {
    Routable(t) && Routes(t, AddendSegments, sum) && ChainKeys(t) == keys
  }

  /** A pattern whose first key is new at the top level of `t` goes in beside the keys
      there, and the tree stays prefix-free. */
  lemma FreshPatternGoesIn<V>(t: Node<V>, pattern: seq<Segment>, key: string, value: V)
    requires Routable(t) && pattern != [] && pattern[0].key == key && Writable(pattern, "ABC")
    requires forall k <- ChainKeys(t) :: Unrelated(k, key)
    ensures var r := InsertWithAbc(t, pattern, value);
            r.Success? && Routable(r.value) && ChainKeys(r.value) == ChainKeys(t) + {key}
  {
    var chunks := Split(Pattern(pattern, "ABC"), "ABC");
    PatternChunks(pattern, "ABC");
    assert ParseChunk(chunks[1]) == Segments(chunks)[1..][0];
    FreshHeadIsCompatible(t, pattern);
    CompatibleInsertSucceeds(t, chunks, 1, value);
    InsertKeepsRoutable(t, chunks, 1, value);
  }

  /** The first insert of the test puts the addend pattern into the empty tree. */
  lemma AddendGoesIn<V>(sum: V)
    ensures var r := InsertWithAbc(Nil, AddendSegments, sum);
            r.Success? && HoldsAddend(r.value, sum, {"sum"})
  {
    var chunks := Split(Pattern(AddendSegments, "ABC"), "ABC");
    AddendPatternIsWritable();
    PatternChunks(AddendSegments, "ABC");
    FreshPatternGoesIn(Nil, AddendSegments, "sum", sum);
    InsertCreatesRoute(Nil, chunks, 1, sum);
  }

  /** A later insert of the test: a pattern with a new first key keeps the addend route. */
  lemma AddendSurvives<V>(t: Node<V>, sum: V, keys: set<string>, pattern: seq<Segment>, key: string, value: V)
    requires HoldsAddend(t, sum, keys)
    requires pattern != [] && pattern[0].key == key && Writable(pattern, "ABC")
    requires forall k <- keys :: Unrelated(k, key)
    ensures var r := InsertWithAbc(t, pattern, value);
            r.Success? && HoldsAddend(r.value, sum, keys + {key})
  {
    FreshPatternGoesIn(t, pattern, key, value);
    RouteSurvivesInsert(t, AddendSegments, sum, Split(Pattern(pattern, "ABC"), "ABC"), 1, value);
  }

  /** Wherever the addend route is stored in a prefix-free tree, `find` follows it. */
  lemma AddendFound<V>(t: Node<V>, sum: V, keys: set<string>)
    requires HoldsAddend(t, sum, keys)
    ensures FindsAddends(t, sum)
  {
    AddendSubject();
    var path := Subject(AddendSegments, AddendTokens, "ABC");
    assert path[0..] == path;
    FindFollowsRoute(t, AddendSegments, AddendTokens, "ABC", path, 0, sum);
  }

  /** Keys that differ at a position both have are not prefixes of each other. */
  lemma DifferentKeys(a: string, b: string, i: nat)
    requires i < |a| && i < |b| && a[i] != b[i]
    ensures Unrelated(a, b)
  {
  }

  /** Each first key of the test is new beside the ones inserted before it. */
  lemma TestKeysAreUnrelated()
    ensures forall k <- {"sum"} :: Unrelated(k, "sub")
    ensures forall k <- {"sum"} + {"sub"} :: Unrelated(k, "mul")
    ensures forall k <- {"sum"} + {"sub"} + {"mul"} :: Unrelated(k, "div")
  {
    DifferentKeys("sum", "sub", 2);
    DifferentKeys("sum", "mul", 0);
    DifferentKeys("sub", "mul", 0);
    DifferentKeys("sum", "div", 0);
    DifferentKeys("sub", "div", 0);
    DifferentKeys("mul", "div", 0);
  }

  /** The addend test with the delimiter `ABC`: `/sum/{firstAddend}/{secondAddend}`,
      `/sub/first/second`, `/mul/{first}/{second}` and `/div/first/second`, written with
      `ABC`, are inserted in that order into an empty tree; all four are accepted, and
      `find` on the addend subject returns the first value, with `firstAddend = 42` and
      `secondAddend = 24`. */
  lemma AddendsWithLongDelimiter<V>(sum: V, sub: V, mul: V, div: V)
    ensures var t1 := InsertWithAbc(Nil, AddendSegments, sum);
            t1.Success? &&
            var t2 := InsertWithAbc(t1.value, SubSegments, sub);
            t2.Success? &&
            var t3 := InsertWithAbc(t2.value, MulSegments, mul);
            t3.Success? &&
            var t4 := InsertWithAbc(t3.value, DivSegments, div);
            t4.Success? && FindsAddends(t4.value, sum)
  {
    OtherPatternsAreWritable();
    TestKeysAreUnrelated();
    AddendGoesIn(sum);
    var t1 := InsertWithAbc(Nil, AddendSegments, sum).value;
    AddendSurvives(t1, sum, {"sum"}, SubSegments, "sub", sub);
    var t2 := InsertWithAbc(t1, SubSegments, sub).value;
    AddendSurvives(t2, sum, {"sum"} + {"sub"}, MulSegments, "mul", mul);
    var t3 := InsertWithAbc(t2, MulSegments, mul).value;
    AddendSurvives(t3, sum, {"sum"} + {"sub"} + {"mul"}, DivSegments, "div", div);
    AddendFound(InsertWithAbc(t3, DivSegments, div).value, sum, {"sum"} + {"sub"} + {"mul"} + {"div"});
  }
}
