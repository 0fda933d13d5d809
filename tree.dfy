/** `SimpleParametrizedPrefixTree` itself: an object holding the root of the trie, which
    `insert` reassigns, and the delimiter fixed at construction. `find` walks the trie with
    the loop helpers and appends the parameters it captures to a list owned by the caller. */
module PrefixTree {
  import opened Wrappers
  import opened Scanner
  import opened Splitting
  import opened Trie

  /** The caller's `List<Parameter>`, which `find` appends to and never clears. */
  class ParamList {
    var items: seq<Parameter>

    constructor ()
      ensures items == []
    {
      items := [];
    }
  }

  /** `match`, with the short-circuit `&&` of the two `areEqual` calls. */
  method Match(key: string, path: string, delimiter: string, start: nat) returns (matched: bool)
    ensures matched == Matches(key, path, delimiter, start)
  {
    matched := AreEqual(key, path, start);
    if matched {
      matched := AreEqual(delimiter, path, start + |key|);
    }
  }

  /** The private recursive `find`, as Java runs it: it reads the trie only and appends
      each captured parameter to `pathParams` as soon as it is taken, so the parameters of
      a branch that later fails stay in the list. */
  method FindNode<V>(n: Node<V>, path: string, delimiter: string, start: nat, pathParams: ParamList)
    returns (v: Option<V>)
    requires |delimiter| > 0
    modifies pathParams
    ensures v == FindFrom(n, path, delimiter, start).value
    ensures pathParams.items == old(pathParams.items) + FindFrom(n, path, delimiter, start).params
    decreases n
  {
    if n == Nil || start >= |path| {
      return None;
    }
    var matched := Match(n.key, path, delimiter, start);
    if !matched {
      assert FindFrom(n, path, delimiter, start) == FindFrom(n.brother, path, delimiter, start);
      v := FindNode(n.brother, path, delimiter, start, pathParams);
      return;
    }
    var next: nat;
    if n.isParam {
      next := start + |n.key| + |delimiter|;
      if next >= |path| {
        return None;
      }
      var end := FindNextDelimiterStartIndex(path, delimiter, next);
      var length := end - next;
      pathParams.items := pathParams.items + [Parameter(n.key, next, length)];
      next := next + length + |delimiter|;
    } else {
      next := start + |n.key| + |delimiter|;
    }
    if n.value.Some? && next >= |path| {
      return n.value;
    }
    v := FindNode(n.child, path, delimiter, next, pathParams);
  }

  class SimpleParametrizedPrefixTree<V> {
    var root: Node<V>
    const delimiter: string

    ghost predicate Valid()
      reads this
    {
      |delimiter| > 0 && WellFormed(root)
    }

    constructor (delimiter: string)
      requires |delimiter| > 0
      ensures Valid() && this.delimiter == delimiter && root == Nil
    {
      this.delimiter := delimiter;
      root := Nil;
    }

    /** `find(path, pathParams)`: starts after the first delimiter length of the path. */
    method Find(path: string, pathParams: ParamList) returns (v: Option<V>)
      requires Valid()
      modifies pathParams
      ensures v == FindFrom(root, path, delimiter, |delimiter|).value
      ensures pathParams.items == old(pathParams.items) + FindFrom(root, path, delimiter, |delimiter|).params
      ensures Sound(root, path, delimiter, |delimiter|, Found(v, pathParams.items[|old(pathParams.items)|..]))
    {
      FindResultIsSound(root, path, delimiter, |delimiter|);
      v := FindNode(root, path, delimiter, |delimiter|, pathParams);
      assert pathParams.items[|old(pathParams.items)|..] == FindFrom(root, path, delimiter, |delimiter|).params;
    }

    /** `insert(path, value)`: splits the pattern, skips chunk 0 and reassigns the root.
        On an overlap it fails and the trie is left as it was. */
    method Insert(path: string, value: V) returns (outcome: Outcome<Error>)
      requires Valid()
      modifies this
      ensures Valid()
      ensures match InsertAt(old(root), Split(path, delimiter), 1, value)
              case Success(t) => outcome == Pass && root == t
              case Failure(e) => outcome == Fail(e) && root == old(root)
      ensures outcome.Pass? ==> Extends(old(root), root)
      ensures outcome.Pass? && |Split(path, delimiter)| > 1 ==>
                Values(root) == Values(old(root)) + multiset{value} &&
                Lookup(root, Segments(Split(path, delimiter))[1..]) == Some(value)
      ensures outcome.Pass? && |Split(path, delimiter)| <= 1 ==> old(root) == Nil && root == Nil
    {
      var chunks := Split(path, delimiter);
      var r := InsertAt(root, chunks, 1, value);
      match r
      case Success(t) =>
        InsertKeepsWellFormed(root, chunks, 1, value);
        InsertExtends(root, chunks, 1, value);
        if |chunks| > 1 {
          InsertAddsOneValue(root, chunks, 1, value);
          InsertThenLookup(root, chunks, 1, value);
        }
        root := t;
        outcome := Pass;
      case Failure(e) =>
        outcome := Fail(e);
    }
  }
}
