# SimpleParametrizedPrefixTree, modelled in Dafny

`SimpleParametrizedPrefixTree<V>` (package `fir.needle.joint.colleclions`) is a URL router. A pattern
such as `/sum/{first}/{second}` is cut at a delimiter chosen at construction (`/`, or a longer string
such as `ABC`). Its chunks are stored in a first-child/next-sibling trie. A chunk written `{name}` is a
parameter node and stored without its braces. `find(path, pathParams)` walks the trie along a concrete
path. For every parameter node it matches, it appends a `Parameter(name, startIndex, length)` view of
the path to the caller's list. It returns the stored value, or null when nothing is found. `insert`
throws `IllegalStateException` in two cases. The first is when the new pattern's key path ends on a
node that already exists, whether that node is a leaf or lies inside a longer pattern. The second is
when the pattern has no segment after chunk 0 (for example `/`) and the tree is not empty.

The project has these modules:

- `Wrappers` (wrappers.dfy): `Option`, `Result` and `Outcome`.
- `Scanner` (scanner.dfy): the two character loops, `areEqual` and `findNextDelimiterStartIndex`. Each
  is a method proved against a recursive reference definition (`Agree`, `ScanFrom`/`NextDelimiter`).
- `Splitting` (splitting.dfy): `String.split` as `insert` uses it, with its inverse `Join`.
- `Trie` (trie.dfy): the node datatype, the private recursive `insert` as the function `InsertAt`
  returning `Result`, and the private recursive `find` as the function `FindFrom`. It also holds what is
  proved about each of them on its own.
- `PrefixTree` (tree.dfy): the tree object. It is a class whose `insert` reassigns `root`, whose `find`
  runs the recursive method `FindNode`, and whose parameter list is a class whose `items` grow.
- `Routing` (routing.dfy): the round trip between `insert` and `find`.
- `Scenarios` (scenarios.dfy): concrete situations taken from the unit tests.

The model keeps the code's behaviour where it departs from what a reader would expect:

- `areEqual` stops comparing at the end of the path. A key cut off by the end of the path therefore
  still matches, and a delimiter that falls past the end always matches.
- After a mismatch, `findNextDelimiterStartIndex` resets its count without testing the current
  character as the start of a new occurrence. With a delimiter longer than one character it misses
  `AB` in `AAB` and `ABC` in `AABC`.
- `insert` compares keys without regard to the parameter flag, so `first` and `{first}` collide.
- `find` commits to the child of the first sibling that matches and never comes back to try a later
  sibling.
- Parameters appended on a branch that later fails stay in the caller's list.
- A leaf can gain a child later: a longer pattern inserted after a shorter one is accepted, and the
  leaf keeps its value (`Trie.LongerPatternExtendsLeaf`).

## Model

| member | source | states |
|---|---|---|
| Scanner.AreEqual | src/main/java/fir/needle/joint/colleclions/SimpleParametrizedPrefixTree.java:50-58 | the loop answers true exactly when `first` agrees with `second` from `shift` on, as far as `second` goes |
| Scanner.AgreePointwise | src/main/java/fir/needle/joint/colleclions/SimpleParametrizedPrefixTree.java:51-55 | agreement holds iff every character of `first` equals the character `shift` places later in `second`, wherever both exist |
| Scanner.AgreeWithinBounds | src/main/java/fir/needle/joint/colleclions/SimpleParametrizedPrefixTree.java:50-58 | when `first` fits inside `second` from `shift`, agreement is equality with that window |
| Scanner.FindNextDelimiterStartIndex | src/main/java/fir/needle/joint/colleclions/SimpleParametrizedPrefixTree.java:60-74 | the loop returns the index the reference scan `NextDelimiter` defines |
| Scanner.NextDelimiterIsOccurrence | src/main/java/fir/needle/joint/colleclions/SimpleParametrizedPrefixTree.java:60-74 | an index below the path length that the scan returns is the start of a real delimiter occurrence |
| Scanner.ScanStopsAtOccurrence | src/main/java/fir/needle/joint/colleclions/SimpleParametrizedPrefixTree.java:62-70 | started from a genuine partial match, the scan stops only at a real occurrence or at the end of the path |
| Scanner.OccurrenceAtStart | src/main/java/fir/needle/joint/colleclions/SimpleParametrizedPrefixTree.java:60-74 | an occurrence that begins right at the start index is returned |
| Scanner.ScanSkipsToken | src/main/java/fir/needle/joint/colleclions/SimpleParametrizedPrefixTree.java:60-74 | a token free of the delimiter's first character, followed by the delimiter or the end, is scanned to its end exactly |
| Scanner.SingleCharacterScan | src/main/java/fir/needle/joint/colleclions/SimpleParametrizedPrefixTree.java:60-74 | with a one-character delimiter the scan returns the first occurrence at or after the start, or the path length |
| Scanner.BrokenPartialMatchIsSkipped | src/main/java/fir/needle/joint/colleclions/SimpleParametrizedPrefixTree.java:63-66 | the reset after a mismatch misses `AB` in `AAB` and `ABC` in `AABC` |
| PrefixTree.Match | src/main/java/fir/needle/joint/colleclions/SimpleParametrizedPrefixTree.java:44-48 | the result is `Matches`: the key agrees at the offset and the delimiter agrees right after it |
| Trie.MatchesWithinBounds | src/main/java/fir/needle/joint/colleclions/SimpleParametrizedPrefixTree.java:44-48 | inside the path, a match is exactly the key followed by the delimiter |
| Trie.MatchesCutOff | src/main/java/fir/needle/joint/colleclions/SimpleParametrizedPrefixTree.java:44-58 | at the end of the path, a key matches iff the rest of the path is a prefix of it |
| Trie.ParseChunk | src/main/java/fir/needle/joint/colleclions/SimpleParametrizedPrefixTree.java:121-123 | a chunk is a parameter iff it is wrapped in braces, and writing the segment back gives the chunk |
| Trie.ParseRaw | src/main/java/fir/needle/joint/colleclions/SimpleParametrizedPrefixTree.java:121-123 | classifying a written segment gives it back, unless a literal key itself looks like `{name}` |
| Trie.InsertAt | src/main/java/fir/needle/joint/colleclions/SimpleParametrizedPrefixTree.java:112-145 | an empty subtree never rejects, and a successful insert leaves an empty subtree exactly when no segment is left |
| Trie.InsertFailsIffEndsOnNode | src/main/java/fir/needle/joint/colleclions/SimpleParametrizedPrefixTree.java:112-129 | `insert` throws exactly when the pattern's key path, braces ignored, ends on an existing node, or when no segment is left and the subtree is not empty |
| Trie.EndsOnNodeExtends | src/main/java/fir/needle/joint/colleclions/SimpleParametrizedPrefixTree.java:125-131 | a key path that ends on a node still ends on one after further inserts |
| Trie.ExtendsTransitive | src/main/java/fir/needle/joint/colleclions/SimpleParametrizedPrefixTree.java:112-145 | a run of successful inserts extends the tree it started from |
| Trie.RejectionSurvivesExtension | src/main/java/fir/needle/joint/colleclions/SimpleParametrizedPrefixTree.java:112-129 | a pattern a tree rejects is rejected by every tree grown from it |
| Trie.InsertExtends | src/main/java/fir/needle/joint/colleclions/SimpleParametrizedPrefixTree.java:112-145 | a successful insert keeps every existing node with its key, kind and value |
| Trie.InsertAddsOneValue | src/main/java/fir/needle/joint/colleclions/SimpleParametrizedPrefixTree.java:137-144 | a successful insert of a pattern with at least one segment adds exactly the inserted value to the stored values |
| Trie.InsertThenLookup | src/main/java/fir/needle/joint/colleclions/SimpleParametrizedPrefixTree.java:112-145 | after a successful insert the inserted key path leads to the inserted value |
| Trie.InsertKeepsWellFormed | src/main/java/fir/needle/joint/colleclions/SimpleParametrizedPrefixTree.java:125-144 | sibling keys stay distinct and every childless node holds a value; the chain gains exactly the first segment's key |
| Trie.OverlapIsRejected | src/main/java/fir/needle/joint/colleclions/SimpleParametrizedPrefixTree.java:113-129 | once a pattern is in, a pattern no longer than it whose keys agree with it, braces ignored, throws |
| Trie.LongerPatternExtendsLeaf | src/main/java/fir/needle/joint/colleclions/SimpleParametrizedPrefixTree.java:125-135 | a pattern continuing past an existing leaf is accepted below it, and the leaf keeps its value |
| Trie.FindConsumesPath | src/main/java/fir/needle/joint/colleclions/SimpleParametrizedPrefixTree.java:76-110 | a returned value sits at the end of a chain of matching nodes that uses up the path (`EndsAt`). Each node on the chain takes its key and, for a parameter, its token up to the next delimiter, plus one delimiter. The last node reaches the end of the path, so a leaf matched short of the end gives nothing (lines 107-108) |
| Trie.FindResultIsSound | src/main/java/fir/needle/joint/colleclions/SimpleParametrizedPrefixTree.java:76-110 | a returned value is stored in the trie; appended parameters are named after parameter nodes, are delimiter-bounded views of the path, and are in left-to-right order |
| PrefixTree.FindNode | src/main/java/fir/needle/joint/colleclions/SimpleParametrizedPrefixTree.java:76-110 | returns what `FindFrom` finds and appends its parameters to the caller's list, keeping what was there |
| PrefixTree.SimpleParametrizedPrefixTree.Find | src/main/java/fir/needle/joint/colleclions/SimpleParametrizedPrefixTree.java:36-38 | the search starts one delimiter length into the path; its result and the appended parameters are sound |
| PrefixTree.SimpleParametrizedPrefixTree.Insert | src/main/java/fir/needle/joint/colleclions/SimpleParametrizedPrefixTree.java:40-42 | on success the root is the grown trie, which gains exactly the value, reachable by the pattern's keys; on overlap nothing changes; the trie stays well formed |
| Splitting.Split | src/main/java/fir/needle/joint/colleclions/SimpleParametrizedPrefixTree.java:41 | trailing empty chunks are dropped: the last chunk is not empty unless it is the only one |
| Splitting.ChunksAreFree | src/main/java/fir/needle/joint/colleclions/SimpleParametrizedPrefixTree.java:41 | no chunk of a split holds an occurrence of the delimiter |
| Splitting.JoinSplit | src/main/java/fir/needle/joint/colleclions/SimpleParametrizedPrefixTree.java:41 | joining the chunks of a split with the delimiter gives the pattern back, unless it ends with the delimiter |
| Splitting.SplitOfJoin | src/main/java/fir/needle/joint/colleclions/SimpleParametrizedPrefixTree.java:41 | splitting text glued from pieces the delimiter cannot cut, the last not empty, gives those pieces. A piece qualifies if it avoids the delimiter's first character, or if it holds no occurrence and the delimiter cannot overlap itself (`Separable`) |
| Routing.PatternChunks | src/main/java/fir/needle/joint/colleclions/SimpleParametrizedPrefixTree.java:41 | a written pattern whose keys are not empty, whose literal keys do not look like `{name}`, and whose written segments the delimiter cannot cut (`Separable`) splits into an empty chunk 0 followed by its segments |
| Routing.CompatibleInsertSucceeds | src/main/java/fir/needle/joint/colleclions/SimpleParametrizedPrefixTree.java:112-145 | a pattern is accepted when it shares only same-kind nodes, never ends on an existing node, and every sibling key it passes is unrelated to its own key: neither is a prefix of the other (`Compatible`). This is sufficient, not necessary; the exact throw condition is `Trie.InsertFailsIffEndsOnNode` |
| Routing.FreshHeadIsCompatible | src/main/java/fir/needle/joint/colleclions/SimpleParametrizedPrefixTree.java:125-135 | a pattern whose first key is unrelated to every top-level key goes in beside them without conflict |
| Routing.InsertKeepsRoutable | src/main/java/fir/needle/joint/colleclions/SimpleParametrizedPrefixTree.java:125-144 | inserting a compatible pattern keeps sibling keys prefix-free |
| Routing.InsertCreatesRoute | src/main/java/fir/needle/joint/colleclions/SimpleParametrizedPrefixTree.java:112-145 | inserting a compatible pattern creates its route to the value, node kinds included |
| Routing.RouteSurvivesInsert | src/main/java/fir/needle/joint/colleclions/SimpleParametrizedPrefixTree.java:125-135 | a later successful insert keeps every earlier route |
| Routing.FindFollowsRoute | src/main/java/fir/needle/joint/colleclions/SimpleParametrizedPrefixTree.java:76-110 | in a prefix-free trie, `find` on an instance of a stored route returns its value and captures exactly the value tokens, with their names, in order. The instance must be proper (`ProperInstance`): every key is not empty, and every value token is not empty and free of the delimiter's first character |
| Routing.InsertThenFind | src/test/java/fir/needle/joint/collections/UrlPrefixTreeTest.java:69-85 | after inserting a compatible pattern, `find` on any instance of it returns the value, and the parameters spell out the instance's value tokens |
| Routing.FindSurvivesInsert | src/test/java/fir/needle/joint/collections/UrlPrefixTreeTest.java:52-66 | after a later compatible insert, `find` on an instance of an earlier pattern still returns its value and its value tokens |
| Scenarios.SlashPieces | src/main/java/fir/needle/joint/colleclions/SimpleParametrizedPrefixTree.java:41 | pieces free of `/`, the last not empty, are exactly what `split` on `/` returns for the text they are joined into |
| Scenarios.DivWithParametersSplit | src/test/java/fir/needle/joint/collections/UrlPrefixTreeTest.java:108 | `split` of `/div/{first}/{second}` on `/` gives the chunks `""`, `div`, `{first}`, `{second}` that the rejection scenarios insert |
| Scenarios.DivLiteralSplit | src/test/java/fir/needle/joint/collections/UrlPrefixTreeTest.java:114 | `split` of `/div/first/second` on `/` gives `""`, `div`, `first`, `second` |
| Scenarios.DivAloneSplit | src/test/java/fir/needle/joint/collections/UrlPrefixTreeTest.java:129 | `split` of `/div` on `/` gives `""`, `div` |
| Scenarios.LiteralCollidesWithParameter | src/test/java/fir/needle/joint/collections/UrlPrefixTreeTest.java:103-115 | after `/div/{first}/{second}` and any later inserts, inserting `/div/first/second` throws |
| Scenarios.PrefixIsRejected | src/test/java/fir/needle/joint/collections/UrlPrefixTreeTest.java:118-130 | after `/div/{first}/{second}` and any later inserts, inserting its prefix `/div` throws |
| Scenarios.InsertEachExtends | src/test/java/fir/needle/joint/collections/UrlPrefixTreeTest.java:110-112 | the tests' insertion loop, where a rejected pattern leaves the tree as it was, only grows the tree |
| Scenarios.PatternWithoutDelimiter | src/test/java/fir/needle/joint/collections/UrlPrefixTreeTest.java:219-232 | with delimiter `ABC`, `/sum/first/second` has no segment: it leaves an empty tree empty and throws on any other |
| Scenarios.AddendPatternIsWritable | src/test/java/fir/needle/joint/collections/UrlPrefixTreeTest.java:199-217 | `/sum/{firstAddend}/{secondAddend}` with the delimiter `ABC` splits back into its segments, though its keys hold `A` |
| Scenarios.AddendPath | src/test/java/fir/needle/joint/collections/UrlPrefixTreeTest.java:206-207 | the subject built from the addend pattern and the tokens `42` and `24` is the test's path `ABCsumABCfirstAddendABC42ABCsecondAddendABC24` |
| Scenarios.AddendsWithLongDelimiter | src/test/java/fir/needle/joint/collections/UrlPrefixTreeTest.java:199-217 | with the delimiter `ABC`, the four patterns of the test are all accepted in the test's order, and `find` on that path then returns the first value, with `firstAddend = 42` and `secondAddend = 24` |
| Scenarios.NoBacktracking | src/main/java/fir/needle/joint/colleclions/SimpleParametrizedPrefixTree.java:86-89 | after `/ab/c` and `/a`, `a` is stored but `find("/a")` returns nothing, because `ab` cut off by the end matches and the search never comes back |
| Scenarios.ParametersStayOnFailure | src/main/java/fir/needle/joint/colleclions/SimpleParametrizedPrefixTree.java:99-100 | a parameter captured on a branch that fails further down stays in the result |

## Left out

- The loggers, the object pool and `LangUtil` are not part of this model. The tree does not use them.
- `String.split` takes a regular expression. The model splits at literal occurrences of the delimiter, so it holds for delimiters without regular-expression metacharacters.
- Java's `null` is `None` for a missing node or value. A null value passed to `insert` is not modelled: it would leave a node that counts as neither leaf nor branch.
- The model requires a non-empty delimiter. With an empty one the Java scan reads `delimiter.charAt(0)` and throws, and `split` behaves differently.
- Nodes are immutable values. Java's in-place `setChild`/`setBrother` are modelled by rebuilding the path. The nodes are private and never shared, so no aliasing is lost. The exception is thrown before any assignment completes.
- `int` indices are unbounded naturals. Overflow for paths longer than 2^31 characters is not modelled.
- Concurrent use of one tree is not modelled. The class is not synchronized.
- The getters of `Node` and `Parameter` are field reads in the datatypes.
- The unit tests' four-pattern insert sequences are not evaluated literally. The rejection scenarios hold after any sequence of later inserts (`Scenarios.InsertEach`). Finding after the inserts is covered by `Routing.InsertThenFind` and `Routing.FindSurvivesInsert`.
- Strings are sequences of Unicode characters. Java's `length` and `charAt`, and the `Parameter` offsets, count UTF-16 code units, so offsets differ for paths with characters outside the Basic Multilingual Plane.
- Routing.InsertThenFind: it is proved only under four conditions. The trie must be prefix-free (`Routable`). Every key must be non-empty. The delimiter must not be able to cut a written segment (`Separable`). Value tokens must be non-empty and must avoid the delimiter's first character. A key holding the first character of a delimiter that overlaps itself is not covered; an example is key `xA` with delimiter `AA`. Outside the token condition `find` can miss, as `Scenarios.NoBacktracking` and `Scanner.BrokenPartialMatchIsSkipped` show.
- Routing.FindSurvivesInsert: it has the same conditions on the inserted pattern, on the trie and on the earlier instance's tokens.
- Routing.PatternChunks: it is not proved for empty keys, nor for keys that the delimiter can cut.
- Routing.CompatibleInsertSucceeds: a pattern whose key is a prefix of a sibling's key, or the reverse, is accepted by `insert` but is not covered. An example is `/a` into a tree holding only `/ab`. Such inserts break `Routable`, and `Scenarios.NoBacktracking` shows `find` missing afterwards. `Trie.InsertFailsIffEndsOnNode` covers every pattern.
- Routing.FindFollowsRoute: instances that are not proper are not covered. With the delimiter `ABC`, a value token ending in `A` hides the delimiter after it. `Scanner.BrokenPartialMatchIsSkipped` shows this on `AABC`: the scan finds no occurrence and stops at the end of the text. Empty keys and empty tokens are also left out.
