# wordmorph in Dafny

A model of the word-ladder solver `wordmorph.py`: morph one word into another
by changing one letter at a time, through words of a dictionary, in as few
steps as possible.

The solver has two parts, and the model follows them:

- **`Graph`** (module `WordGraph`, `graph.dfy`) indexes each word under its
  one-letter wildcard patterns (`cat` under `.at`, `c.t`, `ca.`). It keeps two
  maps: `nodes` from a word to its patterns, and `buckets` from a pattern to
  the words filed under it. `add` normalises a word (`strip().lower()`) and
  files it. `adjacent` returns the union of the buckets of a word's patterns,
  less the word itself. `build_from_words` adds each word in turn. The class
  `WordGraph.Graph` keeps both maps as fields. Its methods are proved against
  value-level specifications on `Index`, the pair of the two maps: `Added`,
  `AddedAll` and `Adjacency`. The properties are proved on those
  specifications: the bucket invariant `Inv`, idempotence, and adjacency
  being exactly "one letter apart".
- **`PathFinder`** (module `PathSearch`, `pathfinder.dfy`) is uniform-cost
  (Dijkstra) search with every edge of weight 1, driven by a priority queue of
  `(distance, word)` tuples. `find` handles blank and equal words, then calls
  `measure`, which fills `distances` and `trail`, and then `build_path`, which
  walks `trail` back from `end` and reverses the walk. The class
  `PathSearch.PathFinder` is proved against `Solves`. `Solves` holds when:
  - the answer is no path and no ladder of adjacent words joins the two
    words; or
  - the answer is a ladder from start to end whose step count is the
    distance, and no ladder is shorter.

`text.dfy` (module `Text`) holds Python 2's `str.strip()`, `str.lower()` and
string order on ASCII bytes. `wrappers.dfy` holds `Option`, `Result` and the
`KeyError` the source raises.

## Model

| member | source | states |
|---|---|---|
| Text.Strip | wordmorph.py:55 | the result is the slice `s[i..j]` of the input, and everything cut off at either end is whitespace; it is empty exactly when the input is all whitespace, and otherwise has no whitespace at either end |
| Text.TrimLeft | wordmorph.py:55 | the result is a suffix of the input; everything dropped is whitespace; the result does not start with whitespace |
| Text.TrimRight | wordmorph.py:55 | the result is a prefix of the input; everything dropped is whitespace; the result does not end with whitespace |
| Text.Lower | wordmorph.py:55 | same length; each capital `A`-`Z` becomes the byte 32 above it, its small letter; every other byte unchanged; no capital left |
| Text.Normalize | wordmorph.py:55 | `None` stays `None`; a word becomes `Lower(Strip(word))`, so it is empty exactly when it is all whitespace, and otherwise in normal form: no surrounding whitespace and no capital |
| Text.StripLowerFixed | wordmorph.py:55 | `strip()` and `lower()` leave a string in normal form unchanged |
| Text.NormalizeIdempotent | wordmorph.py:55 | normalising a normalised word changes nothing |
| Text.NormalizeFixes | wordmorph.py:55 | a non-empty word with no whitespace and no capital is its own normal form |
| Text.StrLe | wordmorph.py:185 | Python 2's `<=` on strings holds exactly when the strings are in lexicographic order: `a` is a prefix of `b`, or `a` has the smaller byte at the first position where they differ |
| Text.LexicographicTail | wordmorph.py:185 | strings with the same first byte are in lexicographic order exactly when their rests are |
| Text.LexicographicHead | wordmorph.py:185 | strings whose first bytes differ are in lexicographic order exactly when the first byte of `a` is the smaller |
| Text.SmallerAtAgrees | wordmorph.py:185 | strings that first differ past position 0 agree at position 0 |
| Text.StrLeReflexive | wordmorph.py:185 | the string order that breaks queue ties is reflexive |
| Text.StrLeTotal | wordmorph.py:185 | any two strings are ordered one way or the other |
| Text.StrLeAntisymmetric | wordmorph.py:185 | strings ordered both ways are equal |
| Text.StrLeTransitive | wordmorph.py:185 | the string order is transitive |
| WordGraph.PatternsUpToShape | wordmorph.py:71-75 | after `n` rounds of the loop there are `n` patterns; the `i`-th has the word's length, `'.'` at `i`, and the word's letter everywhere else |
| WordGraph.Patterns | wordmorph.py:66-75 | `patterns(w)` has exactly `len(w)` entries; the `i`-th has `w`'s length, `'.'` at position `i`, and `w`'s letter at every other position (none for the empty word) |
| WordGraph.FiledShape | wordmorph.py:60-64 | filing a word under patterns adds a bucket for each missing pattern; each pattern's bucket gains the word; other buckets are unchanged |
| WordGraph.StoredFrame | wordmorph.py:58-64 | storing a word sets `nodes[w]` to its patterns and adds `w` to each of their buckets, creating missing ones; no other word or bucket changes |
| WordGraph.AddedIgnoresBlank | wordmorph.py:55-57 | adding `None`, `""` or an all-whitespace word leaves both maps unchanged |
| WordGraph.StoredKeepsInv | wordmorph.py:58-64 | storing a non-empty word with non-empty patterns keeps the bucket invariant: a word is in a pattern's bucket exactly when the pattern is among its stored patterns |
| WordGraph.AddedKeepsInv | wordmorph.py:53-64 | `add` keeps the bucket invariant, and keeps every word stored with its own patterns |
| WordGraph.StoredIdempotent | wordmorph.py:58-64 | storing the same word with the same patterns twice gives the same maps as once |
| WordGraph.AddedIdempotent | wordmorph.py:53-64 | adding the same word twice gives the same maps as adding it once |
| WordGraph.AddedAllKeepsInv | wordmorph.py:123-128 | `build_from_words` keeps the bucket invariant, so the lookup `self.buckets[pattern]` never fails for an added word |
| WordGraph.AddedNodes | wordmorph.py:53-59 | `add` makes exactly the normal form of a non-blank input a new key of `nodes` |
| WordGraph.AddedAllNodes | wordmorph.py:123-128 | after `build_from_words`, a word is stored exactly when it was stored before or is the normal form of one of the non-blank inputs |
| WordGraph.SharedIndexKeeps | wordmorph.py:50-51 | a build that starts from the index left by an earlier build keeps all of that build's words |
| WordGraph.SharedIndexLeaks | wordmorph.py:50-51 | as written, a graph built from `b` after one built from `a` holds `a`; a graph with its own index does not |
| WordGraph.SharedIndexLeaksCatDog | wordmorph.py:50-51 | the leak on `cat` then `dog` |
| WordGraph.SharesPatternIffOneApart | wordmorph.py:66-75 | two different words without `'.'` share a pattern exactly when they have one length and differ at exactly one position |
| WordGraph.AdjacencyIsOneApart | wordmorph.py:77-86 | with no `'.'` inside the words, the neighbours of a stored word are exactly the stored words one letter apart from it |
| WordGraph.AdjacencySymmetric | wordmorph.py:77-86 | `b` is adjacent to `a` exactly when `a` is adjacent to `b` |
| WordGraph.BucketUnion | wordmorph.py:80-86 | the union of the buckets of a stored word's patterns contains the word, and without the word is its adjacency |
| WordGraph.Graph.constructor | wordmorph.py:50-51 | a new graph has empty `nodes` and `buckets` and satisfies the invariant |
| WordGraph.Graph.Add | wordmorph.py:53-64 | the new maps are `Added(old maps, word)`; the invariant is kept |
| WordGraph.Graph.File | wordmorph.py:60-64 | the `for pattern in patterns` loop leaves the buckets at `Stored(before, w, patterns)` |
| WordGraph.Graph.Adjacent | wordmorph.py:77-86 | for a stored word, `Ok` of its adjacency: the other stored words sharing a pattern, never the word itself; for a word never added, `KeyError(word)` |
| WordGraph.Graph.BuildFromWords | wordmorph.py:123-128 | a fresh graph whose maps are `AddedAll(empty, words)` and which satisfies the invariant |
| PathSearch.SolvesDistanceUnique | wordmorph.py:159-165 | any two correct answers agree on whether there is a path and on its distance |
| PathSearch.LadderStepsOneApart | wordmorph.py:77-86 | over a graph built by `add` with no `'.'` in the words, each step of a ladder goes to a stored word one letter apart |
| PathSearch.LadderBackwards | wordmorph.py:77-86 | a ladder read backwards is a ladder, from its last word to its first |
| PathSearch.ShortestOneWay | wordmorph.py:77-86 | if `s` reaches `e`, `e` reaches `s`, and a lower bound on ladders from `s` to `e` bounds ladders from `e` to `s` |
| PathSearch.ShortestSymmetric | wordmorph.py:77-86 | reachability and the morph distance are symmetric in the two words |
| PathSearch.Blank | wordmorph.py:166 | Python's falsiness of a word, as `not start or not end` tests it: `None` or the empty string. A definition with no contract; `Find` states what it governs |
| PathSearch.EntryLe | wordmorph.py:180-193 | Python's comparison of `(distance, word)` tuples: by distance, then by `StrLe` on the words. A definition with no contract; `EntryLeTotalOrder` states its properties |
| PathSearch.EntryLeTotalOrder | wordmorph.py:185 | the tuple order on queue entries is reflexive, total, antisymmetric and transitive, so a queue has exactly one least entry |
| PathSearch.PopMin | wordmorph.py:185 | `get()` removes and returns an entry that is least in `(distance, word)` tuple order; the rest is the queue less that one entry |
| PathSearch.NewLeast | wordmorph.py:185 | an entry below the least entry of a prefix of the queue is the least of the prefix extended by it |
| PathSearch.RemovedAt | wordmorph.py:185 | removing one position from the queue removes exactly one copy of its entry and keeps every other entry |
| PathSearch.Reversed | wordmorph.py:213 | `list.reverse()`: same length, element `i` is element `n - 1 - i` of the input |
| PathSearch.ReversedLadder | wordmorph.py:207-213 | a walk collected backwards along `trail`, each word adjacent to the next, reversed is a ladder |
| PathSearch.PrefixLadder | wordmorph.py:184-194 | every non-empty prefix of a ladder is a ladder |
| PathSearch.StaysInside | wordmorph.py:184-194 | a ladder that starts in a set of words closed under adjacency ends in it |
| PathSearch.NoShortCut | wordmorph.py:184-194 | suppose the words with a distance are closed under adjacency except for a frontier at distance `m` or more. Then a ladder to a word without a distance takes more than `m` steps |
| PathSearch.NextLevelShortest | wordmorph.py:189-194 | a word first reached while expanding level `m` has no ladder shorter than `m + 1` |
| PathSearch.PopKeepsSearching | wordmorph.py:185-188 | popping the least entry, when it is not `end`, keeps the loop invariant. The entry's word then has exactly the popped distance, which becomes the current level. So a stale entry never occurs |
| PathSearch.RelaxKeepsTrail | wordmorph.py:191-194 | recording `trail[node] = current_word` and `distances[node] = distances[current_word] + 1` keeps the trail invariant: start at 0 with no predecessor; every other word one more than its adjacent predecessor |
| PathSearch.RelaxKeepsSettled | wordmorph.py:189-194 | a newly reached word's distance is no more than its true shortest distance |
| PathSearch.RelaxKeepsLayered | wordmorph.py:191-194 | queuing the new word at the next level keeps queue entries exact and within one level of each other |
| PathSearch.RelaxKeepsSearching | wordmorph.py:189-194 | the body of the inner `if` keeps the whole loop invariant |
| PathSearch.FewerUnseen | wordmorph.py:184-194 | giving a word its first distance leaves fewer words without one (the loop terminates) |
| PathSearch.ExpandedAll | wordmorph.py:189-194 | once every neighbour of the current word has a distance, the word counts as expanded |
| PathSearch.ExhaustedUnreachable | wordmorph.py:184 | when the queue runs dry, `end` has no distance and no ladder from `start` reaches it |
| PathSearch.SearchExplored | wordmorph.py:184-194 | when the loop stops, the trail is consistent, every distance is the shortest, and `end` lacks a distance only when it is unreachable |
| PathSearch.AnswerSolves | wordmorph.py:170-172 | the answer `build_path` gives after `measure` is a correct one |
| PathSearch.PathFinder.constructor | wordmorph.py:154-157 | a new finder holds the graph, with empty `trail` and `distances` |
| PathSearch.PathFinder.Find | wordmorph.py:159-172 | a missing or empty word gives no path and `(0, [])` comes back for equal words, both touching nothing. Otherwise the result is `KeyError(start)` exactly when `start` was never added, and else a correct answer. The answer does not depend on earlier calls. Afterwards `trail` and `distances` hold what `measure` left: explored maps, or only the start after a `KeyError` |
| PathSearch.PathFinder.Measure | wordmorph.py:174-194 | resets `trail` and `distances`, then leaves them explored: consistent trail, shortest distances, and `end` missing only when unreachable. Raises `KeyError(start)` exactly when `start` was never added and differs from `end`, leaving only the start recorded |
| PathSearch.PathFinder.Search | wordmorph.py:176-194 | the `while` loop from a fresh queue `[(0, start)]`: the same outcome as `Measure`, on the maps it returns |
| PathSearch.PathFinder.Visit | wordmorph.py:185-194 | one round. It arrives exactly when the least entry of the queue (the one `get()` pops) is `end`, and then leaves `trail` and `distances` as they were. It raises `KeyError(start)`, changing nothing, for a start never added. Otherwise every neighbour of the least entry's word now has a distance, earlier distances are unchanged, the loop invariant is kept, and the search makes progress |
| PathSearch.PathFinder.Expand | wordmorph.py:188-194 | the `for node in nodes` loop: every neighbour of the current word has a distance afterwards; earlier distances are unchanged; each new word is a neighbour at distance `level + 1`. The trail keys stay the distance keys, the loop invariant is kept, and the queue changes only when some word got its first distance |
| PathSearch.PathFinder.BuildPath | wordmorph.py:196-215 | no path when `end` has no distance; otherwise `distances[end]` and a ladder from `start` to `end` of `distances[end] + 1` words |

## Left out

- `Graph.build_from_file` and `Graph.build_from_lines` (wordmorph.py:88-121) are left out. They read a file and split the work across threads; file I/O and concurrency are not modelled. `BuildFromWords` is the sequential loader.
- `print_contents`, `print_adjacent` and `main` (wordmorph.py:130-147, 218-248) print to the console and parse the command line.
- `Queue.PriorityQueue` is a sequence of `(distance, word)` entries. `PopMin` takes the least one in Python's tuple order. Its locking and heap layout are not modelled.
- `PathSearch.PathFinder.Measure` runs its loop on local maps in `Search`, `Visit` and `Expand`, and assigns `trail` and `distances` once at the end. Python writes the fields inside the loop; nothing can observe the difference, because the loop calls nothing that reads them.
- `PathSearch.PathFinder.Find` states that the answer is a shortest ladder, not which one. Python's tie-breaking by string order makes the path deterministic, and the exact paths in tests.py:27-41 follow from it. The model does implement that order, but the particular paths are not proved.
- `Text.Normalize`: `strip()` and `lower()` are those of Python 2 byte strings (ASCII whitespace and capitals). Unicode case folding is not modelled.
- `WordGraph.AdjacencyIsOneApart` and `PathSearch.LadderStepsOneApart` assume no stored word contains `'.'`. With such a word, adjacency is defined by shared patterns, as `adjacent` computes it.
- `nodes` and `buckets` are per-instance fields of `WordGraph.Graph`. In the source they are class attributes shared by every graph; see Findings.

## Findings

| source | as written | input that shows it | evidently intended | confidence | as-written member | corrected member |
|---|---|---|---|---|---|---|
| wordmorph.py:50-51 | `nodes = dict()` and `buckets = dict()` are class attributes, so every `Graph` built by `build_from_words` adds into one index shared by all graphs | build a graph from `["cat"]`, then one from `["dog"]`: the second graph holds `cat` | each graph holds only its own words | high, not executed | WordGraph.SharedIndexLeaks | WordGraph.Graph.BuildFromWords |
