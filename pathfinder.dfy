/**
 The shortest-path search of `wordmorph.py`: uniform-cost search (Dijkstra's
 algorithm with every edge of weight 1) over the word graph, where the words
 one step from a word are its adjacency in the index.

 A ladder is a sequence of words, each one step from the one before. The
 search is specified by `Solves`: the answer is a shortest ladder between the
 two words, or there is no ladder at all.
 */
module PathSearch {
  import opened Wrappers
  import opened Text
  import opened WordGraph

  /** What `PathFinder.find` returns: `(None, None)`, or a distance with its path. */
  datatype Answer = NoPath | Morph(distance: nat, path: seq<string>)

  /** The graph as adjacency sets: each word of the graph with the words one step from it. */
  type Edges = map<string, set<string>>

  /** The words one step from `w`; none for a word outside the graph. */
  function Neighbours(edges: Edges, w: string): set<string> {
    if w in edges then edges[w] else {}
  }

  /** The adjacency sets of an index, as `Graph.adjacent` computes them. */
  ghost function EdgesOf(ix: Index): Edges {
    map w | w in ix.nodes :: Adjacency(ix, w)
  }

  /** How one round of the search ended: it went on, it took `end` off the queue, or it raised. */
  datatype Step = Continued | Arrived | Raised(error: Error)

  /** A queue entry `(distance, word)`. */
  type Entry = (nat, string)

  /** A non-empty sequence of words in which each word is one step from the one before. */
  ghost predicate IsLadder(edges: Edges, q: seq<string>) {
    |q| >= 1 && forall i :: 0 <= i < |q| - 1 ==> q[i + 1] in Neighbours(edges, q[i])
  }

  ghost predicate LadderFrom(edges: Edges, q: seq<string>, s: string, e: string) {
    IsLadder(edges, q) && q[0] == s && q[|q| - 1] == e
  }

  /** No ladder from `s` to `e` takes fewer than `d` steps. */
  ghost predicate Shortest(edges: Edges, s: string, e: string, d: nat) {
    forall q | LadderFrom(edges, q, s, e) :: |q| - 1 >= d
  }

  ghost predicate Reaches(edges: Edges, s: string, e: string) {
    exists q :: LadderFrom(edges, q, s, e)
  }

  /**
   A correct answer for a search from `s` to `e`: no path when no ladder
   exists, and otherwise a ladder from `s` to `e` whose number of steps is
   the distance and no other ladder is shorter.
   */
  ghost predicate Solves(edges: Edges, s: string, e: string, a: Answer) {
    match a
    case NoPath => !Reaches(edges, s, e)
    case Morph(d, p) => LadderFrom(edges, p, s, e) && |p| == d + 1 && Shortest(edges, s, e, d)
  }

  /** Every correct answer has the same outcome and the same distance; only the path may differ between ties. */
  lemma SolvesDistanceUnique(edges: Edges, s: string, e: string, a: Answer, b: Answer)
    requires Solves(edges, s, e, a) && Solves(edges, s, e, b)
    ensures a.NoPath? <==> b.NoPath?
    ensures a.Morph? && b.Morph? ==> a.distance == b.distance
  {
    if a.Morph? {
      assert LadderFrom(edges, a.path, s, e);
    }
    if b.Morph? {
      assert LadderFrom(edges, b.path, s, e);
    }
  }

  /**
   Over an index built by `add` in which no word holds the placeholder, each
   step of a ladder goes to a stored word one letter apart.
   */
  lemma LadderStepsOneApart(ix: Index, q: seq<string>)
    requires PatternsStored(ix) && forall u | u in ix.nodes :: Placeholder !in u
    requires IsLadder(EdgesOf(ix), q)
    ensures forall i :: 1 <= i < |q| ==> q[i] in ix.nodes && OneApart(q[i - 1], q[i])
  {
    forall i | 1 <= i < |q|
      ensures q[i] in ix.nodes && OneApart(q[i - 1], q[i])
    {
      assert q[i] in Neighbours(EdgesOf(ix), q[i - 1]);
      assert q[i - 1] in ix.nodes;
      AdjacencyIsOneApart(ix, q[i - 1]);
    }
  }

  /** Adjacency being symmetric, a ladder read backwards is a ladder too. */
  lemma LadderBackwards(ix: Index, q: seq<string>)
    requires IsLadder(EdgesOf(ix), q)
    ensures IsLadder(EdgesOf(ix), Reversed(q)) && Reversed(q)[0] == q[|q| - 1] && Reversed(q)[|q| - 1] == q[0]
  {
    var edges := EdgesOf(ix);
    forall i | 0 <= i < |q| - 1
      ensures q[i] in Neighbours(edges, q[i + 1])
    {
      assert q[i + 1] in Neighbours(edges, q[i]);
      assert q[i] in ix.nodes;
      AdjacencySymmetric(ix, q[i], q[i + 1]);
    }
    ReversedLadder(edges, q);
  }

  /** Morphing is symmetric: `e` is reachable from `s` exactly when `s` is reachable from `e`, in the same number of steps. */
  lemma ShortestSymmetric(ix: Index, s: string, e: string, d: nat)
    ensures Reaches(EdgesOf(ix), s, e) <==> Reaches(EdgesOf(ix), e, s)
    ensures Shortest(EdgesOf(ix), s, e, d) <==> Shortest(EdgesOf(ix), e, s, d)
  {
    ShortestOneWay(ix, s, e, d);
    ShortestOneWay(ix, e, s, d);
  }

  lemma ShortestOneWay(ix: Index, s: string, e: string, d: nat)
    ensures Reaches(EdgesOf(ix), s, e) ==> Reaches(EdgesOf(ix), e, s)
    ensures Shortest(EdgesOf(ix), s, e, d) ==> Shortest(EdgesOf(ix), e, s, d)
  {
    var edges := EdgesOf(ix);
    if Reaches(edges, s, e) {
      var q :| LadderFrom(edges, q, s, e);
      LadderBackwards(ix, q);
      assert LadderFrom(edges, Reversed(q), e, s);
    }
    if Shortest(edges, s, e, d) {
      forall q | LadderFrom(edges, q, e, s)
        ensures |q| - 1 >= d
      {
        LadderBackwards(ix, q);
        assert LadderFrom(edges, Reversed(q), s, e);
      }
    }
  }

  /** Python's falsiness of a word: `None` or the empty string. */
  predicate Blank(x: Option<string>) {
    x.None? || x.value == []
  }

  /** Python's order on `(distance, word)` tuples: by distance, then by word. */
  predicate EntryLe(a: Entry, b: Entry) {
    a.0 < b.0 || (a.0 == b.0 && StrLe(a.1, b.1))
  }

  /** Tuple order on queue entries is a total order, so a queue has one least entry. */
  lemma EntryLeTotalOrder(a: Entry, b: Entry, c: Entry)
    ensures EntryLe(a, a)
    ensures EntryLe(a, b) || EntryLe(b, a)
    ensures EntryLe(a, b) && EntryLe(b, a) ==> a == b
    ensures EntryLe(a, b) && EntryLe(b, c) ==> EntryLe(a, c)
  {
    StrLeReflexive(a.1);
    StrLeTotal(a.1, b.1);
    if EntryLe(a, b) && EntryLe(b, a) {
      StrLeAntisymmetric(a.1, b.1);
    }
    if EntryLe(a, b) && EntryLe(b, c) && a.0 == b.0 == c.0 {
      StrLeTransitive(a.1, b.1, c.1);
    }
  }

  /** `e` is the least entry of the queue in tuple order: the one `get()` returns. */
  predicate Least(queue: seq<Entry>, e: Entry) {
    e in queue && forall x | x in queue :: EntryLe(e, x)
  }

  /**
   `PriorityQueue.get`: removes and returns the least entry in tuple order
   (the queue is kept as the sequence of its entries).
   */
  method PopMin(queue: seq<Entry>) returns (e: Entry, rest: seq<Entry>)
    requires queue != []
    ensures Least(queue, e)
    ensures multiset(rest) == multiset(queue) - multiset{e}
    ensures forall x | x in rest :: x in queue
    ensures forall x | x in queue && x != e :: x in rest
    ensures |rest| == |queue| - 1
  {
    var best := 0;
    StrLeReflexive(queue[0].1);
    for i := 1 to |queue|
      invariant 0 <= best < i
      invariant forall j :: 0 <= j < i ==> EntryLe(queue[best], queue[j])
    {
      if !EntryLe(queue[best], queue[i]) {
        NewLeast(queue, best, i);
        best := i;
      }
    }
    e := queue[best];
    rest := queue[..best] + queue[best + 1..];
    RemovedAt(queue, best);
  }

  /** An entry below the least of a prefix is the least of the prefix extended by it. */
  lemma NewLeast(queue: seq<Entry>, best: nat, i: nat)
    requires best < i < |queue|
    requires forall j :: 0 <= j < i ==> EntryLe(queue[best], queue[j])
    requires !EntryLe(queue[best], queue[i])
    ensures forall j :: 0 <= j <= i ==> EntryLe(queue[i], queue[j])
  {
    EntryLeTotalOrder(queue[i], queue[best], queue[best]);
    forall j | 0 <= j <= i
      ensures EntryLe(queue[i], queue[j])
    {
      EntryLeTotalOrder(queue[i], queue[best], queue[j]);
    }
  }

  /** Cutting out position `k` removes exactly one copy of its entry. */
  lemma RemovedAt(queue: seq<Entry>, k: nat)
    requires k < |queue|
    ensures multiset(queue[..k] + queue[k + 1..]) == multiset(queue) - multiset{queue[k]}
    ensures forall x | x in queue[..k] + queue[k + 1..] :: x in queue
    ensures forall x | x in queue && x != queue[k] :: x in queue[..k] + queue[k + 1..]
  {
    var rest := queue[..k] + queue[k + 1..];
    assert queue == queue[..k] + [queue[k]] + queue[k + 1..];
    forall x | x in queue && x != queue[k]
      ensures x in rest
    {
      assert x in multiset(queue);
    }
    forall x | x in rest
      ensures x in queue
    {
      assert x in multiset(rest);
    }
  }

  /** Reverses a sequence, as `list.reverse()` does. */
  function Reversed<T>(s: seq<T>): (r: seq<T>)
    ensures |r| == |s| && forall i :: 0 <= i < |s| ==> r[i] == s[|s| - 1 - i]
  {
    if s == [] then [] else Reversed(s[1..]) + [s[0]]
  }

  /** A walk collected backwards (each word one step from the next) reads forwards as a ladder. */
  lemma ReversedLadder(edges: Edges, path: seq<string>)
    requires |path| >= 1
    requires forall i :: 0 <= i < |path| - 1 ==> path[i] in Neighbours(edges, path[i + 1])
    ensures IsLadder(edges, Reversed(path))
  {
    var r, n := Reversed(path), |path|;
    forall i | 0 <= i < n - 1
      ensures r[i + 1] in Neighbours(edges, r[i])
    {
      var k := n - 2 - i;
      assert r[i] == path[k + 1] && r[i + 1] == path[k];
    }
  }

  /**
   The search state `measure` leaves for `build_path`: the start has
   distance 0 and no predecessor; every other word with a distance has a
   predecessor with a distance one less, from which it is one step away.
   */
  ghost predicate TrailInv(edges: Edges, start: string, trail: map<string, Option<string>>, distances: map<string, nat>) {
    && start in distances && distances[start] == 0
    && trail.Keys == distances.Keys && trail[start] == None
    && forall u {:trigger trail[u]} | u in distances && u != start ::
         trail[u].Some? && trail[u].value in distances &&
         distances[u] == distances[trail[u].value] + 1 &&
         u in Neighbours(edges, trail[u].value)
  }

  /** Every recorded distance is a lower bound on the length of any ladder to that word. */
  ghost predicate Settled(edges: Edges, start: string, distances: map<string, nat>) {
    forall v | v in distances :: Shortest(edges, start, v, distances[v])
  }

  /** What `measure` establishes: a consistent trail, exact distances, and no distance for `end` only when it is unreachable. */
  ghost predicate Explored(edges: Edges, start: string, end: string, trail: map<string, Option<string>>, distances: map<string, nat>) {
    && TrailInv(edges, start, trail, distances)
    && Settled(edges, start, distances)
    && (end !in distances ==> !Reaches(edges, start, end))
  }

  lemma PrefixLadder(edges: Edges, q: seq<string>, n: nat)
    requires IsLadder(edges, q) && 1 <= n <= |q|
    ensures IsLadder(edges, q[..n])
  {
    forall i | 0 <= i < n - 1
      ensures q[..n][i + 1] in Neighbours(edges, q[..n][i])
    {
      assert q[..n][i] == q[i] && q[..n][i + 1] == q[i + 1];
    }
  }

  /**
   A ladder that starts inside a set of words closed under adjacency never
   leaves it.
   */
  lemma {:induction false} StaysInside(edges: Edges, inside: set<string>, q: seq<string>)
    requires IsLadder(edges, q) && q[0] in inside
    requires forall v | v in inside :: Neighbours(edges, v) <= inside
    ensures q[|q| - 1] in inside
    decreases |q|
  {
    if |q| > 1 {
      PrefixLadder(edges, q, |q| - 1);
      StaysInside(edges, inside, q[..|q| - 1]);
      assert q[|q| - 2] == q[..|q| - 1][|q| - 2];
    }
  }

  /**
   The heart of the minimality argument. Suppose the words with a distance
   are closed under adjacency except for a frontier whose distances are at
   least `m`, and every distance is a lower bound. Then a ladder from the
   start to a word without a distance takes more than `m` steps: it must
   leave through the frontier.
   */
  lemma {:induction false} NoShortCut(edges: Edges, start: string, distances: map<string, nat>,
                                      frontier: set<string>, m: nat, q: seq<string>)
    requires IsLadder(edges, q) && q[0] == start && q[|q| - 1] !in distances
    requires start in distances
    requires forall v | v in distances && v !in frontier :: Neighbours(edges, v) <= distances.Keys
    requires forall v | v in frontier :: v in distances && distances[v] >= m
    requires Settled(edges, start, distances)
    ensures |q| - 1 >= m + 1
    decreases |q|
  {
    var k := |q| - 1;
    var prefix := q[..k];
    PrefixLadder(edges, q, k);
    assert prefix[k - 1] == q[k - 1];
    if q[k - 1] in distances {
      assert q[k] in Neighbours(edges, q[k - 1]);
      assert q[k - 1] in frontier;
      assert LadderFrom(edges, prefix, start, q[k - 1]);
    } else {
      NoShortCut(edges, start, distances, frontier, m, prefix);
    }
  }

  /** A word first reached from a frontier word at distance `m` is at distance exactly `m + 1`. */
  lemma NextLevelShortest(edges: Edges, start: string, distances: map<string, nat>,
                          frontier: set<string>, m: nat, v: string)
    requires start in distances && v !in distances
    requires forall u | u in distances && u !in frontier :: Neighbours(edges, u) <= distances.Keys
    requires forall u | u in frontier :: u in distances && distances[u] >= m
    requires Settled(edges, start, distances)
    ensures Shortest(edges, start, v, m + 1)
  {
    forall q | LadderFrom(edges, q, start, v)
      ensures |q| - 1 >= m + 1
    {
      NoShortCut(edges, start, distances, frontier, m, q);
    }
  }

  /** Every queue entry carries its word's current distance, and none is below `level`. */
  ghost predicate Queued(distances: map<string, nat>, queue: seq<Entry>, level: nat) {
    forall x | x in queue :: x.1 in distances && distances[x.1] == x.0 && level <= x.0
  }

  /**
   Every word with a distance whose entry has left the queue, other than
   those in `skip`, has all its neighbours given a distance.
   */
  ghost predicate Expanded(edges: Edges, distances: map<string, nat>, queue: seq<Entry>, skip: set<string>) {
    forall v | v in distances && (distances[v], v) !in queue && v !in skip :: Neighbours(edges, v) <= distances.Keys
  }

  /**
   The search proceeds level by level: the queue holds distances `level` and
   `level + 1` only, and every word off the queue (but those in `skip`) has
   been expanded. `end`, once it has a distance, is still queued.
   */
  ghost predicate Layered(edges: Edges, end: string, universe: set<string>, distances: map<string, nat>,
                          queue: seq<Entry>, level: nat, skip: set<string>) {
    && distances.Keys <= universe
    && Queued(distances, queue, level)
    && (forall v | v in distances :: distances[v] <= level + 1)
    && Expanded(edges, distances, queue, skip)
    && (end in distances ==> (distances[end], end) in queue)
  }

  /** The loop invariant of `measure`: a consistent trail, a layered search, and every distance already the shortest. */
  ghost predicate Searching(edges: Edges, start: string, end: string, universe: set<string>,
                            trail: map<string, Option<string>>, distances: map<string, nat>,
                            queue: seq<Entry>, level: nat, skip: set<string>) {
    && TrailInv(edges, start, trail, distances)
    && Layered(edges, end, universe, distances, queue, level, skip)
    && Settled(edges, start, distances)
  }

  /** Taking the least entry off the queue starts the expansion of its word at its level. */
  lemma PopKeepsSearching(edges: Edges, start: string, end: string, universe: set<string>,
                          trail: map<string, Option<string>>, distances: map<string, nat>,
                          queue: seq<Entry>, level: nat, e: Entry, rest: seq<Entry>)
    requires Searching(edges, start, end, universe, trail, distances, queue, level, {})
    requires e in queue && forall x | x in queue :: EntryLe(e, x)
    requires (forall x | x in rest :: x in queue) && forall x | x in queue && x != e :: x in rest
    requires e.1 != end
    ensures e.1 in distances && distances[e.1] == e.0 && level <= e.0
    ensures Searching(edges, start, end, universe, trail, distances, rest, e.0, {e.1})
  {
    forall v | v in distances && (distances[v], v) !in rest && v !in {e.1}
      ensures Neighbours(edges, v) <= distances.Keys
    {
      assert (distances[v], v) !in queue;
    }
  }

  /** Recording `current` as the predecessor of a new word `node` keeps the trail consistent. */
  lemma RelaxKeepsTrail(edges: Edges, start: string, trail: map<string, Option<string>>, distances: map<string, nat>,
                        current: string, node: string)
    requires TrailInv(edges, start, trail, distances)
    requires current in distances && node !in distances && node in Neighbours(edges, current)
    ensures TrailInv(edges, start, trail[node := Some(current)], distances[node := distances[current] + 1])
  {
    var t', d' := trail[node := Some(current)], distances[node := distances[current] + 1];
    forall u | u in d' && u != start
      ensures t'[u].Some? && t'[u].value in d' && d'[u] == d'[t'[u].value] + 1 && u in Neighbours(edges, t'[u].value)
    {
      if u != node {
        assert t'[u] == trail[u] && trail[u].value != node;
      }
    }
  }

  /** A word first reached while expanding a word at `level` is settled at `level + 1`. */
  lemma RelaxKeepsSettled(edges: Edges, start: string, distances: map<string, nat>, queue: seq<Entry>,
                          level: nat, current: string, node: string)
    requires start in distances && Settled(edges, start, distances)
    requires Queued(distances, queue, level) && Expanded(edges, distances, queue, {current})
    requires current in distances && distances[current] == level && node !in distances
    ensures Settled(edges, start, distances[node := level + 1])
  {
    var frontier := set v | v in distances && ((distances[v], v) in queue || v == current);
    NextLevelShortest(edges, start, distances, frontier, level, node);
    var d' := distances[node := level + 1];
    forall v | v in d'
      ensures Shortest(edges, start, v, d'[v])
    {
      if v != node {
        assert d'[v] == distances[v];
      }
    }
  }

  /** Queuing a new word at the next level keeps the search layered. */
  lemma RelaxKeepsLayered(edges: Edges, end: string, universe: set<string>, distances: map<string, nat>,
                          queue: seq<Entry>, level: nat, current: string, node: string)
    requires Layered(edges, end, universe, distances, queue, level, {current})
    requires node in universe && node !in distances
    ensures Layered(edges, end, universe, distances[node := level + 1], queue + [(level + 1, node)], level, {current})
  {
    var d', q' := distances[node := level + 1], queue + [(level + 1, node)];
    assert Queued(d', q', level) by {
      forall x | x in q'
        ensures x.1 in d' && d'[x.1] == x.0 && level <= x.0
      {
        if x != (level + 1, node) {
          assert x in queue;
        }
      }
    }
    assert Expanded(edges, d', q', {current}) by {
      forall v | v in d' && (d'[v], v) !in q' && v !in {current}
        ensures Neighbours(edges, v) <= d'.Keys
      {
        assert v != node;
      }
    }
  }

  /** Giving an unvisited neighbour of the expanded word the next distance keeps the invariant. */
  lemma RelaxKeepsSearching(edges: Edges, start: string, end: string, universe: set<string>,
                            trail: map<string, Option<string>>, distances: map<string, nat>,
                            queue: seq<Entry>, level: nat, current: string, node: string)
    requires Searching(edges, start, end, universe, trail, distances, queue, level, {current})
    requires current in distances && distances[current] == level
    requires node in Neighbours(edges, current) && node in universe && node !in distances
    ensures Searching(edges, start, end, universe, trail[node := Some(current)], distances[node := level + 1],
                      queue + [(level + 1, node)], level, {current})
  {
    RelaxKeepsTrail(edges, start, trail, distances, current, node);
    RelaxKeepsSettled(edges, start, distances, queue, level, current, node);
    RelaxKeepsLayered(edges, end, universe, distances, queue, level, current, node);
  }

  /** Giving more words a distance leaves fewer of the finitely many words without one. */
  lemma FewerUnseen(universe: set<string>, before: set<string>, after: set<string>)
    requires before <= after <= universe && before != after
    ensures |universe - after| < |universe - before|
  {
    var x :| x in after && x !in before;
    assert universe - before == (universe - after) + (after - before);
    assert (universe - after) * (after - before) == {};
    assert x in after - before;
  }

  /** Once all neighbours of the expanded word have distances, it counts as expanded. */
  lemma ExpandedAll(edges: Edges, start: string, end: string, universe: set<string>,
                    trail: map<string, Option<string>>, distances: map<string, nat>,
                    queue: seq<Entry>, level: nat, current: string)
    requires Searching(edges, start, end, universe, trail, distances, queue, level, {current})
    requires Neighbours(edges, current) <= distances.Keys
    ensures Searching(edges, start, end, universe, trail, distances, queue, level, {})
  {
  }

  /** When the queue runs dry without reaching `end`, no ladder reaches it. */
  lemma ExhaustedUnreachable(edges: Edges, start: string, end: string, universe: set<string>,
                             trail: map<string, Option<string>>, distances: map<string, nat>, level: nat)
    requires Searching(edges, start, end, universe, trail, distances, [], level, {})
    ensures end !in distances && !Reaches(edges, start, end)
  {
    forall q | IsLadder(edges, q) && q[0] == start
      ensures q[|q| - 1] in distances
    {
      StaysInside(edges, distances.Keys, q);
    }
  }

  /** The search stops with `measure`'s result once the queue is empty or `end` has a distance. */
  lemma SearchExplored(edges: Edges, start: string, end: string, universe: set<string>,
                       trail: map<string, Option<string>>, distances: map<string, nat>, queue: seq<Entry>, level: nat)
    requires Searching(edges, start, end, universe, trail, distances, queue, level, {})
    requires queue == [] || end in distances
    ensures Explored(edges, start, end, trail, distances)
  {
    if end !in distances {
      ExhaustedUnreachable(edges, start, end, universe, trail, distances, level);
    }
  }

  /** The answer `build_path` gives after `measure` is a correct one. */
  lemma AnswerSolves(edges: Edges, start: string, end: string, trail: map<string, Option<string>>,
                     distances: map<string, nat>, a: Answer)
    requires Explored(edges, start, end, trail, distances)
    requires end !in distances ==> a == NoPath
    requires end in distances ==>
      a.Morph? && a.distance == distances[end] && LadderFrom(edges, a.path, start, end) && |a.path| == distances[end] + 1
    ensures Solves(edges, start, end, a)
  {
  }

  /** The path finder of `wordmorph.py`: a graph and the state of its last search. */
  class PathFinder {
    const graph: Graph
    var trail: map<string, Option<string>>
    var distances: map<string, nat>

    constructor (graph: Graph)
      ensures this.graph == graph && trail == map[] && distances == map[]
    {
      this.graph := graph;
      trail := map[];
      distances := map[];
    }

    /**
     `PathFinder.find`. A missing or empty word gives no path; equal words
     give distance 0 and an empty path; otherwise the search runs, and raises
     `KeyError` when the start word was never added to the graph.
     */
    method Find(start: Option<string>, end: Option<string>) returns (r: Result<Answer>)
      requires Inv(graph.State())
      modifies this
      ensures Blank(start) || Blank(end) ==> r == Ok(NoPath) && unchanged(this)
      ensures !Blank(start) && !Blank(end) && start == end ==> r == Ok(Morph(0, [])) && unchanged(this)
      ensures !Blank(start) && !Blank(end) && start != end ==>
        && (r.Err? <==> start.value !in graph.nodes)
        && (r.Err? ==> r.error == KeyError(start.value))
        && (r.Ok? ==> Solves(EdgesOf(graph.State()), start.value, end.value, r.value))
      ensures !Blank(start) && !Blank(end) && start != end ==>
        && (r.Ok? ==> Explored(EdgesOf(graph.State()), start.value, end.value, trail, distances))
        && (r.Err? ==> trail == map[start.value := None] && distances == map[start.value := 0])
    {
      if Blank(start) || Blank(end) {
        return Ok(NoPath);
      }
      if start == end {
        return Ok(Morph(0, []));
      }
      var measured := Measure(start.value, end.value);
      if measured.Err? {
        return Err(measured.error);
      }
      var answer := BuildPath(start.value, end.value);
      AnswerSolves(EdgesOf(graph.State()), start.value, end.value, trail, distances, answer);
      return Ok(answer);
    }

    /**
     `PathFinder.measure`: uniform-cost search from `start`, stopping when
     `end` is taken off the queue. Resets `trail` and `distances` first.
     */
    method Measure(start: string, end: string) returns (r: Result<()>)
      requires Inv(graph.State())
      modifies this
      ensures r.Err? <==> start !in graph.nodes && start != end
      ensures r.Err? ==> r.error == KeyError(start) && trail == map[start := None] && distances == map[start := 0]
      ensures r.Ok? ==> Explored(EdgesOf(graph.State()), start, end, trail, distances)
    {
      var t, d;
      r, t, d := Search(start, end);
      trail, distances := t, d;
    }

    /** The `while` loop of `PathFinder.measure`, on the trail and distances it starts afresh. */
    method Search(start: string, end: string) returns (r: Result<()>, t: map<string, Option<string>>, d: map<string, nat>)
      requires Inv(graph.State())
      ensures r.Err? <==> start !in graph.nodes && start != end
      ensures r.Err? ==> r.error == KeyError(start) && t == map[start := None] && d == map[start := 0]
      ensures r.Ok? ==> Explored(EdgesOf(graph.State()), start, end, t, d)
    {
      ghost var ix := graph.State();
      ghost var edges := EdgesOf(ix);
      ghost var universe := ix.nodes.Keys + {start};
      var toVisit: seq<Entry> := [(0, start)];
      t, d := map[start := None], map[start := 0];
      ghost var level: nat := 0;
      r := Ok(());
      while toVisit != []
        invariant Searching(edges, start, end, universe, t, d, toVisit, level, {})
        invariant start !in ix.nodes ==> toVisit == [(0, start)] && t == map[start := None] && d == map[start := 0]
        decreases |universe - d.Keys|, |toVisit|
      {
        var step;
        ghost var seen := d.Keys;
        step, t, d, toVisit, level := Visit(ix, edges, universe, start, end, t, d, toVisit, level);
        if step.Arrived? {
          break;
        } else if step.Raised? {
          r := Err(step.error);
          break;
        }
        if d.Keys != seen {
          FewerUnseen(universe, seen, d.Keys);
        }
      }
      if r.Ok? {
        SearchExplored(edges, start, end, universe, t, d, toVisit, level);
      }
    }

    /** One round of the `while` loop of `PathFinder.measure`. */
    method Visit(ghost ix: Index, ghost edges: Edges, ghost universe: set<string>, start: string, end: string,
                 trail: map<string, Option<string>>, distances: map<string, nat>, queue: seq<Entry>, ghost level: nat)
      returns (step: Step, t: map<string, Option<string>>, d: map<string, nat>, toVisit: seq<Entry>, ghost level': nat)
      requires Inv(graph.State()) && graph.State() == ix && edges == EdgesOf(ix) && universe == ix.nodes.Keys + {start}
      requires queue != [] && (start !in ix.nodes ==> queue == [(0, start)])
      requires Searching(edges, start, end, universe, trail, distances, queue, level, {})
      ensures distances.Keys <= d.Keys == t.Keys && trail.Keys == distances.Keys
      ensures step.Arrived? <==> exists e | Least(queue, e) :: e.1 == end
      ensures step.Arrived? ==> t == trail && d == distances && end in d && (start in ix.nodes || start == end)
      ensures step.Continued? ==> start in ix.nodes && exists e | Least(queue, e) :: Neighbours(edges, e.1) <= d.Keys
      ensures step.Continued? ==> forall v | v in distances :: d[v] == distances[v]
      ensures step.Raised? ==> step.error == KeyError(start) && start !in ix.nodes && start != end && t == trail && d == distances
      ensures !step.Raised? ==> Searching(edges, start, end, universe, t, d, toVisit, level', {})
      ensures step.Continued? && d.Keys == distances.Keys ==> |toVisit| < |queue|
    {
      var entry, rest := PopMin(queue);
      var currentDistance, currentWord := entry.0, entry.1;
      t, d, toVisit, level' := trail, distances, queue, level;
      assert Least(queue, entry);
      if currentWord == end {
        return Arrived, t, d, queue, level';
      }
      forall e | Least(queue, e)
        ensures e == entry
      {
        EntryLeTotalOrder(entry, e, e);
      }
      PopKeepsSearching(edges, start, end, universe, trail, distances, queue, level, entry, rest);
      var adjacent := graph.Adjacent(currentWord);
      if adjacent.Err? {
        return Raised(adjacent.error), t, d, rest, level';
      }
      level' := currentDistance;
      t, d, toVisit := Expand(edges, start, end, universe, currentWord, adjacent.value, trail, distances, rest, level');
      step := Continued;
    }

    static method Expand(ghost edges: Edges, ghost start: string, ghost end: string, ghost universe: set<string>,
                  current: string, neighbours: set<string>, trail: map<string, Option<string>>, distances: map<string, nat>, queue: seq<Entry>, ghost level: nat)
      returns (t: map<string, Option<string>>, d: map<string, nat>, toVisit: seq<Entry>)
      requires neighbours <= universe && neighbours == Neighbours(edges, current)
      requires current in distances && distances[current] == level
      requires Searching(edges, start, end, universe, trail, distances, queue, level, {current})
      ensures Searching(edges, start, end, universe, t, d, toVisit, level, {})
      ensures distances.Keys <= d.Keys == t.Keys && trail.Keys == distances.Keys
      ensures neighbours <= d.Keys
      ensures forall v | v in distances :: d[v] == distances[v]
      ensures forall v | v in d && v !in distances :: v in neighbours && d[v] == level + 1
      ensures d.Keys == distances.Keys ==> toVisit == queue
    {
      t, d, toVisit := trail, distances, queue;
      var nodes := neighbours;
      while nodes != {}
        invariant nodes <= neighbours && neighbours - nodes <= d.Keys
        invariant current in d && d[current] == level
        invariant Searching(edges, start, end, universe, t, d, toVisit, level, {current})
        invariant forall v | v in distances :: v in d && d[v] == distances[v]
        invariant forall v | v in d && v !in distances :: v in neighbours && d[v] == level + 1
        invariant d.Keys == distances.Keys ==> toVisit == queue
        decreases nodes
      {
        var node :| node in nodes;
        nodes := nodes - {node};
        var newDistance := d[current] + 1;
        if node !in d || newDistance < d[node] {
          RelaxKeepsSearching(edges, start, end, universe, t, d, toVisit, level, current, node);
          d := d[node := newDistance];
          toVisit := toVisit + [(newDistance, node)];
          t := t[node := Some(current)];
        }
      }
      ExpandedAll(edges, start, end, universe, t, d, toVisit, level, current);
    }

    /**
     `PathFinder.build_path`: no path when `end` has no distance; otherwise
     the walk back along `trail` from `end` to `start`, reversed.
     */
    method BuildPath(start: string, end: string) returns (a: Answer)
      requires TrailInv(EdgesOf(graph.State()), start, trail, distances)
      ensures end !in distances ==> a == NoPath
      ensures end in distances ==>
        && a.Morph? && a.distance == distances[end] && |a.path| == distances[end] + 1
        && LadderFrom(EdgesOf(graph.State()), a.path, start, end)
    {
      if end !in distances {
        return NoPath;
      }
      ghost var edges := EdgesOf(graph.State());
      var path := [end];
      var current := end;
      while current != start
        invariant current in distances
        invariant |path| == distances[end] - distances[current] + 1
        invariant path[0] == end && path[|path| - 1] == current
        invariant forall i :: 0 <= i < |path| - 1 ==> path[i] in Neighbours(edges, path[i + 1])
        decreases distances[current]
      {
        var previous := trail[current].value;
        path := path + [previous];
        current := previous;
      }
      ReversedLadder(edges, path);
      path := Reversed(path);
      return Morph(distances[end], path);
    }
  }
}
