/**
 The word index of `wordmorph.py`: every word is filed under its one-letter
 wildcard patterns ("cat" under ".at", "c.t" and "ca."), so the words one
 letter apart from a word are the other words filed under its patterns.

 `Index` is the value of a graph's two maps; the specification functions
 (`Added`, `Adjacency`) and the lemmas about them are stated on it, and the
 class `Graph` updates the maps in place and is proved against them.
 */
module WordGraph {
  import opened Wrappers
  import opened Text

  /** The wildcard that stands for "any letter at this position". */
  const Placeholder: char := '.'

  /** The patterns for the first `n` positions of a word, in position order. */
  function PatternsUpTo(word: string, n: nat): seq<string>
    requires n <= |word|
  {
    if n == 0 then [] else PatternsUpTo(word, n - 1) + [word[..n - 1] + [Placeholder] + word[n..]]
  }

  lemma {:induction false} PatternsUpToShape(word: string, n: nat)
    requires n <= |word|
    ensures |PatternsUpTo(word, n)| == n
    ensures forall i :: 0 <= i < n ==> |PatternsUpTo(word, n)[i]| == |word| && PatternsUpTo(word, n)[i][i] == Placeholder
    ensures forall i, j :: 0 <= i < n && 0 <= j < |word| && j != i ==> PatternsUpTo(word, n)[i][j] == word[j]
  {
    if n > 0 {
      PatternsUpToShape(word, n - 1);
    }
  }

  /**
   `Graph.patterns`: the wildcard patterns of a word, one per position. A word
   of length L has exactly L patterns (none when it is empty), and pattern `i`
   is the word with position `i` replaced by the placeholder and every other
   position kept.
   */
  function Patterns(word: string): (ps: seq<string>)
    ensures |ps| == |word|
    ensures forall i :: 0 <= i < |word| ==> |ps[i]| == |word| && ps[i][i] == Placeholder
    ensures forall i, j :: 0 <= i < |word| && 0 <= j < |word| && j != i ==> ps[i][j] == word[j]
  {
    PatternsUpToShape(word, |word|);
    PatternsUpTo(word, |word|)
  }

  /** Two words of one length that differ at exactly one position: one step of a word ladder. */
  predicate OneApart(a: string, b: string) {
    |a| == |b| &&
    exists i :: 0 <= i < |a| && a[i] != b[i] && forall j :: 0 <= j < |a| && j != i ==> a[j] == b[j]
  }

  predicate SharesPattern(ps: seq<string>, qs: seq<string>) {
    exists p :: p in ps && p in qs
  }

  /** The two maps of a graph: `nodes` from a word to its patterns, `buckets` from a pattern to the words filed under it. */
  datatype Index = Index(nodes: map<string, seq<string>>, buckets: map<string, set<string>>)

  const Empty: Index := Index(map[], map[])

  /**
   The invariant of the index: every stored word is non-empty and has
   patterns; a word is in the bucket of a pattern exactly when that pattern is
   among its stored patterns.
   */
  ghost predicate Inv(ix: Index) {
    && (forall w | w in ix.nodes :: w != [] && ix.nodes[w] != [])
    && (forall w, p | w in ix.nodes && p in ix.nodes[w] :: p in ix.buckets && w in ix.buckets[p])
    && (forall p, w | p in ix.buckets && w in ix.buckets[p] :: w in ix.nodes && p in ix.nodes[w])
  }

  /** Every stored word is stored with its own patterns. */
  ghost predicate PatternsStored(ix: Index) {
    forall w | w in ix.nodes :: ix.nodes[w] == Patterns(w)
  }

  /** Files `w` under one pattern, creating the bucket when it is absent. */
  function Bucketed(b: map<string, set<string>>, p: string, w: string): map<string, set<string>> {
    if p in b then b[p := b[p] + {w}] else b[p := {w}]
  }

  /** Files `w` under each pattern of `ps` in turn, as the loop of `Graph.add` does. */
  function Filed(b: map<string, set<string>>, ps: seq<string>, w: string): map<string, set<string>>
    decreases |ps|
  {
    if ps == [] then b else Bucketed(Filed(b, ps[..|ps| - 1], w), ps[|ps| - 1], w)
  }

  /**
   After filing, there is a bucket for every old bucket and every pattern of
   `ps`; those of `ps` gained `w`, the others are unchanged.
   */
  lemma {:induction false} FiledShape(b: map<string, set<string>>, ps: seq<string>, w: string)
    ensures Filed(b, ps, w).Keys == b.Keys + set p | p in ps
    ensures forall p | p in Filed(b, ps, w) ::
      Filed(b, ps, w)[p] == (if p in b then b[p] else {}) + (if p in ps then {w} else {})
    decreases |ps|
  {
    if ps != [] {
      var init := ps[..|ps| - 1];
      assert ps == init + [ps[|ps| - 1]];
      FiledShape(b, init, w);
    }
  }

  /** The index with `w` stored under the patterns `ps` and filed in each of their buckets. */
  function Stored(ix: Index, w: string, ps: seq<string>): Index {
    Index(ix.nodes[w := ps], Filed(ix.buckets, ps, w))
  }

  /** The word `Graph.add` stores for an input, if any: its normal form, unless that is missing or empty. */
  function Admitted(word: Option<string>): Option<string> {
    var n := Normalize(word);
    if n.Some? && n.value != [] then n else None
  }

  /** The index after `Graph.add(word)`. */
  function Added(ix: Index, word: Option<string>): Index {
    match Admitted(word)
    case None => ix
    case Some(w) => Stored(ix, w, Patterns(w))
  }

  /** The index after adding each of `words` in order, as `Graph.build_from_words` does. */
  function AddedAll(ix: Index, words: seq<Option<string>>): Index
    decreases |words|
  {
    if words == [] then ix else Added(AddedAll(ix, words[..|words| - 1]), words[|words| - 1])
  }

  /**
   The words one step from `w`: the other stored words that share one of
   `w`'s patterns. A word that was never stored has none.
   */
  ghost function Adjacency(ix: Index, w: string): set<string> {
    if w in ix.nodes then set u | u in ix.nodes && u != w && SharesPattern(ix.nodes[w], ix.nodes[u]) else {}
  }

  /** A missing, empty or all-whitespace input leaves the index as it was. */
  lemma AddedIgnoresBlank(ix: Index, word: Option<string>)
    requires word.None? || forall k :: 0 <= k < |word.value| ==> IsSpace(word.value[k])
    ensures Added(ix, word) == ix
  {
  }

  /**
   Storing a word records it with the given patterns, files it in the bucket
   of each of them (creating the buckets that are missing), and changes no
   other word and no other bucket.
   */
  lemma StoredFrame(ix: Index, w: string, ps: seq<string>)
    ensures Stored(ix, w, ps).nodes.Keys == ix.nodes.Keys + {w}
    ensures Stored(ix, w, ps).nodes[w] == ps
    ensures forall u | u in ix.nodes && u != w :: Stored(ix, w, ps).nodes[u] == ix.nodes[u]
    ensures Stored(ix, w, ps).buckets.Keys == ix.buckets.Keys + set p | p in ps
    ensures forall p | p in ps :: Stored(ix, w, ps).buckets[p] == (if p in ix.buckets then ix.buckets[p] else {}) + {w}
    ensures forall p | p in ix.buckets && p !in ps :: Stored(ix, w, ps).buckets[p] == ix.buckets[p]
  {
    FiledShape(ix.buckets, ps, w);
  }

  /** Storing a word keeps the invariant, provided a word stored before is stored again with the same patterns. */
  lemma StoredKeepsInv(ix: Index, w: string, ps: seq<string>)
    requires Inv(ix) && w != [] && ps != []
    requires w in ix.nodes ==> ix.nodes[w] == ps
    ensures Inv(Stored(ix, w, ps))
  {
    var r := Stored(ix, w, ps);
    FiledShape(ix.buckets, ps, w);
    forall u, p | u in r.nodes && p in r.nodes[u]
      ensures p in r.buckets && u in r.buckets[p]
    {
      if u != w {
        assert p in ix.nodes[u];
      }
    }
    forall p, u | p in r.buckets && u in r.buckets[p]
      ensures u in r.nodes && p in r.nodes[u]
    {
      if u != w {
        assert u in ix.buckets[p];
      }
    }
  }

  /** `Graph.add` keeps the index invariant and keeps every word stored with its own patterns. */
  lemma AddedKeepsInv(ix: Index, word: Option<string>)
    requires Inv(ix) && PatternsStored(ix)
    ensures Inv(Added(ix, word)) && PatternsStored(Added(ix, word))
  {
    var a := Admitted(word);
    if a.Some? {
      StoredKeepsInv(ix, a.value, Patterns(a.value));
    }
  }

  lemma StoredIdempotent(ix: Index, w: string, ps: seq<string>)
    ensures Stored(Stored(ix, w, ps), w, ps) == Stored(ix, w, ps)
  {
    var once := Stored(ix, w, ps);
    var twice := Stored(once, w, ps);
    FiledShape(ix.buckets, ps, w);
    FiledShape(once.buckets, ps, w);
    assert twice.nodes == once.nodes;
    assert twice.buckets == once.buckets;
  }

  /** Adding the same word a second time changes nothing. */
  lemma AddedIdempotent(ix: Index, word: Option<string>)
    ensures Added(Added(ix, word), word) == Added(ix, word)
  {
    var a := Admitted(word);
    if a.Some? {
      StoredIdempotent(ix, a.value, Patterns(a.value));
    }
  }

  lemma {:induction false} AddedAllKeepsInv(ix: Index, words: seq<Option<string>>)
    requires Inv(ix) && PatternsStored(ix)
    ensures Inv(AddedAll(ix, words)) && PatternsStored(AddedAll(ix, words))
    decreases |words|
  {
    if words != [] {
      AddedAllKeepsInv(ix, words[..|words| - 1]);
      AddedKeepsInv(AddedAll(ix, words[..|words| - 1]), words[|words| - 1]);
    }
  }

  lemma AddedNodes(ix: Index, word: Option<string>)
    ensures Added(ix, word).nodes.Keys == ix.nodes.Keys + (if Admitted(word).Some? then {Admitted(word).value} else {})
  {
  }

  /** A word is stored after a bulk load exactly when it was stored before or is the normal form of a non-blank input. */
  lemma {:induction false} AddedAllNodes(ix: Index, words: seq<Option<string>>, w: string)
    ensures w in AddedAll(ix, words).nodes <==>
      w in ix.nodes || exists i :: 0 <= i < |words| && Admitted(words[i]) == Some(w)
    decreases |words|
  {
    if words != [] {
      var init, last := words[..|words| - 1], words[|words| - 1];
      AddedAllNodes(ix, init, w);
      AddedNodes(AddedAll(ix, init), last);
      if exists i :: 0 <= i < |init| && Admitted(init[i]) == Some(w) {
        var i :| 0 <= i < |init| && Admitted(init[i]) == Some(w);
        assert words[i] == init[i];
      }
      if exists i :: 0 <= i < |words| && Admitted(words[i]) == Some(w) {
        var i :| 0 <= i < |words| && Admitted(words[i]) == Some(w);
        if i < |init| {
          assert init[i] == words[i];
        }
      }
    }
  }

  /**
   A graph built on top of the index another build left behind keeps every
   word of the earlier build: the effect of `nodes` and `buckets` being class
   attributes shared by all graphs.
   */
  lemma {:induction false} SharedIndexKeeps(shared: Index, words: seq<Option<string>>)
    ensures shared.nodes.Keys <= AddedAll(shared, words).nodes.Keys
  {
    forall w | w in shared.nodes
      ensures w in AddedAll(shared, words).nodes
    {
      AddedAllNodes(shared, words, w);
    }
  }

  /**
   Two graphs built one after the other, as written: the second, built from
   `b` alone, holds `a` from the first (for instance `cat` in a graph built
   from `dog`); a graph with its own index does not.
   */
  lemma SharedIndexLeaks(a: string, b: string)
    requires a != b && a != [] && b != []
    requires forall k :: 0 <= k < |a| ==> !IsSpace(a[k]) && !IsUpper(a[k])
    requires forall k :: 0 <= k < |b| ==> !IsSpace(b[k]) && !IsUpper(b[k])
    ensures a in AddedAll(AddedAll(Empty, [Some(a)]), [Some(b)]).nodes
    ensures a !in AddedAll(Empty, [Some(b)]).nodes
  {
    NormalizeFixes(a);
    NormalizeFixes(b);
    AddedAllNodes(Empty, [Some(a)], a);
    SharedIndexKeeps(AddedAll(Empty, [Some(a)]), [Some(b)]);
    AddedAllNodes(Empty, [Some(b)], a);
  }

  /** The leak on a concrete pair: a graph built from `dog` after one built from `cat` holds `cat`. */
  lemma SharedIndexLeaksCatDog()
    ensures "cat" in AddedAll(AddedAll(Empty, [Some("cat")]), [Some("dog")]).nodes
  {
    SharedIndexLeaks("cat", "dog");
  }

  /**
   With no placeholder inside the words, two different words share a
   pattern exactly when they differ at one position.
   */
  lemma SharesPatternIffOneApart(a: string, b: string)
    requires a != b
    requires Placeholder !in a && Placeholder !in b
    ensures SharesPattern(Patterns(a), Patterns(b)) <==> OneApart(a, b)
  {
    var pa, pb := Patterns(a), Patterns(b);
    if SharesPattern(pa, pb) {
      var p :| p in pa && p in pb;
      var i :| 0 <= i < |pa| && pa[i] == p;
      var k :| 0 <= k < |pb| && pb[k] == p;
      assert k == i;
      assert forall j :: 0 <= j < |a| && j != i ==> a[j] == b[j];
      assert a[i] != b[i];
      assert OneApart(a, b);
    }
    if OneApart(a, b) {
      var i :| 0 <= i < |a| && a[i] != b[i] && forall j :: 0 <= j < |a| && j != i ==> a[j] == b[j];
      forall j | 0 <= j < |a|
        ensures pa[i][j] == pb[i][j]
      {
        if j != i {
          assert pa[i][j] == a[j] && pb[i][j] == b[j];
        }
      }
      assert pa[i] == pb[i];
      assert pa[i] in pa && pb[i] in pb;
    }
  }

  /**
   When no stored word contains the placeholder, the neighbours of a stored
   word are exactly the stored words one letter apart from it.
   */
  lemma AdjacencyIsOneApart(ix: Index, w: string)
    requires PatternsStored(ix) && w in ix.nodes
    requires forall u | u in ix.nodes :: Placeholder !in u
    ensures Adjacency(ix, w) == set u | u in ix.nodes && OneApart(w, u)
  {
    forall u | u in ix.nodes
      ensures u in Adjacency(ix, w) <==> OneApart(w, u)
    {
      if u != w {
        SharesPatternIffOneApart(w, u);
      }
    }
  }

  /** Adjacency is symmetric. */
  lemma AdjacencySymmetric(ix: Index, a: string, b: string)
    ensures b in Adjacency(ix, a) <==> a in Adjacency(ix, b)
  {
    if b in Adjacency(ix, a) {
      var p :| p in ix.nodes[a] && p in ix.nodes[b];
      assert SharesPattern(ix.nodes[b], ix.nodes[a]);
    }
    if a in Adjacency(ix, b) {
      var p :| p in ix.nodes[b] && p in ix.nodes[a];
      assert SharesPattern(ix.nodes[a], ix.nodes[b]);
    }
  }

  /**
   The union of the buckets of a stored word's patterns holds the word itself,
   and without it is the word's adjacency.
   */
  lemma BucketUnion(ix: Index, w: string, all: set<string>)
    requires Inv(ix) && w in ix.nodes
    requires forall u :: u in all <==> exists j :: 0 <= j < |ix.nodes[w]| && u in ix.buckets[ix.nodes[w][j]]
    ensures w in all && all - {w} == Adjacency(ix, w)
  {
    var ps := ix.nodes[w];
    assert ps[0] in ps;
    assert w in ix.buckets[ps[0]];
    forall u | u in Adjacency(ix, w)
      ensures u in all
    {
      var p :| p in ps && p in ix.nodes[u];
      var j :| 0 <= j < |ps| && ps[j] == p;
      assert u in ix.buckets[ps[j]];
    }
  }

  /**
   The word graph of `wordmorph.py`. Its two maps are fields of each
   instance and only grow.
   */
  class Graph {
    var nodes: map<string, seq<string>>
    var buckets: map<string, set<string>>

    function State(): Index
      reads this
    {
      Index(nodes, buckets)
    }

    ghost predicate Valid()
      reads this
    {
      Inv(State()) && PatternsStored(State())
    }

    constructor ()
      ensures Valid() && State() == Empty
    {
      nodes := map[];
      buckets := map[];
    }

    /** `Graph.add`: normalises the word, records its patterns and files it under each of them. */
    method Add(word: Option<string>)
      modifies this
      ensures State() == Added(old(State()), word)
      ensures old(Valid()) ==> Valid()
    {
      ghost var before := State();
      if Inv(before) && PatternsStored(before) {
        AddedKeepsInv(before, word);
      }
      var normalized := Normalize(word);
      if normalized.None? || normalized.value == [] {
        return;
      }
      var w := normalized.value;
      var patterns := Patterns(w);
      nodes := nodes[w := patterns];
      File(before, w, patterns);
    }

    /** The loop of `Graph.add`: puts `w` in the bucket of each pattern, creating the buckets that are missing. */
    method File(ghost before: Index, w: string, patterns: seq<string>)
      requires nodes == before.nodes[w := patterns] && buckets == before.buckets
      modifies this
      ensures State() == Stored(before, w, patterns)
    {
      for i := 0 to |patterns|
        invariant nodes == before.nodes[w := patterns]
        invariant buckets == Filed(before.buckets, patterns[..i], w)
      {
        var pattern := patterns[i];
        assert patterns[..i + 1][..i] == patterns[..i];
        if pattern in buckets {
          buckets := buckets[pattern := buckets[pattern] + {w}];
        } else {
          buckets := buckets[pattern := {w}];
        }
      }
      assert patterns[..|patterns|] == patterns;
    }

    /**
     `Graph.adjacent`: the union of the buckets of the word's patterns, less
     the word itself. For a word never added the union is empty and removing
     the word from it raises `KeyError`.
     */
    method Adjacent(word: string) returns (r: Result<set<string>>)
      requires Inv(State())
      ensures word in nodes ==> r == Ok(Adjacency(State(), word))
      ensures word !in nodes ==> r == Err(KeyError(word))
    {
      var allAdjacent: set<string> := {};
      var patterns := if word in nodes then nodes[word] else [];
      for i := 0 to |patterns|
        invariant forall u :: u in allAdjacent <==> exists j :: 0 <= j < i && u in buckets[patterns[j]]
      {
        var members := buckets[patterns[i]];
        allAdjacent := allAdjacent + members;
      }
      if word in nodes {
        BucketUnion(State(), word, allAdjacent);
      }
      if word in allAdjacent {
        r := Ok(allAdjacent - {word});
      } else {
        r := Err(KeyError(word));
      }
    }

    /** `Graph.build_from_words`: a new graph holding each of the words. */
    static method BuildFromWords(words: seq<Option<string>>) returns (g: Graph)
      ensures fresh(g) && g.Valid() && g.State() == AddedAll(Empty, words)
    {
      g := new Graph();
      for i := 0 to |words|
        invariant fresh(g) && g.Valid() && g.State() == AddedAll(Empty, words[..i])
      {
        g.Add(words[i]);
        assert words[..i + 1][..i] == words[..i];
      }
      assert words[..|words|] == words;
    }
  }
}
