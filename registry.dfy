/**
 * The word -> star registry (getNodeForWord): a case-insensitive map from
 * words to star indices plus the set of indices already claimed. A new word
 * gets a random index, redrawn while it is already claimed, at most
 * MaxAttempts times in all; after that the last draw is taken anyway.
 */
module WordRegistry {
  import opened Config
  import opened JsString

  /**
   * The random indices one call may draw, in order: Math.floor(Math.random()
   * * TOTAL_POINTS) for attempt 0, 1, ... Only the first MaxAttempts are used.
   */
  predicate ValidDraws(draws: seq<nat>) {
    |draws| >= MaxAttempts && forall j :: 0 <= j < |draws| ==> draws[j] < TotalPoints
  }

  /** The attempt, counted from `j`, at which the retry loop stops. */
  function StopAt(draws: seq<nat>, used: set<nat>, j: nat): (r: nat)
    requires j < MaxAttempts <= |draws|
    ensures j <= r < MaxAttempts
    ensures draws[r] !in used || r == MaxAttempts - 1
    ensures forall m :: j <= m < r ==> draws[m] in used
    decreases MaxAttempts - j
  {
    if draws[j] !in used || j == MaxAttempts - 1 then j else StopAt(draws, used, j + 1)
  }

  /** The index a new word receives: one of the allowed draws. */
  function Pick(draws: seq<nat>, used: set<nat>): (idx: nat)
    requires ValidDraws(draws)
    ensures idx < TotalPoints
    ensures exists j :: 0 <= j < MaxAttempts && idx == draws[j]
  {
    draws[StopAt(draws, used, 0)]
  }

  /**
   * The pick is a valid star, and it is a fresh one exactly when one of the
   * allowed attempts drew a fresh index; it is then the first such draw.
   */
  lemma PickProperties(draws: seq<nat>, used: set<nat>)
    requires ValidDraws(draws)
    ensures Pick(draws, used) < TotalPoints
    ensures Pick(draws, used) !in used <==> exists m :: 0 <= m < MaxAttempts && draws[m] !in used
    ensures forall m :: 0 <= m < MaxAttempts && draws[m] !in used ==>
      exists f :: 0 <= f <= m && Pick(draws, used) == draws[f] && forall e :: 0 <= e < f ==> draws[e] in used
  {
    var r := StopAt(draws, used, 0);
    if exists m :: 0 <= m < MaxAttempts && draws[m] !in used {
      var m :| 0 <= m < MaxAttempts && draws[m] !in used;
      assert r <= m;
    }
  }

  /** No two words share a star. */
  predicate Distinct(m: map<string, nat>) {
    forall a, b :: a in m && b in m && a != b ==> m[a] != m[b]
  }

  /**
   * getNodeForWord on the map alone: a registered word keeps its star, a new
   * one is added under its lower-case key with the pick against the stars in use.
   */
  function Assign(m: map<string, nat>, word: string, draws: seq<nat>): (r: map<string, nat>)
    requires ValidDraws(draws)
    ensures r.Keys == m.Keys + {LowerCase(word)}
    ensures forall k :: k in m ==> r[k] == m[k]
    ensures LowerCase(word) !in m ==> r[LowerCase(word)] == Pick(draws, m.Values)
  {
    var key := LowerCase(word);
    if key in m then m else m[key := Pick(draws, m.Values)]
  }

  /** The words resolved in order, the j-th with draws[j]: the registry the word loop leaves behind. */
  function Resolve(m: map<string, nat>, words: seq<string>, draws: seq<seq<nat>>): (r: map<string, nat>)
    requires |draws| == |words| && forall j :: 0 <= j < |draws| ==> ValidDraws(draws[j])
    ensures forall k :: k in m ==> k in r && r[k] == m[k]
    ensures forall j :: 0 <= j < |words| ==> LowerCase(words[j]) in r
    ensures forall k :: k in r ==> k in m || exists j :: 0 <= j < |words| && LowerCase(words[j]) == k
    decreases |words|
  {
    if words == [] then m
    else
      var n := |words| - 1;
      var before := Resolve(m, words[..n], draws[..n]);
      assert forall j :: 0 <= j < n ==> words[..n][j] == words[j];
      Assign(before, words[n], draws[n])
  }

  /** Words that are all registered already leave the registry as it is. */
  lemma {:induction false} ResolveKnown(m: map<string, nat>, words: seq<string>, draws: seq<seq<nat>>)
    requires |draws| == |words| && forall j :: 0 <= j < |draws| ==> ValidDraws(draws[j])
    requires forall j :: 0 <= j < |words| ==> LowerCase(words[j]) in m
    ensures Resolve(m, words, draws) == m
    decreases |words|
  {
    if words != [] {
      var n := |words| - 1;
      assert forall j :: 0 <= j < n ==> words[..n][j] == words[j];
      ResolveKnown(m, words[..n], draws[..n]);
    }
  }

  /** Resolving one more word is one more Assign. */
  lemma ResolveSnoc(m: map<string, nat>, words: seq<string>, draws: seq<seq<nat>>, w: nat)
    requires |draws| == |words| && forall j :: 0 <= j < |draws| ==> ValidDraws(draws[j])
    requires w < |words|
    ensures Resolve(m, words[..w + 1], draws[..w + 1]) ==
      Assign(Resolve(m, words[..w], draws[..w]), words[w], draws[w])
  {
    assert words[..w + 1][..w] == words[..w];
    assert draws[..w + 1][..w] == draws[..w];
  }

  class Registry {
    /** wordToNodeMap: lower-cased word -> star index. */
    var wordToNode: map<string, nat>
    /** usedNodeIndices. */
    var used: set<nat>

    /** Keys are lower-cased, indices are stars, and the used set is exactly the assigned indices. */
    ghost predicate Valid()
      reads this
    {
      && (forall k :: k in wordToNode ==> LowerCase(k) == k && wordToNode[k] < TotalPoints)
      && used == wordToNode.Values
    }

    constructor ()
      ensures Valid()
      ensures wordToNode == map[] && used == {}
    {
      wordToNode := map[];
      used := {};
    }

    /** getNodeForWord, with the random draws of this call supplied as `draws`. */
    method NodeForWord(word: string, draws: seq<nat>) returns (idx: nat)
      requires Valid()
      requires ValidDraws(draws)
      modifies this
      ensures Valid()
      ensures idx < TotalPoints
      ensures LowerCase(word) in wordToNode && wordToNode[LowerCase(word)] == idx
      ensures LowerCase(word) in old(wordToNode) ==>
        idx == old(wordToNode)[LowerCase(word)] && wordToNode == old(wordToNode) && used == old(used)
      ensures LowerCase(word) !in old(wordToNode) ==>
        && idx == Pick(draws, old(used))
        && wordToNode == old(wordToNode)[LowerCase(word) := idx]
        && used == old(used) + {idx}
      ensures Distinct(old(wordToNode)) && (LowerCase(word) in old(wordToNode) || idx !in old(used)) ==>
        Distinct(wordToNode)
      ensures wordToNode == Assign(old(wordToNode), word, draws)
    {
      var key := LowerCase(word);
      if key in wordToNode {
        return wordToNode[key];
      }
      idx := draws[0];
      var attempts := 1;
      while idx in used && attempts < MaxAttempts
        invariant 1 <= attempts <= MaxAttempts
        invariant idx == draws[attempts - 1]
        invariant StopAt(draws, used, attempts - 1) == StopAt(draws, used, 0)
      {
        idx := draws[attempts];
        attempts := attempts + 1;
      }
      LowerCaseIdempotent(word);
      used := used + {idx};
      wordToNode := wordToNode[key := idx];
    }
  }

  /** The same word, in any letter case, resolves to the same star, and a second call changes nothing. */
  method ResolveTwice(r: Registry, word: string, sameWord: string, draws1: seq<nat>, draws2: seq<nat>)
    returns (first: nat, second: nat)
    requires r.Valid() && ValidDraws(draws1) && ValidDraws(draws2)
    requires LowerCase(sameWord) == LowerCase(word)
    modifies r
    ensures r.Valid()
    ensures first == second
    ensures LowerCase(word) in r.wordToNode && r.wordToNode[LowerCase(word)] == first
    ensures r.wordToNode == Assign(old(r.wordToNode), word, draws1)
    ensures r.wordToNode == Assign(Assign(old(r.wordToNode), word, draws1), sameWord, draws2)
  {
    first := r.NodeForWord(word, draws1);
    ghost var afterFirst := r.wordToNode;
    second := r.NodeForWord(sameWord, draws2);
    assert r.wordToNode == afterFirst;
  }
}
