/**
 * The galaxy's highlighting state: star positions and original colours, the
 * colour and size buffers the renderer draws, the word registry and the words
 * currently shown. Update is updateVisualization's buffer logic, OnInput the
 * input handler's completed-word step, Reset the reset button.
 */
module Galaxy {
  import opened Config
  import opened JsString
  import opened InputWords
  import opened WordRegistry
  import opened Neighbors
  import opened Highlight

  /**
   * What the model needs of Math.sqrt: it is non-negative and monotone on
   * non-negative arguments and positive on positive ones.
   */
  ghost predicate SqrtLike(sqrt: real -> real) {
    && (forall x :: 0.0 < x ==> 0.0 < sqrt(x))
    && (forall x, y :: 0.0 <= x <= y ==> 0.0 <= sqrt(x) <= sqrt(y))
  }

  /** One (x, y, z) per star, and no two stars at the same place. */
  predicate ValidSpace(positions: seq<real>) {
    && |positions| == 3 * TotalPoints
    && forall i, j :: 0 <= i < TotalPoints && 0 <= j < TotalPoints && i != j ==> DistSq(positions, i, j) > 0.0
  }

  predicate NodesIn(nodes: seq<nat>) {
    forall w :: 0 <= w < |nodes| ==> nodes[w] < TotalPoints
  }

  lemma RatioInUnit(a: real, b: real)
    requires 0.0 <= a <= b && 0.0 < b
    ensures 0.0 <= a / b <= 1.0
  {
    assert a / b * b == a;
  }

  lemma RatioMonotone(a1: real, a2: real, b: real)
    requires 0.0 <= a1 <= a2 && 0.0 < b
    ensures a1 / b <= a2 / b
  {
    assert (a2 - a1) / b * b == a2 - a1;
    assert a2 / b - a1 / b == (a2 - a1) / b;
  }

  /** 1 - dist / maxDist, with both distances given squared. */
  function Intensity(distSq: real, maxDistSq: real, sqrt: real -> real): (v: real)
    requires sqrt(maxDistSq) != 0.0
    ensures 0.0 <= sqrt(distSq) <= sqrt(maxDistSq) ==> 0.0 <= v <= 1.0
    ensures sqrt(distSq) == sqrt(maxDistSq) ==> v == 0.0
  {
    var ratio := sqrt(distSq) / sqrt(maxDistSq);
    assert 0.0 <= sqrt(distSq) <= sqrt(maxDistSq) ==> 0.0 <= ratio <= 1.0 by {
      if 0.0 <= sqrt(distSq) <= sqrt(maxDistSq) {
        RatioInUnit(sqrt(distSq), sqrt(maxDistSq));
      }
    }
    1.0 - ratio
  }

  /**
   * A neighbour no farther than the farthest one lies in [0, 1], the farthest
   * one is at 0, and a closer neighbour is at least as bright.
   */
  lemma IntensityProperties(d1: real, d2: real, maxDistSq: real, sqrt: real -> real)
    requires SqrtLike(sqrt)
    requires 0.0 <= d1 <= d2 <= maxDistSq && 0.0 < maxDistSq
    ensures sqrt(maxDistSq) > 0.0
    ensures 0.0 <= Intensity(d2, maxDistSq, sqrt) <= 1.0
    ensures Intensity(maxDistSq, maxDistSq, sqrt) == 0.0
    ensures Intensity(d1, maxDistSq, sqrt) >= Intensity(d2, maxDistSq, sqrt)
  {
    var m := sqrt(maxDistSq);
    assert 0.0 <= sqrt(d1) <= sqrt(d2) <= m;
    RatioInUnit(sqrt(d2), m);
    RatioMonotone(sqrt(d1), sqrt(d2), m);
    assert m > 0.0;
    assert m / m == 1.0;
  }

  /** The hits of one word: each neighbour with its intensity against the farthest. */
  function HitsFor(nb: seq<Neighbor>, sqrt: real -> real): (hits: seq<Hit>)
    requires nb != [] && sqrt(nb[|nb| - 1].distSq) != 0.0
    ensures |hits| == |nb|
    ensures forall j :: 0 <= j < |nb| ==> hits[j].id == nb[j].id
  {
    seq(|nb|, j requires 0 <= j < |nb| =>
      Hit(nb[j].id, Intensity(nb[j].distSq, nb[|nb| - 1].distSq, sqrt)))
  }

  /**
   * Intensities against the farthest of a list sorted by distance: all in
   * [0, 1], never brighter farther out, and the farthest at 0.
   */
  lemma HitsForProperties(nb: seq<Neighbor>, sqrt: real -> real)
    requires SqrtLike(sqrt) && nb != [] && nb[|nb| - 1].distSq > 0.0
    requires forall j :: 0 <= j < |nb| ==> 0.0 <= nb[j].distSq
    requires forall i, j :: 0 <= i < j < |nb| ==> nb[i].distSq <= nb[j].distSq
    ensures sqrt(nb[|nb| - 1].distSq) > 0.0
    ensures var hits := HitsFor(nb, sqrt);
      && (forall j :: 0 <= j < |hits| ==> 0.0 <= hits[j].intensity <= 1.0)
      && (forall i, j :: 0 <= i < j < |hits| ==> hits[i].intensity >= hits[j].intensity)
      && hits[|hits| - 1].intensity == 0.0
  {
    var maxDistSq := nb[|nb| - 1].distSq;
    IntensityProperties(maxDistSq, maxDistSq, maxDistSq, sqrt);
    var hits := HitsFor(nb, sqrt);
    forall i, j | 0 <= i < j < |hits| ensures hits[i].intensity >= hits[j].intensity {
      IntensityProperties(nb[i].distSq, nb[j].distSq, maxDistSq, sqrt);
    }
    forall j | 0 <= j < |hits| ensures 0.0 <= hits[j].intensity <= 1.0 {
      if j < |nb| - 1 {
        assert nb[j].distSq <= maxDistSq;
      }
      IntensityProperties(nb[j].distSq, nb[j].distSq, maxDistSq, sqrt);
    }
  }

  /** With no two stars at one place, every neighbour of `t` is at a positive distance. */
  lemma CloudDistances(positions: seq<real>, t: nat)
    requires ValidSpace(positions) && t < TotalPoints
    ensures var nb := Nearest(positions, TotalPoints, t, NeighborCount);
      && |nb| == NeighborCount
      && (forall j :: 0 <= j < |nb| ==> nb[j].id < TotalPoints && nb[j].id != t && 0.0 < nb[j].distSq)
      && (forall i, j :: 0 <= i < j < |nb| ==> nb[i].distSq <= nb[j].distSq)
  {
    var nb := Nearest(positions, TotalPoints, t, NeighborCount);
    NearestProperties(positions, TotalPoints, t, NeighborCount);
    forall j | 0 <= j < |nb| ensures 0.0 < nb[j].distSq {
      assert nb[j].distSq == DistSq(positions, t, nb[j].id);
    }
  }

  /**
   * The KNN cloud of star `t`: its NeighborCount nearest stars, brightest
   * first, the farthest at intensity 0.
   */
  function WordHits(positions: seq<real>, t: nat, sqrt: real -> real): (hits: seq<Hit>)
    requires ValidSpace(positions) && SqrtLike(sqrt) && t < TotalPoints
    ensures |hits| == NeighborCount
    ensures var nb := Nearest(positions, TotalPoints, t, NeighborCount);
      |nb| == NeighborCount && sqrt(nb[|nb| - 1].distSq) > 0.0
    ensures hits == HitsFor(Nearest(positions, TotalPoints, t, NeighborCount), sqrt)
    ensures forall j :: 0 <= j < |hits| ==>
      hits[j].id == Nearest(positions, TotalPoints, t, NeighborCount)[j].id
    ensures forall j :: 0 <= j < |hits| ==> hits[j].id < TotalPoints && hits[j].id != t
    ensures forall j :: 0 <= j < |hits| ==> 0.0 <= hits[j].intensity <= 1.0
    ensures forall i, j :: 0 <= i < j < |hits| ==> hits[i].intensity >= hits[j].intensity
    ensures hits[|hits| - 1].intensity == 0.0
  {
    var nb := Nearest(positions, TotalPoints, t, NeighborCount);
    CloudDistances(positions, t);
    HitsForProperties(nb, sqrt);
    HitsFor(nb, sqrt)
  }

  /** The clouds of every word, in sequence order. */
  function AllHits(positions: seq<real>, nodes: seq<nat>, sqrt: real -> real): (lists: seq<seq<Hit>>)
    requires ValidSpace(positions) && SqrtLike(sqrt) && NodesIn(nodes)
    ensures |lists| == |nodes|
    ensures forall w :: 0 <= w < |nodes| ==> lists[w] == WordHits(positions, nodes[w], sqrt)
    ensures ListsIn(lists, TotalPoints) && ListChannelsIn(lists, 3 * TotalPoints) && IntensitiesInUnit(lists)
  {
    seq(|nodes|, w requires 0 <= w < |nodes| => WordHits(positions, nodes[w], sqrt))
  }

  /** Adding a word adds its cloud at the end. */
  lemma AllHitsAppend(positions: seq<real>, nodes: seq<nat>, t: nat, sqrt: real -> real)
    requires ValidSpace(positions) && SqrtLike(sqrt) && NodesIn(nodes) && t < TotalPoints
    ensures NodesIn(nodes + [t])
    ensures AllHits(positions, nodes + [t], sqrt) == AllHits(positions, nodes, sqrt) + [WordHits(positions, t, sqrt)]
  {
  }

  /**
   * The registry `m` extends `origin`: old entries kept, every one of the
   * first `w` words registered, and nothing else added.
   */
  ghost predicate Grown(origin: map<string, nat>, m: map<string, nat>, words: seq<string>, w: nat) {
    && (forall key :: key in origin ==> key in m && m[key] == origin[key])
    && (forall v :: 0 <= v < w && v < |words| ==> LowerCase(words[v]) in m)
    && (forall key :: key in m ==> key in origin || exists v :: 0 <= v < w && v < |words| && LowerCase(words[v]) == key)
  }

  /** The star each word resolves to. */
  function NodesOf(m: map<string, nat>, words: seq<string>): (nodes: seq<nat>)
    requires forall w :: 0 <= w < |words| ==> LowerCase(words[w]) in m
    ensures |nodes| == |words|
  {
    seq(|words|, w requires 0 <= w < |words| => m[LowerCase(words[w])])
  }

  /** The colour buffer that shows the words resolved to `nodes`. */
  function ColorsFor(original: seq<real>, positions: seq<real>, nodes: seq<nat>, sqrt: real -> real): (cols: seq<real>)
    requires |original| == 3 * TotalPoints && ValidSpace(positions) && SqrtLike(sqrt) && NodesIn(nodes)
    ensures |cols| == 3 * TotalPoints
  {
    if nodes == [] then original else PaintColors(Dimmed(original), AllHits(positions, nodes, sqrt))
  }

  /** The size buffer that shows the words resolved to `nodes`. */
  function SizesFor(positions: seq<real>, nodes: seq<nat>, sqrt: real -> real): (sizes: seq<real>)
    requires ValidSpace(positions) && SqrtLike(sqrt) && NodesIn(nodes)
    ensures |sizes| == TotalPoints
  {
    PaintSizes(BaseSizes(TotalPoints), AllHits(positions, nodes, sqrt))
  }

  /** Star `p` is among the nearest neighbours of some word's star. */
  predicate InSomeCloud(positions: seq<real>, nodes: seq<nat>, p: nat)
    requires |positions| == 3 * TotalPoints && NodesIn(nodes)
  {
    exists w, q :: 0 <= w < |nodes| && 0 <= q < |Nearest(positions, TotalPoints, nodes[w], NeighborCount)| &&
      Nearest(positions, TotalPoints, nodes[w], NeighborCount)[q].id == p
  }

  /** A star is in some word's cloud exactly when some hit list names it. */
  lemma CloudMembership(positions: seq<real>, nodes: seq<nat>, sqrt: real -> real, p: nat)
    requires ValidSpace(positions) && SqrtLike(sqrt) && NodesIn(nodes)
    ensures InSomeCloud(positions, nodes, p) <==> !Untouched(AllHits(positions, nodes, sqrt), p)
  {
    var lists: seq<seq<Hit>> := AllHits(positions, nodes, sqrt);
    if InSomeCloud(positions, nodes, p) {
      var w: nat, q: nat :| 0 <= w < |nodes| && 0 <= q < |Nearest(positions, TotalPoints, nodes[w], NeighborCount)| &&
        Nearest(positions, TotalPoints, nodes[w], NeighborCount)[q].id == p;
      assert lists[w][q].id == p;
    }
    if !Untouched(lists, p) {
      var w: nat, h: nat :| 0 <= w < |lists| && 0 <= h < |lists[w]| && lists[w][h].id == p;
      assert Nearest(positions, TotalPoints, nodes[w], NeighborCount)[h].id == p;
    }
  }

  /**
   * The colour of one star: with no words, its original colour; otherwise at
   * least 30% of it, and exactly 30% when no word's cloud holds the star.
   */
  lemma StarColor(original: seq<real>, positions: seq<real>, nodes: seq<nat>, sqrt: real -> real, p: nat)
    requires |original| == 3 * TotalPoints && ValidSpace(positions) && SqrtLike(sqrt) && NodesIn(nodes)
    requires p < TotalPoints
    ensures var cols := ColorsFor(original, positions, nodes, sqrt);
      && (nodes == [] ==> forall c :: 3 * p <= c < 3 * p + 3 ==> cols[c] == original[c])
      && (nodes != [] ==> forall c :: 3 * p <= c < 3 * p + 3 ==> cols[c] >= original[c] * DimFactor)
      && (nodes != [] && !InSomeCloud(positions, nodes, p) ==>
            forall c :: 3 * p <= c < 3 * p + 3 ==> cols[c] == original[c] * DimFactor)
  {
    if nodes != [] {
      var lists: seq<seq<Hit>> := AllHits(positions, nodes, sqrt);
      PaintColorsAtLeast(Dimmed(original), lists);
      CloudMembership(positions, nodes, sqrt, p);
      if !InSomeCloud(positions, nodes, p) {
        PaintColorsUntouched(Dimmed(original), lists, p);
      }
    }
  }

  /**
   * The size of one star: within [1, 5]; the base size when no word's cloud
   * holds it, at least 2 when one does.
   */
  lemma StarSize(positions: seq<real>, nodes: seq<nat>, sqrt: real -> real, p: nat)
    requires ValidSpace(positions) && SqrtLike(sqrt) && NodesIn(nodes)
    requires p < TotalPoints
    ensures var sizes := SizesFor(positions, nodes, sqrt);
      && BaseSize <= sizes[p] <= 5.0
      && (!InSomeCloud(positions, nodes, p) ==> sizes[p] == BaseSize)
      && (InSomeCloud(positions, nodes, p) ==> 2.0 <= sizes[p])
  {
    var lists: seq<seq<Hit>> := AllHits(positions, nodes, sqrt);
    SizesInRange(TotalPoints, lists);
    CloudMembership(positions, nodes, sqrt, p);
    if !InSomeCloud(positions, nodes, p) {
      PaintSizesUntouched(BaseSizes(TotalPoints), lists, p);
    } else {
      var w: nat, h: nat :| 0 <= w < |lists| && 0 <= h < |lists[w]| && lists[w][h].id == p;
    }
  }

  /**
   * Each star of word w's cloud has every channel at least as bright as word
   * w's colour at the star's intensity, boosted twofold.
   */
  lemma CloudLit(original: seq<real>, positions: seq<real>, nodes: seq<nat>, sqrt: real -> real, w: nat, q: nat, k: nat)
    requires |original| == 3 * TotalPoints && ValidSpace(positions) && SqrtLike(sqrt) && NodesIn(nodes)
    requires w < |nodes| && q < NeighborCount && k < 3
    ensures var h := WordHits(positions, nodes[w], sqrt)[q];
      ColorsFor(original, positions, nodes, sqrt)[3 * h.id + k] >= Contribution(ColorOf(w), h, k)
  {
    var lists: seq<seq<Hit>> := AllHits(positions, nodes, sqrt);
    var h := lists[w][q];
    assert ColorsFor(original, positions, nodes, sqrt) == PaintColors(Dimmed(original), lists);
    assert h == WordHits(positions, nodes[w], sqrt)[q];
    PaintColorsCovers(Dimmed(original), lists);
  }

  /** Buffers painted with the clouds of at least one star are what ColorsFor and SizesFor describe. */
  lemma ShowsPainted(original: seq<real>, positions: seq<real>, nodes: seq<nat>, sqrt: real -> real)
    requires |original| == 3 * TotalPoints && ValidSpace(positions) && SqrtLike(sqrt) && NodesIn(nodes) && nodes != []
    ensures ColorsFor(original, positions, nodes, sqrt) == PaintColors(Dimmed(original), AllHits(positions, nodes, sqrt))
    ensures SizesFor(positions, nodes, sqrt) == PaintSizes(BaseSizes(TotalPoints), AllHits(positions, nodes, sqrt))
  {
  }

  /** With no words, the colour buffer is the original and every size the base size. */
  lemma ShowsNothing(original: seq<real>, positions: seq<real>, sqrt: real -> real)
    requires |original| == 3 * TotalPoints && ValidSpace(positions) && SqrtLike(sqrt)
    ensures NodesIn([])
    ensures ColorsFor(original, positions, [], sqrt) == original
    ensures SizesFor(positions, [], sqrt) == BaseSizes(TotalPoints)
  {
    assert AllHits(positions, [], sqrt) == [];
  }

  class Galaxy {
    /** Star coordinates, x, y, z per star. */
    const positions: seq<real>
    /** originalColors, r, g, b per star. */
    const original: seq<real>
    /** Math.sqrt. */
    const sqrt: real -> real
    /** The colour attribute buffer. */
    const colors: array<real>
    /** The size attribute buffer. */
    const sizes: array<real>
    const registry: Registry
    var currentWords: seq<string>

    ghost predicate Wellformed()
      reads this, registry
    {
      && ValidSpace(positions) && |original| == 3 * TotalPoints && SqrtLike(sqrt)
      && colors.Length == 3 * TotalPoints && sizes.Length == TotalPoints && colors != sizes
      && registry.Valid()
    }

    /** Every current word is registered and the buffers show exactly the current words. */
    ghost predicate Valid()
      reads this, registry, colors, sizes
    {
      && Wellformed()
      && (forall w :: 0 <= w < |currentWords| ==> LowerCase(currentWords[w]) in registry.wordToNode)
      && colors[..] == ColorsFor(original, positions, NodesOf(registry.wordToNode, currentWords), sqrt)
      && sizes[..] == SizesFor(positions, NodesOf(registry.wordToNode, currentWords), sqrt)
    }

    /** The buffers show the clouds of the stars `nodes`, in that order, over the dimmed galaxy. */
    ghost predicate Painted(nodes: seq<nat>)
      reads this, colors, sizes
    {
      && ValidSpace(positions) && SqrtLike(sqrt) && |original| == 3 * TotalPoints && NodesIn(nodes)
      && colors[..] == PaintColors(Dimmed(original), AllHits(positions, nodes, sqrt))
      && sizes[..] == PaintSizes(BaseSizes(TotalPoints), AllHits(positions, nodes, sqrt))
    }

    /** The scene at start-up, which shows no words. */
    constructor (positions: seq<real>, original: seq<real>, sqrt: real -> real)
      requires ValidSpace(positions) && |original| == 3 * TotalPoints && SqrtLike(sqrt)
      ensures Valid() && fresh(registry) && fresh(colors) && fresh(sizes)
      ensures this.positions == positions && this.original == original && this.sqrt == sqrt
      ensures currentWords == [] && registry.wordToNode == map[]
    {
      this.positions := positions;
      this.original := original;
      this.sqrt := sqrt;
      colors := new real[3 * TotalPoints];
      sizes := new real[TotalPoints];
      registry := new Registry();
      currentWords := [];
      new;
      Update([], []);
    }

    /**
     * updateVisualization(words): every star dimmed to 30% at base size, then
     * (with no words) restored to its original colour, or else each word
     * resolved to a star, whose nearest neighbours are max-combined in the
     * word's colour. Registered words keep their stars.
     */
    method Update(words: seq<string>, draws: seq<seq<nat>>)
      requires Wellformed()
      requires |draws| == |words| && forall w :: 0 <= w < |words| ==> ValidDraws(draws[w])
      modifies this, colors, sizes, registry
      ensures Valid() && currentWords == words
      ensures forall key :: key in old(registry.wordToNode) ==>
        key in registry.wordToNode && registry.wordToNode[key] == old(registry.wordToNode)[key]
      ensures forall key :: key in registry.wordToNode ==>
        key in old(registry.wordToNode) || exists w :: 0 <= w < |words| && LowerCase(words[w]) == key
      ensures registry.wordToNode == Resolve(old(registry.wordToNode), words, draws)
    {
      currentWords := words;
      DimAll();
      if |words| == 0 {
        RestoreAll();
        ShowsNothing(original, positions, sqrt);
        return;
      }
      PaintWords(words, draws);
      ShowsPainted(original, positions, NodesOf(registry.wordToNode, words), sqrt);
    }

    /** The reset loop: every channel at 30% of the original, every size at base. */
    method DimAll()
      requires Wellformed()
      modifies colors, sizes
      ensures colors[..] == Dimmed(original) && sizes[..] == BaseSizes(TotalPoints)
    {
      for i := 0 to TotalPoints
        invariant forall c :: 0 <= c < 3 * i ==> colors[c] == original[c] * DimFactor
        invariant forall p :: 0 <= p < i ==> sizes[p] == BaseSize
      {
        colors[3 * i] := original[3 * i] * DimFactor;
        colors[3 * i + 1] := original[3 * i + 1] * DimFactor;
        colors[3 * i + 2] := original[3 * i + 2] * DimFactor;
        sizes[i] := BaseSize;
      }
      assert colors[..] == Dimmed(original);
      assert sizes[..] == BaseSizes(TotalPoints);
    }

    /** The no-words branch: every star back to its original colour at base size. */
    method RestoreAll()
      requires Wellformed()
      modifies colors, sizes
      ensures colors[..] == original && sizes[..] == BaseSizes(TotalPoints)
    {
      for i := 0 to TotalPoints
        invariant forall c :: 0 <= c < 3 * i ==> colors[c] == original[c]
        invariant forall p :: 0 <= p < i ==> sizes[p] == BaseSize
      {
        colors[3 * i] := original[3 * i];
        colors[3 * i + 1] := original[3 * i + 1];
        colors[3 * i + 2] := original[3 * i + 2];
        sizes[i] := BaseSize;
      }
      assert colors[..] == original;
      assert sizes[..] == BaseSizes(TotalPoints);
    }

    /** The word loop of updateVisualization, from the dimmed buffers. */
    method PaintWords(words: seq<string>, draws: seq<seq<nat>>)
      requires Wellformed()
      requires |draws| == |words| && forall w :: 0 <= w < |words| ==> ValidDraws(draws[w])
      requires colors[..] == Dimmed(original) && sizes[..] == BaseSizes(TotalPoints)
      modifies colors, sizes, registry
      ensures registry.Valid()
      ensures Grown(old(registry.wordToNode), registry.wordToNode, words, |words|)
      ensures registry.wordToNode == Resolve(old(registry.wordToNode), words, draws)
      ensures Painted(NodesOf(registry.wordToNode, words))
    {
      ghost var nodes: seq<nat> := [];
      for w := 0 to |words|
        invariant registry.Valid()
        invariant Grown(old(registry.wordToNode), registry.wordToNode, words, w)
        invariant registry.wordToNode == Resolve(old(registry.wordToNode), words[..w], draws[..w])
        invariant nodes == NodesOf(registry.wordToNode, words[..w])
        invariant Painted(nodes)
      {
        ghost var before := registry.wordToNode;
        var idx := PaintWord(words[w], w, draws[w], nodes);
        AddWord(old(registry.wordToNode), before, registry.wordToNode, words, w, nodes);
        ResolveSnoc(old(registry.wordToNode), words, draws, w);
        nodes := nodes + [idx];
      }
      assert words[..|words|] == words && draws[..|draws|] == draws;
    }

    /** One pass of the word loop: the word resolved to a star, and that star's cloud lit. */
    method PaintWord(word: string, w: nat, draws: seq<nat>, ghost nodes: seq<nat>) returns (idx: nat)
      requires Wellformed() && ValidDraws(draws) && |nodes| == w && Painted(nodes)
      modifies colors, sizes, registry
      ensures registry.Valid() && idx < TotalPoints
      ensures LowerCase(word) in registry.wordToNode && registry.wordToNode[LowerCase(word)] == idx
      ensures forall key :: key in registry.wordToNode ==> key in old(registry.wordToNode) || key == LowerCase(word)
      ensures forall key :: key in old(registry.wordToNode) ==>
        key in registry.wordToNode && registry.wordToNode[key] == old(registry.wordToNode)[key]
      ensures registry.wordToNode == Assign(old(registry.wordToNode), word, draws)
      ensures LowerCase(word) !in old(registry.wordToNode) ==> idx == Pick(draws, old(registry.used))
      ensures Distinct(old(registry.wordToNode)) && (LowerCase(word) in old(registry.wordToNode) || idx !in old(registry.used)) ==>
        Distinct(registry.wordToNode)
      ensures Painted(nodes + [idx])
    {
      idx := registry.NodeForWord(word, draws);
      AllHitsAppend(positions, nodes, idx, sqrt);
      ApplyCloud(idx, w, AllHits(positions, nodes, sqrt), WordHits(positions, idx, sqrt));
    }

    /** One more word registered: the registry still extends the original, and the nodes grow by the word's star. */
    static lemma AddWord(origin: map<string, nat>, before: map<string, nat>, after: map<string, nat>,
                         words: seq<string>, w: nat, nodes: seq<nat>)
      requires w < |words|
      requires Grown(origin, before, words, w)
      requires forall key :: key in before ==> key in after && after[key] == before[key]
      requires forall key :: key in after ==> key in before || key == LowerCase(words[w])
      requires LowerCase(words[w]) in after
      requires nodes == NodesOf(before, words[..w])
      ensures Grown(origin, after, words, w + 1)
      ensures nodes + [after[LowerCase(words[w])]] == NodesOf(after, words[..w + 1])
    {
    }

    /**
     * The KNN cloud of one word: for each of the star's nearest neighbours,
     * its three channels and its size are max-combined with the boosted
     * colour and size.
     */
    method ApplyCloud(idx: nat, w: nat, ghost lists: seq<seq<Hit>>, ghost hits: seq<Hit>)
      requires Wellformed() && idx < TotalPoints
      requires ListsIn(lists, TotalPoints) && ListChannelsIn(lists, 3 * TotalPoints)
      requires hits == WordHits(positions, idx, sqrt)
      requires w == |lists|
      requires colors[..] == PaintColors(Dimmed(original), lists)
      requires sizes[..] == PaintSizes(BaseSizes(TotalPoints), lists)
      modifies colors, sizes
      ensures colors[..] == PaintColors(Dimmed(original), lists + [hits])
      ensures sizes[..] == PaintSizes(BaseSizes(TotalPoints), lists + [hits])
    {
      var neighbors := NearestNeighbors(positions, TotalPoints, idx, NeighborCount);
      var maxDist := sqrt(neighbors[|neighbors| - 1].distSq);
      LightAll(ColorOf(w), neighbors, maxDist, hits);
      PaintAppend(Dimmed(original), BaseSizes(TotalPoints), lists, hits);
    }

    /** The forEach over the neighbours: each one lit in turn. */
    method LightAll(col: Rgb, neighbors: seq<Neighbor>, maxDist: real, ghost hits: seq<Hit>)
      requires colors.Length == 3 * TotalPoints && sizes.Length == TotalPoints && colors != sizes
      requires neighbors != [] && maxDist == sqrt(neighbors[|neighbors| - 1].distSq) && maxDist != 0.0
      requires hits == HitsFor(neighbors, sqrt)
      requires forall j :: 0 <= j < |neighbors| ==> neighbors[j].id < TotalPoints
      modifies colors, sizes
      ensures ChannelsIn(hits, 3 * TotalPoints) && HitsIn(hits, TotalPoints)
      ensures colors[..] == ApplyColor(old(colors[..]), col, hits)
      ensures sizes[..] == ApplySize(old(sizes[..]), hits)
    {
      ghost var colors0 := colors[..];
      ghost var sizes0 := sizes[..];
      for j := 0 to |neighbors|
        invariant colors[..] == ApplyColor(colors0, col, hits[..j])
        invariant sizes[..] == ApplySize(sizes0, hits[..j])
      {
        var n := neighbors[j];
        var dist := sqrt(n.distSq);
        var intensity := 1.0 - dist / maxDist;
        assert hits[j] == Hit(n.id, intensity);
        Light(col, n.id, intensity);
        assert hits[..j + 1][..j] == hits[..j];
      }
      assert hits[..|neighbors|] == hits;
    }

    /** One neighbour: its channels and size max-combined with the boosted colour and size. */
    method Light(col: Rgb, i: nat, intensity: real)
      requires colors.Length == 3 * TotalPoints && sizes.Length == TotalPoints && colors != sizes
      requires i < TotalPoints
      modifies colors, sizes
      ensures colors[..] == BoostColor(old(colors[..]), col, Hit(i, intensity))
      ensures sizes[..] == BoostSize(old(sizes[..]), Hit(i, intensity))
    {
      ghost var h := Hit(i, intensity);
      colors[i * 3] := Max(colors[i * 3], col.r * intensity * 2.0);
      colors[i * 3 + 1] := Max(colors[i * 3 + 1], col.g * intensity * 2.0);
      colors[i * 3 + 2] := Max(colors[i * 3 + 2], col.b * intensity * 2.0);
      sizes[i] := Max(sizes[i], 2.0 + intensity * 3.0);
      assert col.r * intensity * 2.0 == Contribution(col, h, 0);
      assert col.g * intensity * 2.0 == Contribution(col, h, 1);
      assert col.b * intensity * 2.0 == Contribution(col, h, 2);
    }

    /**
     * The input handler: the completed words of the input, and the scene
     * redrawn only when they differ from the words shown.
     */
    method OnInput(raw: string, draws: seq<seq<nat>>)
      requires Valid()
      requires |draws| == |CompletedWords(raw)| && forall w :: 0 <= w < |draws| ==> ValidDraws(draws[w])
      modifies this, colors, sizes, registry
      ensures Valid() && currentWords == CompletedWords(raw)
      ensures old(currentWords) == CompletedWords(raw) ==>
        unchanged(this) && unchanged(colors) && unchanged(sizes) && unchanged(registry)
      ensures forall key :: key in old(registry.wordToNode) ==>
        key in registry.wordToNode && registry.wordToNode[key] == old(registry.wordToNode)[key]
      ensures forall key :: key in registry.wordToNode ==>
        key in old(registry.wordToNode) || exists w :: 0 <= w < |draws| && LowerCase(CompletedWords(raw)[w]) == key
      ensures registry.wordToNode == Resolve(old(registry.wordToNode), CompletedWords(raw), draws)
    {
      var finalWords := CompletedWords(raw);
      if WordsChanged(finalWords, currentWords) {
        Update(finalWords, draws);
      } else {
        ResolveKnown(registry.wordToNode, finalWords, draws);
      }
    }

    /** The reset button: no words, every star back to its original colour and base size. */
    method Reset()
      requires Wellformed()
      modifies this, colors, sizes, registry
      ensures Valid() && currentWords == []
      ensures colors[..] == original && sizes[..] == BaseSizes(TotalPoints)
      ensures registry.wordToNode == old(registry.wordToNode)
    {
      Update([], []);
    }
  }
}
