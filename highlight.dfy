/**
 * The colour and size buffers of updateVisualization, as values. Colours are
 * a flat r, g, b buffer (three channels per star), sizes one value per star.
 * Each word highlights a list of hits (a star and an intensity in [0, 1]);
 * each hit max-combines the word's sequence colour, boosted, into the star's
 * channels and a boosted size into the star's size.
 */
module Highlight {

  datatype Rgb = Rgb(r: real, g: real, b: real)

  /** SEQUENCE_COLORS: red, green, blue, yellow, magenta, cyan. */
  const SequenceColors: seq<Rgb> := [
    Rgb(1.0, 0.2, 0.2), Rgb(0.2, 1.0, 0.2), Rgb(0.2, 0.5, 1.0),
    Rgb(1.0, 1.0, 0.2), Rgb(1.0, 0.2, 1.0), Rgb(0.2, 1.0, 1.0)
  ]

  /** Dimming factor applied to every star before highlighting. */
  const DimFactor: real := 0.3
  /** Size of a star that is not highlighted. */
  const BaseSize: real := 1.0

  /** The colour of the word at position `w` of the sequence. */
  function ColorOf(w: nat): (c: Rgb)
    ensures c in SequenceColors
  {
    SequenceColors[w % |SequenceColors|]
  }

  /** The colours repeat every six words, and six words in a row all differ. */
  lemma ColorCycle(w: nat)
    ensures ColorOf(w + 6) == ColorOf(w)
    ensures forall v: nat :: w < v < w + 6 ==> ColorOf(v) != ColorOf(w)
  {
    assert (w + 6) % 6 == w % 6;
    forall v: nat | w < v < w + 6 ensures ColorOf(v) != ColorOf(w) {
      assert v % 6 != w % 6;
    }
  }

  function Channel(c: Rgb, k: nat): real
    requires k < 3
  {
    if k == 0 then c.r else if k == 1 then c.g else c.b
  }

  /** Math.max. */
  function Max(a: real, b: real): (m: real)
    ensures m >= a && m >= b
    ensures m == a || m == b
  {
    if a >= b then a else b
  }

  /** A star in a word's neighbour cloud and how strongly it is lit. */
  datatype Hit = Hit(id: nat, intensity: real)

  /** The colour `col` boosted for bloom, for channel `k`. */
  function Contribution(col: Rgb, h: Hit, k: nat): (v: real)
    requires k < 3
    ensures 0.0 <= Channel(col, k) && 0.0 <= h.intensity ==> 0.0 <= v
    ensures 0.0 <= Channel(col, k) && h.intensity <= 1.0 ==> v <= 2.0 * Channel(col, k)
  {
    Channel(col, k) * h.intensity * 2.0
  }

  /** The boosted size of a hit star. */
  function SizeContribution(h: Hit): (v: real)
    ensures 0.0 <= h.intensity <= 1.0 ==> 2.0 <= v <= 5.0
  {
    2.0 + h.intensity * 3.0
  }

  /** Every channel at 30% of the original colour. */
  function Dimmed(original: seq<real>): (r: seq<real>)
    ensures |r| == |original|
    ensures forall c :: 0 <= c < |r| ==> r[c] == original[c] * DimFactor
  {
    seq(|original|, c requires 0 <= c < |original| => original[c] * DimFactor)
  }

  /** Every star at the base size. */
  function BaseSizes(n: nat): (r: seq<real>)
    ensures |r| == n
    ensures forall i :: 0 <= i < n ==> r[i] == BaseSize
  {
    seq(n, i => BaseSize)
  }

  /** Every hit names a star of an `n`-star buffer. */
  predicate HitsIn(hits: seq<Hit>, n: nat) {
    forall h :: 0 <= h < |hits| ==> hits[h].id < n
  }

  predicate ListsIn(lists: seq<seq<Hit>>, n: nat) {
    forall w :: 0 <= w < |lists| ==> HitsIn(lists[w], n)
  }

  /** Every hit's three channels lie in a colour buffer of length `len`. */
  predicate ChannelsIn(hits: seq<Hit>, len: nat) {
    forall h :: 0 <= h < |hits| ==> 3 * hits[h].id + 2 < len
  }

  predicate ListChannelsIn(lists: seq<seq<Hit>>, len: nat) {
    forall w :: 0 <= w < |lists| ==> ChannelsIn(lists[w], len)
  }

  /** Star `p` occurs in none of the lists. */
  predicate Untouched(lists: seq<seq<Hit>>, p: nat) {
    forall w, h :: 0 <= w < |lists| && 0 <= h < |lists[w]| ==> lists[w][h].id != p
  }

  predicate IntensitiesInUnit(lists: seq<seq<Hit>>) {
    forall w, h :: 0 <= w < |lists| && 0 <= h < |lists[w]| ==> 0.0 <= lists[w][h].intensity <= 1.0
  }

  // ---------------------------------------------------------------- colours

  /** One hit: the three channels of its star each become the max of old and boosted. */
  function BoostColor(cols: seq<real>, col: Rgb, h: Hit): (r: seq<real>)
    requires 3 * h.id + 2 < |cols|
    ensures |r| == |cols|
  {
    var i := 3 * h.id;
    cols[i := Max(cols[i], Contribution(col, h, 0))]
        [i + 1 := Max(cols[i + 1], Contribution(col, h, 1))]
        [i + 2 := Max(cols[i + 2], Contribution(col, h, 2))]
  }

  /** One hit raises its star's three channels to the boosted colour where that is brighter, and touches nothing else. */
  lemma BoostColorEffect(cols: seq<real>, col: Rgb, h: Hit)
    requires 3 * h.id + 2 < |cols|
    ensures var r := BoostColor(cols, col, h);
      && (forall k :: 0 <= k < 3 ==> r[3 * h.id + k] == Max(cols[3 * h.id + k], Contribution(col, h, k)))
      && (forall c :: 0 <= c < |cols| && (c < 3 * h.id || 3 * h.id + 2 < c) ==> r[c] == cols[c])
  {
  }

  /** The hits of one word, applied in order. */
  function ApplyColor(cols: seq<real>, col: Rgb, hits: seq<Hit>): (r: seq<real>)
    requires ChannelsIn(hits, |cols|)
    ensures |r| == |cols|
  {
    if hits == [] then cols
    else BoostColor(ApplyColor(cols, col, hits[..|hits| - 1]), col, hits[|hits| - 1])
  }

  /** Every word's hits, word `w` in colour ColorOf(w), applied in sequence order. */
  function PaintColors(cols: seq<real>, lists: seq<seq<Hit>>): (r: seq<real>)
    requires ListChannelsIn(lists, |cols|)
    ensures |r| == |cols|
  {
    if lists == [] then cols
    else ApplyColor(PaintColors(cols, lists[..|lists| - 1]), ColorOf(|lists| - 1), lists[|lists| - 1])
  }

  lemma {:induction false} ApplyColorAtLeast(cols: seq<real>, col: Rgb, hits: seq<Hit>)
    requires ChannelsIn(hits, |cols|)
    ensures forall c :: 0 <= c < |cols| ==> ApplyColor(cols, col, hits)[c] >= cols[c]
  {
    if hits != [] {
      ApplyColorAtLeast(cols, col, hits[..|hits| - 1]);
    }
  }

  /** Highlighting only raises channels. */
  lemma {:induction false} PaintColorsAtLeast(cols: seq<real>, lists: seq<seq<Hit>>)
    requires ListChannelsIn(lists, |cols|)
    ensures forall c :: 0 <= c < |cols| ==> PaintColors(cols, lists)[c] >= cols[c]
  {
    if lists != [] {
      var prev := lists[..|lists| - 1];
      PaintColorsAtLeast(cols, prev);
      ApplyColorAtLeast(PaintColors(cols, prev), ColorOf(|lists| - 1), lists[|lists| - 1]);
    }
  }

  lemma {:induction false} ApplyColorUntouched(cols: seq<real>, col: Rgb, hits: seq<Hit>, p: nat)
    requires ChannelsIn(hits, |cols|)
    requires 3 * p + 2 < |cols|
    requires forall h :: 0 <= h < |hits| ==> hits[h].id != p
    ensures forall c :: 3 * p <= c < 3 * p + 3 ==> ApplyColor(cols, col, hits)[c] == cols[c]
  {
    if hits != [] {
      ApplyColorUntouched(cols, col, hits[..|hits| - 1], p);
    }
  }

  /** A star no word's list names keeps its channels. */
  lemma {:induction false} PaintColorsUntouched(cols: seq<real>, lists: seq<seq<Hit>>, p: nat)
    requires ListChannelsIn(lists, |cols|)
    requires 3 * p + 2 < |cols|
    requires Untouched(lists, p)
    ensures forall c :: 3 * p <= c < 3 * p + 3 ==> PaintColors(cols, lists)[c] == cols[c]
  {
    if lists != [] {
      var prev := lists[..|lists| - 1];
      var last := lists[|lists| - 1];
      PaintColorsUntouched(cols, prev, p);
      assert forall h :: 0 <= h < |last| ==> last[h].id != p by {
        forall h | 0 <= h < |last| ensures last[h].id != p {
          assert lists[|lists| - 1][h] == last[h];
        }
      }
      ApplyColorUntouched(PaintColors(cols, prev), ColorOf(|lists| - 1), last, p);
    }
  }

  lemma {:induction false} ApplyColorCovers(cols: seq<real>, col: Rgb, hits: seq<Hit>)
    requires ChannelsIn(hits, |cols|)
    ensures forall h, k :: 0 <= h < |hits| && 0 <= k < 3 ==>
      ApplyColor(cols, col, hits)[3 * hits[h].id + k] >= Contribution(col, hits[h], k)
  {
    if hits != [] {
      var prev := hits[..|hits| - 1];
      ApplyColorCovers(cols, col, prev);
      assert forall h :: 0 <= h < |prev| ==> prev[h] == hits[h];
    }
  }

  /** Every channel of a hit star is at least that hit's boosted colour. */
  lemma {:induction false} PaintColorsCovers(cols: seq<real>, lists: seq<seq<Hit>>)
    requires ListChannelsIn(lists, |cols|)
    ensures forall w, h, k :: 0 <= w < |lists| && 0 <= h < |lists[w]| && 0 <= k < 3 ==>
      PaintColors(cols, lists)[3 * lists[w][h].id + k] >= Contribution(ColorOf(w), lists[w][h], k)
  {
    if lists != [] {
      var prev := lists[..|lists| - 1];
      var before := PaintColors(cols, prev);
      PaintColorsCovers(cols, prev);
      ApplyColorAtLeast(before, ColorOf(|lists| - 1), lists[|lists| - 1]);
      ApplyColorCovers(before, ColorOf(|lists| - 1), lists[|lists| - 1]);
      assert forall w :: 0 <= w < |prev| ==> prev[w] == lists[w];
    }
  }

  lemma {:induction false} ApplyColorLeast(cols: seq<real>, col: Rgb, hits: seq<Hit>, c: nat, bound: real)
    requires ChannelsIn(hits, |cols|)
    requires c < |cols| && cols[c] <= bound
    requires forall h, k :: 0 <= h < |hits| && 0 <= k < 3 && 3 * hits[h].id + k == c ==>
      Contribution(col, hits[h], k) <= bound
    ensures ApplyColor(cols, col, hits)[c] <= bound
  {
    if hits != [] {
      var prev := hits[..|hits| - 1];
      assert forall h :: 0 <= h < |prev| ==> prev[h] == hits[h];
      ApplyColorLeast(cols, col, prev, c, bound);
    }
  }

  /**
   * A channel ends no higher than any bound that its starting value and every
   * boosted colour aimed at it respect: with PaintColorsAtLeast and
   * PaintColorsCovers, the result is exactly the maximum.
   */
  lemma {:induction false} PaintColorsLeast(cols: seq<real>, lists: seq<seq<Hit>>, c: nat, bound: real)
    requires ListChannelsIn(lists, |cols|)
    requires c < |cols| && cols[c] <= bound
    requires forall w, h, k :: 0 <= w < |lists| && 0 <= h < |lists[w]| && 0 <= k < 3 && 3 * lists[w][h].id + k == c ==>
      Contribution(ColorOf(w), lists[w][h], k) <= bound
    ensures PaintColors(cols, lists)[c] <= bound
  {
    if lists != [] {
      var prev := lists[..|lists| - 1];
      assert forall w :: 0 <= w < |prev| ==> prev[w] == lists[w];
      PaintColorsLeast(cols, prev, c, bound);
      ApplyColorLeast(PaintColors(cols, prev), ColorOf(|lists| - 1), lists[|lists| - 1], c, bound);
    }
  }

  // ---------------------------------------------------------------- sizes

  /** One hit: the star's size becomes the max of old and boosted. */
  function BoostSize(sizes: seq<real>, h: Hit): (r: seq<real>)
    requires h.id < |sizes|
    ensures |r| == |sizes|
  {
    sizes[h.id := Max(sizes[h.id], SizeContribution(h))]
  }

  /** One hit raises its star's size to the boosted size where that is larger, and touches no other star. */
  lemma BoostSizeEffect(sizes: seq<real>, h: Hit)
    requires h.id < |sizes|
    ensures var r := BoostSize(sizes, h);
      && r[h.id] == Max(sizes[h.id], SizeContribution(h))
      && (forall i :: 0 <= i < |sizes| && i != h.id ==> r[i] == sizes[i])
  {
  }

  function ApplySize(sizes: seq<real>, hits: seq<Hit>): (r: seq<real>)
    requires HitsIn(hits, |sizes|)
    ensures |r| == |sizes|
  {
    if hits == [] then sizes
    else BoostSize(ApplySize(sizes, hits[..|hits| - 1]), hits[|hits| - 1])
  }

  function PaintSizes(sizes: seq<real>, lists: seq<seq<Hit>>): (r: seq<real>)
    requires ListsIn(lists, |sizes|)
    ensures |r| == |sizes|
  {
    if lists == [] then sizes
    else ApplySize(PaintSizes(sizes, lists[..|lists| - 1]), lists[|lists| - 1])
  }

  lemma {:induction false} ApplySizeAtLeast(sizes: seq<real>, hits: seq<Hit>)
    requires HitsIn(hits, |sizes|)
    ensures forall i :: 0 <= i < |sizes| ==> ApplySize(sizes, hits)[i] >= sizes[i]
  {
    if hits != [] {
      ApplySizeAtLeast(sizes, hits[..|hits| - 1]);
    }
  }

  /** Highlighting only grows stars. */
  lemma {:induction false} PaintSizesAtLeast(sizes: seq<real>, lists: seq<seq<Hit>>)
    requires ListsIn(lists, |sizes|)
    ensures forall i :: 0 <= i < |sizes| ==> PaintSizes(sizes, lists)[i] >= sizes[i]
  {
    if lists != [] {
      PaintSizesAtLeast(sizes, lists[..|lists| - 1]);
      ApplySizeAtLeast(PaintSizes(sizes, lists[..|lists| - 1]), lists[|lists| - 1]);
    }
  }

  lemma {:induction false} ApplySizeUntouched(sizes: seq<real>, hits: seq<Hit>, p: nat)
    requires HitsIn(hits, |sizes|) && p < |sizes|
    requires forall h :: 0 <= h < |hits| ==> hits[h].id != p
    ensures ApplySize(sizes, hits)[p] == sizes[p]
  {
    if hits != [] {
      ApplySizeUntouched(sizes, hits[..|hits| - 1], p);
    }
  }

  /** A star no word's list names keeps its size. */
  lemma {:induction false} PaintSizesUntouched(sizes: seq<real>, lists: seq<seq<Hit>>, p: nat)
    requires ListsIn(lists, |sizes|) && p < |sizes|
    requires Untouched(lists, p)
    ensures PaintSizes(sizes, lists)[p] == sizes[p]
  {
    if lists != [] {
      var last := lists[|lists| - 1];
      PaintSizesUntouched(sizes, lists[..|lists| - 1], p);
      assert forall h :: 0 <= h < |last| ==> last[h].id != p by {
        forall h | 0 <= h < |last| ensures last[h].id != p {
          assert lists[|lists| - 1][h] == last[h];
        }
      }
      ApplySizeUntouched(PaintSizes(sizes, lists[..|lists| - 1]), last, p);
    }
  }

  lemma {:induction false} ApplySizeCovers(sizes: seq<real>, hits: seq<Hit>)
    requires HitsIn(hits, |sizes|)
    ensures forall h :: 0 <= h < |hits| ==> ApplySize(sizes, hits)[hits[h].id] >= SizeContribution(hits[h])
  {
    if hits != [] {
      var prev := hits[..|hits| - 1];
      ApplySizeCovers(sizes, prev);
      assert forall h :: 0 <= h < |prev| ==> prev[h] == hits[h];
    }
  }

  /** Every hit star is at least as large as that hit's boosted size. */
  lemma {:induction false} PaintSizesCovers(sizes: seq<real>, lists: seq<seq<Hit>>)
    requires ListsIn(lists, |sizes|)
    ensures forall w, h :: 0 <= w < |lists| && 0 <= h < |lists[w]| ==>
      PaintSizes(sizes, lists)[lists[w][h].id] >= SizeContribution(lists[w][h])
  {
    if lists != [] {
      var prev := lists[..|lists| - 1];
      var before := PaintSizes(sizes, prev);
      PaintSizesCovers(sizes, prev);
      ApplySizeAtLeast(before, lists[|lists| - 1]);
      ApplySizeCovers(before, lists[|lists| - 1]);
      assert forall w :: 0 <= w < |prev| ==> prev[w] == lists[w];
    }
  }

  lemma {:induction false} ApplySizeAtMost(sizes: seq<real>, hits: seq<Hit>, bound: real)
    requires HitsIn(hits, |sizes|)
    requires forall i :: 0 <= i < |sizes| ==> sizes[i] <= bound
    requires forall h :: 0 <= h < |hits| ==> SizeContribution(hits[h]) <= bound
    ensures forall i :: 0 <= i < |sizes| ==> ApplySize(sizes, hits)[i] <= bound
  {
    if hits != [] {
      ApplySizeAtMost(sizes, hits[..|hits| - 1], bound);
    }
  }

  /** Sizes stay under any bound that the starting sizes and every boosted size respect. */
  lemma {:induction false} PaintSizesAtMost(sizes: seq<real>, lists: seq<seq<Hit>>, bound: real)
    requires ListsIn(lists, |sizes|)
    requires forall i :: 0 <= i < |sizes| ==> sizes[i] <= bound
    requires forall w, h :: 0 <= w < |lists| && 0 <= h < |lists[w]| ==> SizeContribution(lists[w][h]) <= bound
    ensures forall i :: 0 <= i < |sizes| ==> PaintSizes(sizes, lists)[i] <= bound
  {
    if lists != [] {
      var last := lists[|lists| - 1];
      PaintSizesAtMost(sizes, lists[..|lists| - 1], bound);
      assert forall h :: 0 <= h < |last| ==> SizeContribution(last[h]) <= bound by {
        forall h | 0 <= h < |last| ensures SizeContribution(last[h]) <= bound {
          assert lists[|lists| - 1][h] == last[h];
        }
      }
      ApplySizeAtMost(PaintSizes(sizes, lists[..|lists| - 1]), last, bound);
    }
  }

  lemma {:induction false} ApplySizeLeast(sizes: seq<real>, hits: seq<Hit>, i: nat, bound: real)
    requires HitsIn(hits, |sizes|)
    requires i < |sizes| && sizes[i] <= bound
    requires forall h :: 0 <= h < |hits| && hits[h].id == i ==> SizeContribution(hits[h]) <= bound
    ensures ApplySize(sizes, hits)[i] <= bound
  {
    if hits != [] {
      var prev := hits[..|hits| - 1];
      assert forall h :: 0 <= h < |prev| ==> prev[h] == hits[h];
      ApplySizeLeast(sizes, prev, i, bound);
    }
  }

  /**
   * A star's size ends no higher than any bound that its own starting size and
   * every boosted size aimed at it respect: with PaintSizesAtLeast and
   * PaintSizesCovers, the result is exactly the maximum.
   */
  lemma {:induction false} PaintSizesLeast(sizes: seq<real>, lists: seq<seq<Hit>>, i: nat, bound: real)
    requires ListsIn(lists, |sizes|)
    requires i < |sizes| && sizes[i] <= bound
    requires forall w, h :: 0 <= w < |lists| && 0 <= h < |lists[w]| && lists[w][h].id == i ==>
      SizeContribution(lists[w][h]) <= bound
    ensures PaintSizes(sizes, lists)[i] <= bound
  {
    if lists != [] {
      var prev := lists[..|lists| - 1];
      assert forall w :: 0 <= w < |prev| ==> prev[w] == lists[w];
      PaintSizesLeast(sizes, prev, i, bound);
      ApplySizeLeast(PaintSizes(sizes, prev), lists[|lists| - 1], i, bound);
    }
  }

  /**
   * From all-base sizes and intensities in [0, 1]: every star ends within
   * [1, 5], and every star of some word's list within [2, 5].
   */
  lemma SizesInRange(n: nat, lists: seq<seq<Hit>>)
    requires ListsIn(lists, n) && IntensitiesInUnit(lists)
    ensures forall i :: 0 <= i < n ==> BaseSize <= PaintSizes(BaseSizes(n), lists)[i] <= 5.0
    ensures forall w, h :: 0 <= w < |lists| && 0 <= h < |lists[w]| ==>
      2.0 <= PaintSizes(BaseSizes(n), lists)[lists[w][h].id] <= 5.0
  {
    PaintSizesAtLeast(BaseSizes(n), lists);
    PaintSizesCovers(BaseSizes(n), lists);
    PaintSizesAtMost(BaseSizes(n), lists, 5.0);
  }

  /** One more word's hits: its colour is the next in the sequence. */
  lemma PaintAppend(cols: seq<real>, sizes: seq<real>, lists: seq<seq<Hit>>, hits: seq<Hit>)
    requires ListChannelsIn(lists, |cols|) && ChannelsIn(hits, |cols|)
    requires ListsIn(lists, |sizes|) && HitsIn(hits, |sizes|)
    ensures ListChannelsIn(lists + [hits], |cols|) && ListsIn(lists + [hits], |sizes|)
    ensures PaintColors(cols, lists + [hits]) == ApplyColor(PaintColors(cols, lists), ColorOf(|lists|), hits)
    ensures PaintSizes(sizes, lists + [hits]) == ApplySize(PaintSizes(sizes, lists), hits)
  {
    assert (lists + [hits])[..|lists|] == lists;
  }
}
