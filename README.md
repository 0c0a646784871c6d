# Semantic galaxy core, in Dafny

This project models the logic under the three.js "semantic galaxy" demo in
`src/main_stable_backup.js`. That logic places typed words on stars of a fixed point
field and lights each word's neighbourhood. It has five parts:

- **Word registry.** `getNodeForWord` keeps a case-insensitive map from words to
  star indices and a set of claimed indices. A new word gets a random index. The
  draw is repeated while the index is already claimed, at most 1000 times in
  all, and after that the last draw is kept anyway.
- **Token id.** `getTokenId` computes the Java-style `h * 31 + c` string hash.
  The hash is wrapped to signed 32 bits after every character and then folded
  into `[0, 50000)`.
- **Nearest neighbours.** `getNearestNeighbors` computes the squared distance
  from the target star to every other star, stably sorts the list by distance
  and keeps the first `k`.
- **Highlight buffers.** `updateVisualization` dims every star to 30% of its
  original colour at size 1.0. With no words it restores the original colours.
  Otherwise, for each word in turn, it takes the word's 250 nearest stars and
  max-combines the word's colour into their colour channels. That colour is
  `SEQUENCE_COLORS[w % 6]`, scaled by `intensity * 2`, where
  `intensity = 1 - dist / maxDist`. It also max-combines `2 + 3 * intensity`
  into their sizes.
- **Input handling.** Only the text up to the last `' '` counts. It is trimmed,
  split on `/\s+/` and stripped of empty pieces, and the scene is redrawn only
  when the resulting word list differs from the words on screen. The reset
  button and the start-up call both show the empty word list.

Modules, one per file:

- `config.dfy` (`Config`): the constants `TOTAL_POINTS`, `NEIGHBOR_COUNT`, the
  attempt bound and the token range.
- `js_string.dfy` (`JsString`): the JavaScript string built-ins used here.
  These are `toLowerCase`, `lastIndexOf`, `trim`, `split(/\s+/)` and the
  empty-string filter.
- `input_words.dfy` (`InputWords`): completed-word extraction and the change
  test.
- `token_hash.dfy` (`TokenHash`): the 32-bit hash and `getTokenId`.
- `registry.dfy` (`WordRegistry`): the `Registry` class, which holds the word
  map and the used-index set.
- `neighbors.dfy` (`Neighbors`): the distance loop and an in-place stable
  insertion sort on an array. The distance loop is proved equal to
  `Distances`, and the sort to the functional stable sort `SortByDist`.
- `highlight.dfy` (`Highlight`): the palette, the dimming, and the max-combine
  folds that specify the colour and size buffers.
- `galaxy.dfy` (`Galaxy`): the `Galaxy` class. It holds the positions, the
  original colours, the colour and size buffers (`array<real>`), the registry
  and the current words. `Update`, `OnInput` and `Reset` are its operations.

The buffers are specified by `Galaxy.ColorsFor` and `Galaxy.SizesFor`. These
are functions of the original colours, the positions and the stars the current
words resolve to. `Galaxy.Galaxy.Valid` says the arrays equal them.

The input handler's cut is at the last `' '`, so a word followed only by a tab
or a newline is not completed.

Two facts about the environment are given to the model, not proved:
- The random draws of `getNodeForWord` are passed in as a sequence of indices
  per call.
- `Math.sqrt` is a parameter. All the model assumes of it is that it is
  non-negative and monotone on non-negative reals and positive on positive
  ones.

## Model

| member | source | states |
|---|---|---|
| JsString.IsWhitespace | src/main_stable_backup.js:622 | the characters `\s` matches and `trim` strips: tab, line feed, vertical tab, form feed, carriage return, space, no-break space and the other Unicode space separators, the line and paragraph separators and the byte-order mark |
| JsString.LowerChar | src/main_stable_backup.js:299 | the character is lower-cased: an upper-case letter moves 32 code points on, any other character is kept |
| JsString.LowerCase | src/main_stable_backup.js:299 | toLowerCase keeps the length, leaves no upper-case letter, moves each upper-case letter 32 code points on to its lower-case form, and changes no character that was not upper-case |
| JsString.LowerCaseIdempotent | src/main_stable_backup.js:299 | a lower-cased key lower-cases to itself, so a stored key is found again |
| JsString.LastIndexOf | src/main_stable_backup.js:621 | lastIndexOf(' ') is -1 or a position holding ' ', and no later position holds ' ' |
| JsString.TrimStart | src/main_stable_backup.js:622 | the result is a suffix whose first character is not whitespace, and everything dropped is whitespace |
| JsString.TrimEnd | src/main_stable_backup.js:622 | the result is a prefix whose last character is not whitespace, and everything dropped is whitespace |
| JsString.Trim | src/main_stable_backup.js:622 | trim leaves no whitespace at either end, and the input is a blank lead, then the result, then a blank trail |
| JsString.TrimStartAt | src/main_stable_backup.js:622 | trimming the start cuts exactly the whitespace in front of the first non-whitespace character |
| JsString.TrimEndAt | src/main_stable_backup.js:622 | trimming the end cuts exactly the whitespace behind the last non-whitespace character |
| JsString.TrimBounds | src/main_stable_backup.js:622 | text whose first and last non-whitespace characters sit at p and q-1 trims to the slice from p to q |
| JsString.TrimFrame | src/main_stable_backup.js:622 | blank text on both sides of text with non-whitespace ends is cut away, and nothing else |
| JsString.FirstWhitespace | src/main_stable_backup.js:622 | the index of the first whitespace character, or the length when there is none |
| JsString.SplitWhitespace | src/main_stable_backup.js:622 | split(/\s+/) gives at least one piece, and no piece contains whitespace |
| JsString.NonEmpty | src/main_stable_backup.js:622 | filter(w => w.length > 0) keeps exactly the non-empty pieces and adds none |
| JsString.NonEmptyAppend | src/main_stable_backup.js:622 | filtering a concatenation filters each part |
| JsString.NonEmptySingle | src/main_stable_backup.js:622 | one piece is kept exactly when it is non-empty |
| JsString.NonEmptyKeeps | src/main_stable_backup.js:622 | pieces that are all non-empty are kept whole and in order |
| JsString.NoPiecesOfEmpty | src/main_stable_backup.js:622 | the empty string trims to itself and yields no non-empty piece |
| JsString.SplitNoWhitespace | src/main_stable_backup.js:622 | text without whitespace is a single piece |
| JsString.SplitAfterWord | src/main_stable_backup.js:622 | a word, a whitespace run, then text starting with non-whitespace: the word is the first piece and the rest are the pieces of that text |
| JsString.SplitAppend | src/main_stable_backup.js:622 | a whitespace run between two texts is a cut: the pieces of the whole are the pieces of the left text followed by those of the right |
| JsString.JoinEnds | src/main_stable_backup.js:622 | words joined by whitespace runs start with the first word's first character and end with the last word's last |
| JsString.SplitJoin | src/main_stable_backup.js:622 | split(/\s+/) recovers exactly the words of text made of words joined by whitespace runs |
| JsString.SplitIsJoin | src/main_stable_backup.js:622 | text with non-whitespace ends is its pieces, every one a non-empty word without whitespace, joined by non-empty whitespace runs |
| JsString.RemoveWhitespaceTrim | src/main_stable_backup.js:622 | trim drops nothing but whitespace |
| JsString.RemoveWhitespaceHead | src/main_stable_backup.js:622 | the leading run of non-whitespace survives whole ahead of the rest of the text |
| JsString.FlattenSplit | src/main_stable_backup.js:622 | the pieces of split(/\s+/), glued back together, are exactly the non-whitespace characters of the text, in order |
| JsString.FlattenNonEmpty | src/main_stable_backup.js:622 | dropping the empty pieces loses no character |
| InputWords.CompletedText | src/main_stable_backup.js:621 | the completed text is a prefix of the input that is empty or ends in ' ', and no ' ' follows it |
| InputWords.CompletedWords | src/main_stable_backup.js:622 | every completed word is non-empty and has no whitespace |
| InputWords.NoSpaceNoWords | src/main_stable_backup.js:621-622 | text without a ' ' yields no words |
| InputWords.TypingIgnored | src/main_stable_backup.js:621-622 | characters typed after the last ' ' change neither the completed text nor the words |
| InputWords.CompletedWordsOfJoin | src/main_stable_backup.js:621-622 | blank text, words joined by whitespace runs, blank text ending in ' ', then a word being typed: the completed words are exactly those words |
| InputWords.CompletedWordsJoin | src/main_stable_backup.js:621-622 | the trimmed completed text is empty exactly when there are no completed words, and otherwise it is the completed words joined by non-empty whitespace runs |
| InputWords.CompletedWordsKeepText | src/main_stable_backup.js:621-622 | the completed words hold every non-whitespace character of the completed text, in order, and nothing else |
| InputWords.WordsChanged | src/main_stable_backup.js:624 | the length-or-element test is true exactly when the two word lists differ |
| TokenHash.ToInt32 | src/main_stable_backup.js:318 | the bitwise or with 0 yields a signed 32-bit value, and it leaves a value already in range unchanged |
| TokenHash.Step | src/main_stable_backup.js:317-318 | one loop step leaves the hash in signed 32-bit range |
| TokenHash.StepIsTimes31 | src/main_stable_backup.js:317-318 | `((hash << 5) - hash) + code`, wrapped, is the 32-bit wrap of `31 * hash + code` |
| TokenHash.Hash | src/main_stable_backup.js:315-319 | the running hash stays in signed 32-bit range |
| TokenHash.HashIsWrappedPolynomial | src/main_stable_backup.js:315-319 | wrapping after every character gives the 32-bit wrap of the exact polynomial hash, sum of code * 31^k |
| TokenHash.Abs | src/main_stable_backup.js:320 | Math.abs gives x or -x, and never a negative value |
| TokenHash.TokenIdOf | src/main_stable_backup.js:320 | the token id lies in [0, 50000), and the empty word gets 0 |
| TokenHash.TokenId | src/main_stable_backup.js:314-321 | the character loop computes TokenIdOf, so the result lies in [0, 50000) |
| WordRegistry.StopAt | src/main_stable_backup.js:304-307 | the retry loop stops before the 1000th attempt ends, at the first unclaimed draw or at the last attempt, and every earlier draw was claimed |
| WordRegistry.Pick | src/main_stable_backup.js:302-307 | the index a new word receives is one of the first 1000 draws, and so a star |
| WordRegistry.PickProperties | src/main_stable_backup.js:302-307 | the new index is a star; it is unclaimed exactly when some allowed attempt drew an unclaimed index, and it is then the first such draw |
| WordRegistry.Assign | src/main_stable_backup.js:298-311 | getNodeForWord on the map: the keys grow by exactly the word's lower-cased key, old entries keep their stars, and a new key gets the Pick against the stars in use |
| WordRegistry.Resolve | src/main_stable_backup.js:380-383 | resolving the words in order keeps every old entry, registers every word, and adds no key that is not some word's |
| WordRegistry.ResolveKnown | src/main_stable_backup.js:299-300 | words that are all registered already leave the map unchanged |
| WordRegistry.ResolveSnoc | src/main_stable_backup.js:380-383 | resolving one more word is one more Assign on the map so far |
| WordRegistry.Registry.constructor | src/main_stable_backup.js:285-286 | the map and the used set start empty |
| WordRegistry.Registry.NodeForWord | src/main_stable_backup.js:298-312 | a known lower-cased word returns its stored star and changes nothing; a new word gets the Pick of the draws, recorded in the map and the used set; no two words share a star if none did before and the pick was fresh; the new map is Assign of the old |
| WordRegistry.ResolveTwice | src/main_stable_backup.js:299-300 | two spellings of one word that differ only in letter case resolve to the same star, that star is stored under the key, and the second call leaves the map as the first left it |
| Neighbors.DistSqProperties | src/main_stable_backup.js:331-334 | a squared distance is never negative, is symmetric, and is 0 from a star to itself |
| Neighbors.SquaredDistance | src/main_stable_backup.js:331-334 | the loop body's dx * dx + dy * dy + dz * dz is DistSq |
| Neighbors.Distances | src/main_stable_backup.js:328-336 | the list of every other star has n-1 entries |
| Neighbors.DistanceEntry | src/main_stable_backup.js:328-336 | every entry of the list is another star with its true squared distance |
| Neighbors.CollectDistances | src/main_stable_backup.js:328-336 | the collecting loop builds exactly Distances |
| Neighbors.DistancesUpTo | src/main_stable_backup.js:328-336 | after i loop steps the list holds every star below i except the target, in index order, each with its squared distance |
| Neighbors.DistancesHas | src/main_stable_backup.js:329-336 | the list has n-1 entries, and every other star has an entry with its true squared distance |
| Neighbors.Insert | src/main_stable_backup.js:338 | inserting one entry adds exactly that entry |
| Neighbors.SortByDist | src/main_stable_backup.js:338 | the stable sort is a permutation of its input |
| Neighbors.SortByDistStrictlySorted | src/main_stable_backup.js:338 | a list in index order sorts to ascending distance, with ties in index order |
| Neighbors.InsertStrictlySorted | src/main_stable_backup.js:338 | inserting an entry of larger index than all others into an ordered list keeps it ordered |
| Neighbors.StrictlySortedUnique | src/main_stable_backup.js:338 | two ordered lists with the same entries are equal, so any stable sort by distance of this list has the same result |
| Neighbors.SwapDown | src/main_stable_backup.js:338 | exchanges two adjacent entries and keeps the same entries |
| Neighbors.InsertAt | src/main_stable_backup.js:338 | one insertion step extends the ordered prefix by one, leaves the suffix alone and keeps the same entries |
| Neighbors.SortStable | src/main_stable_backup.js:338 | the in-place sort leaves the array equal to SortByDist of its old contents |
| Neighbors.SortedEntries | src/main_stable_backup.js:328-338 | the sorted list has n-1 entries, each another star with its true squared distance |
| Neighbors.SortedPosition | src/main_stable_backup.js:328-338 | every star other than the target appears in the sorted list with its true squared distance |
| Neighbors.Nearest | src/main_stable_backup.js:338-339 | slice(0, k) keeps at most k entries |
| Neighbors.NearestEntries | src/main_stable_backup.js:328-339 | the result has min(k, n-1) entries, none of them the target, each with its true squared distance |
| Neighbors.NearestSorted | src/main_stable_backup.js:338-339 | the result is ordered by distance, ties by index |
| Neighbors.NearestProperties | src/main_stable_backup.js:328-339 | min(k, n-1) entries, distinct stars, none the target, ascending by squared distance |
| Neighbors.NearestOmitted | src/main_stable_backup.js:338-339 | a star left out is at least as far as every star kept, and with k >= n-1 none is left out |
| Neighbors.NearestNeighbors | src/main_stable_backup.js:323-340 | the loop plus the in-place sort return Nearest, which has min(k, n-1) ordered entries |
| Highlight.ColorOf | src/main_stable_backup.js:289-296 | word w's colour is one of the six SEQUENCE_COLORS |
| Highlight.ColorCycle | src/main_stable_backup.js:391 | the colours repeat every six words, and the colours of six consecutive words all differ |
| Highlight.Contribution | src/main_stable_backup.js:419-421 | the boosted channel is non-negative for a non-negative channel and intensity, and at most twice the channel for an intensity at most 1 |
| Highlight.SizeContribution | src/main_stable_backup.js:423 | the boosted size lies in [2, 5] for an intensity in [0, 1] |
| Highlight.BoostColor | src/main_stable_backup.js:419-421 | one hit keeps the length of the colour buffer |
| Highlight.BoostColorEffect | src/main_stable_backup.js:419-421 | one hit max-combines its star's three channels with the boosted colour and changes no other channel |
| Highlight.ApplyColor | src/main_stable_backup.js:413-424 | a word's hits applied in order keep the length of the colour buffer |
| Highlight.PaintColors | src/main_stable_backup.js:381-424 | every word's hits, word w in colour w, keep the length of the colour buffer |
| Highlight.BoostSize | src/main_stable_backup.js:423 | one hit keeps the length of the size buffer |
| Highlight.BoostSizeEffect | src/main_stable_backup.js:423 | one hit max-combines its star's size with the boosted size and changes no other size |
| Highlight.ApplySize | src/main_stable_backup.js:413-424 | a word's hits applied in order keep the length of the size buffer |
| Highlight.PaintSizes | src/main_stable_backup.js:381-424 | every word's hits keep the length of the size buffer |
| Highlight.Max | src/main_stable_backup.js:419-423 | Math.max returns one of its arguments, and it is at least both |
| Highlight.Dimmed | src/main_stable_backup.js:352-355 | every channel is 0.3 times the original |
| Highlight.BaseSizes | src/main_stable_backup.js:356 | every size is 1.0 |
| Highlight.PaintColorsAtLeast | src/main_stable_backup.js:413-424 | max-combining never darkens a channel |
| Highlight.PaintColorsUntouched | src/main_stable_backup.js:413-424 | a star in no cloud keeps its three channels |
| Highlight.PaintColorsCovers | src/main_stable_backup.js:413-424 | each neighbour of word w ends at least as bright as w's colour times intensity times 2, in every channel |
| Highlight.PaintColorsLeast | src/main_stable_backup.js:413-424 | a channel ends no brighter than any bound that covers its starting value and every contribution to it: the max-combine adds nothing beyond its inputs |
| Highlight.PaintSizesAtLeast | src/main_stable_backup.js:423 | max-combining never shrinks a star |
| Highlight.PaintSizesUntouched | src/main_stable_backup.js:423 | a star in no cloud keeps its size |
| Highlight.PaintSizesCovers | src/main_stable_backup.js:423 | each neighbour ends at least 2 + 3 * intensity in size |
| Highlight.PaintSizesAtMost | src/main_stable_backup.js:423 | no size exceeds a bound that every starting size and every contribution of every word respect |
| Highlight.ApplySizeLeast | src/main_stable_backup.js:413-424 | over one word's hits, a star's size stays under a bound that its own start and the contributions aimed at it respect |
| Highlight.PaintSizesLeast | src/main_stable_backup.js:381-424 | a star's size stays under a bound that its own start and every contribution aimed at it respect; with PaintSizesAtLeast and PaintSizesCovers it is exactly their maximum |
| Highlight.SizesInRange | src/main_stable_backup.js:352-424 | from base size 1.0 with intensities in [0, 1], every size lies in [1, 5] and every neighbour's size in [2, 5] |
| Highlight.PaintAppend | src/main_stable_backup.js:381-425 | one more word applies its cloud on top of the buffers of the words before it |
| Galaxy.Intensity | src/main_stable_backup.js:410-416 | 1 - dist / maxDist lies in [0, 1] when dist is between 0 and maxDist, and is 0 at maxDist |
| Galaxy.IntensityProperties | src/main_stable_backup.js:410-416 | for neighbours no farther than the farthest, the intensity lies in [0, 1], is 0 at the farthest and does not grow with distance |
| Galaxy.HitsFor | src/main_stable_backup.js:413-416 | one hit per neighbour, for the same star, in the same order |
| Galaxy.HitsForProperties | src/main_stable_backup.js:410-416 | over a list sorted by distance, every intensity lies in [0, 1], intensities never increase, and the farthest is 0 |
| Galaxy.CloudDistances | src/main_stable_backup.js:409-410 | the cloud has 250 stars, none the target, all at positive distance, ascending |
| Galaxy.WordHits | src/main_stable_backup.js:409-416 | a word's cloud is its 250 nearest stars with intensities in [0, 1], brightest first, the farthest at 0 |
| Galaxy.AllHits | src/main_stable_backup.js:381-425 | one cloud per word, in word order, each naming stars of the field |
| Galaxy.AllHitsAppend | src/main_stable_backup.js:381-425 | one more word adds its cloud at the end |
| Galaxy.NodesOf | src/main_stable_backup.js:381-383 | one star per word |
| Galaxy.ColorsFor | src/main_stable_backup.js:351-425 | the colour buffer for a word list covers every channel of the field |
| Galaxy.SizesFor | src/main_stable_backup.js:351-425 | the size buffer for a word list covers every star of the field |
| Galaxy.CloudMembership | src/main_stable_backup.js:409-424 | a star is among some word's nearest neighbours exactly when some hit list names it |
| Galaxy.StarColor | src/main_stable_backup.js:351-425 | with no words a star shows its original colour; otherwise each channel is at least 0.3 of the original, and exactly that when the star is in no cloud |
| Galaxy.StarSize | src/main_stable_backup.js:351-425 | every size is in [1, 5]; a star in no cloud has size 1.0, and a star in some cloud at least 2 |
| Galaxy.CloudLit | src/main_stable_backup.js:413-421 | each star in word w's cloud has every channel at least w's colour times its intensity times 2 |
| Galaxy.ShowsPainted | src/main_stable_backup.js:351-425 | with at least one word, the specified buffers are the dimmed buffers with every word's cloud painted on |
| Galaxy.ShowsNothing | src/main_stable_backup.js:351-370 | with no words, the specified buffers are the original colours and the base sizes |
| Galaxy.Galaxy.constructor | src/main_stable_backup.js:674 | the start-up scene shows no words over an empty registry |
| Galaxy.Galaxy.Update | src/main_stable_backup.js:343-428 | afterwards the buffers show exactly the given words, whatever they held before; the registry is Resolve of the old one over the words, so old entries are kept and new ones come only from the words |
| Galaxy.Galaxy.DimAll | src/main_stable_backup.js:351-357 | every channel is 0.3 times the original and every size 1.0 |
| Galaxy.Galaxy.RestoreAll | src/main_stable_backup.js:364-370 | every channel is back to the original and every size 1.0 |
| Galaxy.Galaxy.PaintWords | src/main_stable_backup.js:380-425 | from the dimmed buffers, the registry becomes Resolve of the old one over the words, and the buffers show the clouds of the words' stars in order |
| Galaxy.Galaxy.PaintWord | src/main_stable_backup.js:381-424 | one word is resolved to a star: the registry becomes Assign of the old one, a new word gets the Pick of its draws, no two words share a star if none did before and the pick was fresh, and the star's cloud is added to the buffers |
| Galaxy.Galaxy.AddWord | src/main_stable_backup.js:381-383 | registering one more word keeps the registry an extension of the starting one, and the stars grow by that word's star |
| Galaxy.Galaxy.ApplyCloud | src/main_stable_backup.js:409-424 | the neighbour query and the forEach add exactly the word's cloud to both buffers |
| Galaxy.Galaxy.LightAll | src/main_stable_backup.js:413-424 | the forEach applies every neighbour's hit to both buffers |
| Galaxy.Galaxy.Light | src/main_stable_backup.js:414-423 | one neighbour's three channels and its size are max-combined with its contribution, and nothing else changes |
| Galaxy.Galaxy.OnInput | src/main_stable_backup.js:621-625 | the scene shows the input's completed words afterwards, and nothing changes when they equal the words already shown; the registry is Resolve of the old one over the completed words, so old entries are kept and new keys come only from those words |
| Galaxy.Galaxy.Reset | src/main_stable_backup.js:641-645 | every star is back to its original colour at size 1.0, no words are shown, and the registry is kept |

## Left out

- Point-field and background generation (`src/main_stable_backup.js:144-276`): random sampling and trigonometry. The positions and original colours are parameters of `Galaxy.Galaxy.constructor`.
- Sprites, the path, the tube and beam geometry, textures and the bloom set-up (lines 17-126 and 359-360, 388-406, 430-449): three.js calls with no state the core reads back.
- Camera framing, the navigation panel and its coordinate and bearing strings (lines 371-376, 452-528): floating-point trigonometry and DOM writes. `TokenHash.TokenId` models the token id that panel displays, but the display itself is left out.
- The HTML overlay of the input (lines 604-619), the status line (lines 627-633), and the reset handler's clearing of the input field and overlay (lines 642-643): `innerHTML` building. These writes do not feed back into the core.
- Mouse, wheel, toggle and scroll handlers, the animation loop and the resize handler (lines 530-595, 637-639, 648-671): event plumbing and per-frame camera easing.
- Float32 rounding of the position, colour and size buffers: all values are exact reals.
- `Math.random`: each call to `WordRegistry.Registry.NodeForWord` is given its draws as a sequence of at least 1000 indices below `TOTAL_POINTS`, and only the first 1000 can be used.
- `Math.sqrt` is the parameter `sqrt`, assumed non-negative and monotone on non-negative reals and positive on positive ones (`Galaxy.SqrtLike`); its actual values are not modelled.
- `JsString.LowerCase`: lower-cases only Basic Latin and Latin-1 letters. Characters whose `toLowerCase` mapping lies elsewhere in Unicode keep their case.
- `TokenHash.TokenId`: takes one code point per character, where `charCodeAt` reads UTF-16 code units. The two agree on the Basic Multilingual Plane only.
- `Galaxy.Galaxy.Update`: requires no two stars at the same position (`Galaxy.ValidSpace`), which the source does not check. This makes the farthest neighbour's distance positive, so `dist / maxDist` at line 416 never divides by zero. The source would give NaN intensities only if the 250th neighbour sat on the word's own star. The same requirement applies to `Galaxy.Galaxy.OnInput`, `Galaxy.Galaxy.Reset` and `Galaxy.Galaxy.constructor`.
- `Galaxy.Galaxy.Update`: states what the colour and size buffers hold afterwards. The `needsUpdate` flags (lines 372-373, 427-428) tell the renderer to re-upload and are not modelled.
