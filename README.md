# Image classification kernel

A Dafny model of the part of the browser image classifier that runs before and
after the neural network:

- **Tensor packing.** A decoded, already resized RGBA bitmap (bytes R, G, B, A per
  pixel, row-major) becomes a planar float tensor with one plane per colour channel,
  each byte divided by 255. The helper module `src/ml.ts` does this with a nested
  row/column loop that writes into a zero-filled buffer (`convertImageToTensor`). The
  page component `src/App.tsx` splits the bitmap into red, green and blue arrays,
  concatenates them and copies the result into a buffer (`processImageML`).
- **Top-N selection.** `getTopClasses` pairs every probability with its class index,
  sorts the pairs by descending probability with JavaScript's stable sort, keeps the
  first `n` with `slice(0, n)` and attaches the class names. `src/ml.ts` title-cases
  each name there. `src/App.tsx` keeps the raw name and title-cases it when the list
  is rendered.
- **Title-casing.** `capital` is a global replace of every match of `\w\S*` (a word
  character and the run of non-whitespace after it) by the match with its first
  character uppercased and the rest lowercased.

Modules:

- `Pixels` (`pixels.dfy`) holds what both packers share:
  - bytes;
  - the JavaScript `undefined` that an out-of-range typed-array read yields (`None`);
  - Float32Array slots (`Num(r)` or `NaN`);
  - typed-array writes, where a write past the end is dropped;
  - the index arithmetic.
- `Ml` (`ml.dfy`) models `src/ml.ts`.
- `App` (`app.dfy`) models `src/App.tsx`.
- `Ranking` (`ranking.dfy`) holds the pairing, sort and slice pipeline that both
  `getTopClasses` functions share.
- `TitleCase` (`title_case.dfy`) holds `capital`. The two copies of `capital` in the
  source are textually identical, so it is defined once.

The packers are methods over arrays with loop invariants, proved against the
specification functions `Ml.Planar` and `App.Copied(App.Transposed(..))`. These two
functions are shown to agree on every bitmap of `4 * h * w` bytes. Top-N selection
and `capital` are pure pipelines in the source, and are functions here. `capital` is
proved equal to a position-by-position reference definition (`TitleCase.TitleAt`),
and its properties are proved from that.

Inputs that come from outside the kernel are parameters:

- the resized bitmap bytes;
- the `dims` argument, as a record `Dims(batch, channels, height, width)`;
- the probability vector;
- the class list;
- the softmax, for `formatOutput`.

## Model

| member | source | states |
|---|---|---|
| Pixels.Normalize | src/ml.ts:22 | dividing a byte by 255 gives a number in [0, 1] that is 1/255 of the byte; dividing `undefined` gives NaN |
| Pixels.NormalizeInjective | src/ml.ts:22-24 | normalisation loses no information: equal normalised values come from equal reads |
| Pixels.Store | src/App.tsx:133 | the array write leaves the array holding `Stored` of its old contents |
| Pixels.Decompose | src/ml.ts:22-24 | every slot of a buffer of `planes` planes of `n` slots is slot `q < n` of some plane `c < planes` |
| Pixels.SlotEq | src/ml.ts:22-24 | two planar slots `c * n + q` coincide exactly when plane and position do |
| Pixels.ByteOffset | src/ml.ts:21-24 | byte `c < 4` of pixel `p` is at offset `p * 4 + c`, whose remainder mod 4 is `c`, so only `c == 3` reads alpha |
| Pixels.PixelBound | src/ml.ts:19-21 | pixel `y * w + x` of an `h` x `w` image is below `h * w` |
| Ml.Planar | src/ml.ts:14-15 | the tensor has exactly `channels * h * w` slots |
| Ml.PlanarAtSlot | src/ml.ts:22-24 | slot `q` of plane `c` is byte `c` of pixel `q` divided by 255 for `c < 3`, and 0 in any further plane |
| Ml.PlanarLayout | src/ml.ts:19-24 | for every `y < h`, `x < w` and `c` among R, G, B with room in the buffer, slot `c * h * w + y * w + x` is `data[(y * w + x) * 4 + c] / 255` |
| Ml.PlaneIndexInjective | src/ml.ts:22-24 | with three channels, no two (channel, row, column) triples are sent to the same slot |
| Ml.PlaneIndexSurjective | src/ml.ts:19-24 | every slot below `3 * h * w` is reached by some (channel, row, column) triple; with injectivity, every slot is written exactly once |
| Ml.PlanarInUnitRange | src/ml.ts:22-24 | for a bitmap of at least `4 * h * w` bytes, every slot is a number in [0, 1] |
| Ml.PlanarIgnoresAlpha | src/ml.ts:21-24 | bitmaps that differ only in alpha bytes pack to the same tensor |
| Ml.Packed | src/ml.ts:15-27 | length only, content in `Ml.PackedAt`: the buffer while the loop runs has the full length `channels * n` at every point |
| Ml.PackedAt | src/ml.ts:19-24 | slot `q` of plane `c` holds its final value once pixel `q` has been packed, and is still 0 before that |
| Ml.PackSlot | src/ml.ts:22-24 | packing pixel `p` changes only the slots at position `p` of the R, G and B planes, each to its own byte |
| Ml.PackPixel | src/ml.ts:22-24 | the three writes for pixel `p` advance the packed prefix from `p` pixels to `p + 1` |
| Ml.PackedAll | src/ml.ts:19-27 | once all `h * w` pixels are packed, the buffer is the planar tensor |
| Ml.StorePixel | src/ml.ts:21-24 | one pass of the column loop body adds pixel `p` to the packed prefix |
| Ml.ConvertImageToTensor | src/ml.ts:13-27 | the returned buffer is fresh, has `channels * height * width` slots, and is the planar tensor of the bitmap; the loop invariants keep `pixelIndex` equal to the pixels visited, which is `h * w` at the end |
| Ml.GetTopClasses | src/ml.ts:67-85 | length only, content in `Ml.GetTopClassesSpec`: on success, one prediction per kept entry |
| Ml.GetTopClassesSpec | src/ml.ts:67-85 | the call throws exactly when a kept index has no class name, and never when every probability has a name. Otherwise it returns `min(n, |probs|)` entries for `n >= 0` (JavaScript `slice` semantics for negative `n`). Each entry has an in-range, distinct index, `probability == probs[idx]` and `name == capital(classList[idx])`. Entries come in non-increasing probability, ties in ascending index |
| Ml.GetTopClassesIsTop | src/ml.ts:75-77 | every class index left out has a probability no higher than any kept entry's, and on a tie it has the higher index |
| Ml.FormatOutput | src/ml.ts:45-51 | for any softmax, at most five predictions, and no exception when every probability has a class name |
| Ranking.Pair | src/ml.ts:69-72 | length only, content in `Ranking.SortedEntries`: one pair per probability |
| Ranking.Insert | src/ml.ts:75 | insertion adds exactly the new entry to the list's multiset |
| Ranking.SortDesc | src/ml.ts:75 | the sort permutes its input |
| Ranking.InsertOrdered | src/ml.ts:75 | inserting an entry with a lower index than all others keeps the list in descending-probability, index-stable order |
| Ranking.SortDescOrdered | src/ml.ts:75 | sorting index-ordered pairs gives descending probability with ties in ascending index, which is exactly what a stable sort produces |
| Ranking.OrderedUnique | src/ml.ts:75 | there is only one list in that order for a given multiset of pairs |
| Ranking.TopNOfAnyStableSort | src/App.tsx:156-158 | any stable descending sort followed by `slice(0, n)` gives `TopN`: the result does not depend on the sort algorithm |
| Ranking.SortedEntries | src/ml.ts:69-75 | the sorted list has one entry per probability, each an in-range index with its own probability, and contains every `(i, probs[i])` |
| Ranking.TopNSpec | src/App.tsx:150-158 | the kept entries: `slice` length, in-range distinct indices with their own probabilities, non-increasing probability, ties in ascending index |
| Ranking.TopNIsTop | src/App.tsx:156-158 | an index not kept scores no higher than any kept entry, and on a tie it has the higher index |
| TitleCase.LowerAll | src/ml.ts:90 | length only, content in `TitleCase.MatchTitled`: lowercasing keeps the length |
| TitleCase.RunEnd | src/ml.ts:89 | `\S*` from `j` stops at the first whitespace character or the end, and everything it passes is non-whitespace |
| TitleCase.RunCovered | src/ml.ts:89 | a match started at a word character covers the whole non-whitespace run after it |
| TitleCase.Titled | src/ml.ts:87-92 | length only, content in `TitleCase.CapitalAt`: the reference title-casing keeps the length |
| TitleCase.MatchFirst | src/ml.ts:90 | a match that starts where no earlier match continues has its first character uppercased |
| TitleCase.MatchRest | src/ml.ts:90 | the rest of a match is lowercased |
| TitleCase.MatchTitled | src/ml.ts:89-90 | the lowercased rest of a match is the reference title-casing of that range |
| TitleCase.CapitalFromAt | src/ml.ts:87-92 | scanning from any position that does not continue a match yields the reference title-casing of the rest of the string |
| TitleCase.CapitalAt | src/ml.ts:87-92 | `capital` keeps the length, and each position is uppercased if it starts a match, lowercased if it continues one, and kept otherwise |
| TitleCase.CaseMapping | src/ml.ts:90 | case mapping neither creates nor removes whitespace or word characters, and applying it twice changes nothing more |
| TitleCase.CapitalKeepsSpaces | src/ml.ts:87-92 | `capital` keeps the length and every whitespace position, adds no whitespace, and only changes the case of characters |
| TitleCase.SameCovered | src/ml.ts:89 | strings with whitespace and word characters at the same places have the same matches |
| TitleCase.CapitalIdempotent | src/ml.ts:87-92 | title-casing twice is title-casing once |
| TitleCase.CoveredPrefix | src/ml.ts:89 | appending text does not change the matches of a prefix |
| TitleCase.CoveredSuffix | src/ml.ts:89 | after a whitespace boundary, a suffix has the same matches as it has on its own |
| TitleCase.CapitalConcat | src/ml.ts:87-92 | across a whitespace boundary, `capital` of a concatenation is the concatenation of the `capital`s |
| TitleCase.CapitalWordExample | src/ml.ts:87-92 | "tabby" becomes "Tabby" |
| TitleCase.CapitalWordsExample | src/ml.ts:87-92 | "golden retriever" becomes "Golden Retriever" |
| TitleCase.CapitalUpperExample | src/ml.ts:87-92 | "EGYPTIAN CAT" becomes "Egyptian Cat" |
| TitleCase.CapitalPunctuationExample | src/ml.ts:87-92 | "(abc" becomes "(Abc": the match starts at the first word character |
| App.Channel | src/App.tsx:117-122 | length only, content in `App.ChannelOfBitmap`: one colour entry per pass of the loop, which is the pixel count rounded up |
| App.Transposed | src/App.tsx:125 | the concatenation has three entries per pass of the loop |
| App.Copied | src/App.tsx:131-134 | length only, content in `App.CopiedStep` and `App.AgreesWithConvert`: the buffer always has `dims[1] * dims[2] * dims[3]` slots, whatever the length of the concatenation |
| App.PixelCountBound | src/App.tsx:117 | a loop that steps by 4 until it reaches the length runs `ceil(length / 4)` times |
| App.ChannelOfBitmap | src/App.tsx:117-122 | for a bitmap of `N` whole pixels, each colour array has `N` entries and entry `k` of colour `c` is `data[4k + c]` |
| App.CopiedStep | src/App.tsx:132-134 | one pass of the conversion loop extends the converted prefix by one slot, dropping a write past the end |
| App.ProcessImageML | src/App.tsx:108-134 | the returned buffer is fresh, has `channels * height * width` slots, and holds the concatenated colour arrays divided by 255; slots past the concatenation stay 0 |
| App.TransposedLayout | src/App.tsx:117-125 | slot `c * P + k` of the concatenation is byte `c` of pixel `k`, which is never an alpha byte |
| App.ProcessIgnoresAlpha | src/App.tsx:117-122 | bitmaps that differ only in alpha bytes give the same buffer |
| App.ProcessInUnitRange | src/App.tsx:128-134 | for a bitmap of whole pixels, every slot is a number in [0, 1] |
| App.AgreesAt | src/App.tsx:117-134 | one slot of the two packers agrees |
| App.AgreesWithConvert | src/App.tsx:117-134 | for a bitmap of exactly `4 * h * w` bytes, `processImageML` and `convertImageToTensor` produce the same tensor, for any channel count |
| App.GetTopClasses | src/App.tsx:148-166 | length only, content in `App.GetTopClassesSpec`: one prediction per kept entry |
| App.GetTopClassesSpec | src/App.tsx:148-166 | `min(n, |probs|)` entries for `n >= 0`, each an in-range, distinct index with its own probability, best first, ties in ascending index. The raw class name is present exactly when the list has one, and always when every probability has a name |
| App.RenderedTitled | src/App.tsx:82-88 | rendering throws exactly when some entry has no class name; otherwise it shows every entry in order with its index and probability, and each name is the reference title-casing of the raw name |
| App.RenderedMatchesMl | src/App.tsx:84 | ranking first and title-casing while rendering shows the same list as the helper module's `getTopClasses`, and throws on the same inputs |
| App.RenderTwiceUnchanged | src/App.tsx:84 | title-casing an already title-cased name, as rendering the helper module's output would, changes nothing |

Some definitions carry no contract of their own, because their body is their meaning
and the lemmas above state what they do:
- `TitleCase.Capital` and `TitleCase.CapitalFrom` are `capital` (src/ml.ts:87-92);
- `Ranking.TopN` is the sort-then-slice step (src/ml.ts:75-77);
- `Ranking.SliceEnd` is the end index of `slice(0, n)` (src/ml.ts:77);
- `Ml.PlanarAt` is the value of one tensor slot (src/ml.ts:22-24);
- `App.Rendered` is the title-casing at render time (src/App.tsx:84);
- `Pixels.Read` is a typed-array read (src/ml.ts:22-24);
- `Pixels.Stored` is a typed-array write (src/App.tsx:133);
- `App.PixelCount` is the number of passes of the stride-4 loop (src/App.tsx:117).

## Left out

- `softmax` (src/ml.ts:53-59, src/App.tsx:140-146) rests on `Math.exp` and
  floating-point division. The probabilities are an arbitrary `seq<real>`, and
  `Ml.FormatOutput` takes the softmax as a parameter.
- The conversion of `cpuData` to an array in `formatOutput`, and the same glue in the
  file-reader callback of src/App.tsx, are library glue.
- The React component (src/App.tsx:13-93) is UI and asynchronous I/O: state hooks,
  effects, file readers, JSX and the percentage display. Only the title-casing of
  each name while the prediction list is rendered is modelled, as `App.Rendered`.
- Jimp decoding and `image.resize` are library calls. The model starts from the
  resized bitmap's bytes, so the `width` and `height` parameters, which only feed the
  resize, do not appear.
- The onnxruntime `Tensor` wrapper, `session.run` and `load_model` are library
  calls. The packers return the tensor's data buffer.
- Both packers are `async` (src/ml.ts:4, src/App.tsx:97) and return a Promise of
  the tensor. The Promise wrapper is dropped: neither packer awaits anything, so
  it changes nothing inside the kernel.
- The contents of `classList` come from a module outside the model (`./classes`),
  so the class list is a parameter.
- Float32 rounding of `byte / 255` is not modelled: a slot holds the exact real
  quotient. The only non-number is the NaN that a read past the end of the bitmap
  produces.
- Both packers default `dims` to `[1, 3, 224, 224]` (src/ml.ts:6, src/App.tsx:99),
  and that is the only shape their visible caller passes. Here `dims` is always a
  parameter, and every property is proved for all shapes, that default among them.
- A `dims` array with other than four entries, or with non-integer or negative
  entries, is not modelled. `dims` is a record of four naturals.
- `getTopClasses` with a fractional `n` (JavaScript truncates it) or an omitted `n`
  (default 5) is not modelled: `n` is an integer. `Ml.FormatOutput` passes 5.
- NaN or infinite probabilities are not modelled: the comparator's subtraction is
  exact on reals.
- TitleCase.Upper, TitleCase.Lower: case mapping is ASCII-only. JavaScript's
  `toUpperCase` and `toLowerCase` also map non-ASCII letters, and some of them to
  more than one character. `capital` is therefore exact only where matches hold ASCII
  letters. Its whitespace class is the full ECMAScript one.
- Ml.ConvertImageToTensor: the counter `pixelIndex` is a local that the source
  never reads. The invariants keep it and it is asserted to equal `h * w` after the
  loops, but the contract does not mention it.
- The `push` calls of `processImageML` grow local JavaScript arrays. They are local
  sequence variables that the loop extends. Only the typed arrays are Dafny
  `array`s.
