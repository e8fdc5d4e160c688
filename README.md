# Parasol tarot card: pixel core

This project is a Dafny model of the pixel arithmetic behind the Parasol tarot card generator (`lib/gemini-api.ts`). Card generation runs in this order:

1. An image model returns a cut-out portrait.
2. The light-grey checkerboard backdrop that such models often paint is flood-filled from the image border and made transparent.
3. The bottom 22% of the portrait fades out.
4. A white glow is laid behind the figure.
5. The result is placed on one of five card templates. The template is chosen from the user name.

The model covers steps 2 to 5 wherever they are plain arithmetic over pixels and sizes:

- `Raster`:
  - the RGBA buffer layout;
  - the row-major cell index and its inverse;
  - `Math.round` of a percentage, as exact integer arithmetic.
- `Segmenter`: the border-connected background remover. It is imperative, like the source:
  - a candidate-flag pass over the pixel array;
  - a worklist flood fill with a push helper that marks cells at push time;
  - an alpha-clearing pass.

  Its specification is reachability. A pixel is cleared exactly when a 4-connected path of candidate pixels joins it to the image border.
- `Feather`: the in-place bottom fade, as nested row and pixel loops. It is proved against a per-byte specification.
- `Glow`:
  - the amplification of the blurred mask into a white halo layer, built by a loop over the mask;
  - the zero-size guard;
  - the "return the input on failure" behaviour.
- `Selector`: the template choice from the sum of a name's UTF-16 code units.
- `Placement`: the illustration band, and the centring and clamping of the avatar on the card.

Rounding. `Math.round(x)` is modelled as ⌊x + 1/2⌋ over exact rationals:

- `round(n · p / 100)` is `(p·n + 50) / 100`;
- the feather scale `round(a · (D − k) / D)` is `(2a(D − k) + D) / (2D)`;
- `round(n / 2)` is `(n + 1) / 2`.

Dafny's `/` is floor division for a positive divisor, so these agree with half-up rounding for negative `n` too.

## Model

| member | source | states |
|---|---|---|
| Raster.Idx | lib/gemini-api.ts:106 | the row-major index of an in-image cell is in range, and the row and column can be read back from it, so distinct cells have distinct indices |
| Raster.IdxOfIndex | lib/gemini-api.ts:106 | every index below `width * height` is the index of exactly one in-image cell |
| Raster.Row | lib/gemini-api.ts:198 | the row of a pixel index lies inside the image and brackets the index |
| Raster.RoundPercent | lib/gemini-api.ts:191 | `Math.round(n * p/100)` is the integer nearest to n·p/100, with halves rounded up |
| Raster.RoundPercentMonotone | lib/gemini-api.ts:367-368 | a smaller percentage of the same size never rounds to more, so `minTop <= illustrationBottom` |
| Segmenter.Max3 | lib/gemini-api.ts:121 | the result is the largest of the three channels and one of them |
| Segmenter.Min3 | lib/gemini-api.ts:122 | the result is the smallest of the three channels and one of them |
| Segmenter.MarkCandidates | lib/gemini-api.ts:111-130 | the flag of every pixel is set exactly when it is visible, its brightest channel is at least 220, and its chroma is at most 8 |
| Segmenter.CandidateCell | lib/gemini-api.ts:111-130 | a cell is in the candidate set exactly when its pixel passes the candidate test |
| Segmenter.SeedReachable | lib/gemini-api.ts:142-149 | a border cell that is a candidate is reachable |
| Segmenter.StepReachable | lib/gemini-api.ts:151-157 | a candidate neighbour of a reachable cell is reachable |
| Segmenter.ReachableIsCandidate | lib/gemini-api.ts:133-140 | only candidates are reachable, since the push helper refuses non-candidates |
| Segmenter.PushIfCandidate | lib/gemini-api.ts:133-140 | cells outside the image, non-candidates and already-marked cells are refused. Otherwise the cell is marked and appended to the worklist. Marking and history stay in step, no cell is pushed twice, and the total stays within `width * height` |
| Segmenter.PushedBound | lib/gemini-api.ts:136-138 | distinct in-image cells number at most `width * height`, which bounds the total number of pushes |
| Segmenter.SeedRows | lib/gemini-api.ts:142-145 | after the first seeding loop, both ends of every column are pushed if they are candidates |
| Segmenter.SeedColumns | lib/gemini-api.ts:146-149 | after the second seeding loop, both ends of every row are pushed if they are candidates, and the earlier history is kept as a prefix |
| Segmenter.OfferTwo | lib/gemini-api.ts:153-156 | two offers in a row leave both cells absorbed and extend the worklist by exactly the new pushes |
| Segmenter.OfferNeighbours | lib/gemini-api.ts:152-156 | after offering right, left, down and up, every candidate neighbour of the cell has been pushed |
| Segmenter.ExtendsTransitive | lib/gemini-api.ts:151-157 | successive pushes compose: the worklist grows by the concatenation of the new history |
| Segmenter.SuffixExtends | lib/gemini-api.ts:151-152 | after `shift` and the four pushes, the worklist is still the unprocessed tail of the history |
| Segmenter.HistoryGrows | lib/gemini-api.ts:151-157 | extending the history keeps border cells absorbed and processed cells closed |
| Segmenter.DrainOne | lib/gemini-api.ts:151-157 | one turn of the worklist loop processes the front cell and keeps the loop invariant |
| Segmenter.ClosedHistoryComplete | lib/gemini-api.ts:151-157 | a history that holds every border candidate and all neighbours of its own cells holds every reachable cell |
| Segmenter.DrainedIsReachable | lib/gemini-api.ts:151-157 | when the worklist is empty, the pushed cells are exactly the reachable cells |
| Segmenter.DrainQueue | lib/gemini-api.ts:151-157 | the worklist loop ends, and it ends with the marks set exactly at the reachable cells |
| Segmenter.FloodFromBorder | lib/gemini-api.ts:132-157 | the background flags are set exactly at the border-reachable cells, and each cell was enqueued at most once, at most `width * height` in all |
| Segmenter.ClearBackground | lib/gemini-api.ts:159-167 | exactly the alpha bytes of flagged pixels become 0, and every other byte is unchanged |
| Segmenter.ClearRow | lib/gemini-api.ts:160-166 | one pass of the row loop extends the cleared prefix by one full row |
| Segmenter.ClearPixel | lib/gemini-api.ts:161-165 | one step of the pixel loop zeroes the alpha of a flagged pixel and leaves an unflagged one alone, extending the cleared prefix by one pixel |
| Segmenter.BackgroundRemoved | lib/gemini-api.ts:159-167 | the remover's output changes only alpha bytes, and never raises one |
| Segmenter.RemoveCheckerboardBackground | lib/gemini-api.ts:94-174 | the pixel buffer after the three passes is the input with the alpha of every border-reachable candidate set to 0 |
| Segmenter.RemovedAlpha | lib/gemini-api.ts:159-167 | a pixel's alpha after removal is 0 if the pixel is border-reachable, and unchanged otherwise |
| Segmenter.OnlyCandidatesCleared | lib/gemini-api.ts:111-140 | any byte that changes is the alpha of a pixel that passed the candidate test, and it changes to 0 |
| Segmenter.BorderCandidateCleared | lib/gemini-api.ts:142-149 | every candidate on the image border is cleared |
| Segmenter.ChangedIsReachable | lib/gemini-api.ts:159-167 | a pixel whose alpha the removal changes is border-reachable |
| Segmenter.ClearingSpreads | lib/gemini-api.ts:151-157 | a candidate next to a cleared pixel is cleared too |
| Segmenter.EnclosedUnreachable | lib/gemini-api.ts:133-157 | no fill path enters a region walled off from the border by non-candidates |
| Segmenter.EnclosedRegionKept | lib/gemini-api.ts:133-157 | light pixels enclosed by non-candidates keep their alpha, so white highlights inside the figure survive |
| Segmenter.AllCandidatesCleared | lib/gemini-api.ts:142-167 | an image made only of candidates becomes fully transparent |
| Feather.FeatherStart | lib/gemini-api.ts:191 | the first faded row, `round(0.78 * height)`, is never past the bottom edge (at most `height`), and lies inside the image from height 3 on; for heights 1 and 2 it equals `height` and no row fades |
| Feather.FeatherSpan | lib/gemini-api.ts:192-195 | the divisor `max(1, featherEnd - featherStart)` is at least 1 and at least the number of rows after the first faded row |
| Feather.FeatherAlpha | lib/gemini-api.ts:194-202 | a feathered alpha never exceeds the input alpha. Inside the band, for a visible pixel, it is the nearest integer to a·(D − k)/D |
| Feather.ScaledAlpha | lib/gemini-api.ts:195-201 | `Math.round(a * fade)` is at most `a`, and it is the nearest integer to a·(D − k)/D |
| Feather.ScaledAlphaBounds | lib/gemini-api.ts:195-201 | the integer formula for the rounded scale stays within 0..a and within one half of the exact product |
| Feather.Feathered | lib/gemini-api.ts:194-203 | the feathered buffer keeps every colour byte, raises no alpha, and keeps transparent pixels transparent |
| Feather.ApplyBottomFeather | lib/gemini-api.ts:180-210 | the in-place pass leaves the buffer equal to the feathered buffer of its input |
| Feather.FadeRow | lib/gemini-api.ts:196-202 | one pass of the row loop extends the feathered prefix by one full row |
| Feather.FadePixel | lib/gemini-api.ts:198-201 | one step of the pixel loop extends the feathered prefix by one pixel |
| Feather.UntouchedAboveBand | lib/gemini-api.ts:191-194 | before the loop starts, every pixel above the band already has its final value |
| Feather.AllRowsFeathered | lib/gemini-api.ts:194-203 | once the last row is done, the buffer is the feathered one |
| Feather.RowsAboveBandKept | lib/gemini-api.ts:194 | rows above `featherStart` are unchanged |
| Feather.FirstBandRowKept | lib/gemini-api.ts:195-196 | the first faded row is scaled by exactly 1 |
| Feather.LastRowCleared | lib/gemini-api.ts:192-201 | when the band is more than one row deep, the last row's scale brings every alpha to 0 |
| Feather.LastRowTransparent | lib/gemini-api.ts:192-202 | when the band is more than one row deep, every pixel of the last row ends fully transparent |
| Feather.SingleRowBandKept | lib/gemini-api.ts:191-196 | for heights 3 to 6 the band is the last row alone, scaled by 1, so the bottom edge is not faded at all |
| Feather.ScaledAlphaMonotone | lib/gemini-api.ts:195-201 | a row further down the band, with a larger `k`, never gets a larger rounded alpha |
| Feather.FeatherMonotone | lib/gemini-api.ts:194-202 | for one input alpha, a lower row never ends more opaque than a higher one |
| Glow.Amplify | lib/gemini-api.ts:310 | `min(255, round(2a))` lies between `a` and `2a`, and is either `2a` or 255 |
| Glow.AmplifyMonotone | lib/gemini-api.ts:310 | a stronger mask value never gives a weaker halo alpha |
| Glow.AmplifySaturates | lib/gemini-api.ts:310 | from mask value 128 on, the halo alpha is 255 |
| Glow.GlowRadius | lib/gemini-api.ts:293 | the blur radius is at most the shorter side, and at least 1 once both sides are 5 or more |
| Glow.HaloLayer | lib/gemini-api.ts:307 | the halo buffer holds `width * height` RGBA pixels |
| Glow.BuildHaloLayer | lib/gemini-api.ts:307-317 | the zero-filled buffer, after the loop over the mask, is exactly the halo layer of the mask |
| Glow.HaloPixel | lib/gemini-api.ts:312-316 | each pixel the mask covers is white, with alpha equal to the amplified mask value and at least the mask value |
| Glow.HaloBeyondMask | lib/gemini-api.ts:307 | pixels the mask does not reach stay transparent black |
| Glow.HaloInvisibleIffMaskZero | lib/gemini-api.ts:309-316 | a halo pixel is invisible exactly where the blurred mask is 0 |
| Glow.AddGlowAroundFigure | lib/gemini-api.ts:284-343 | a zero-width or zero-height avatar, or a failed blur, returns the avatar unchanged. Otherwise the result is the composite of the halo under the avatar, or the avatar itself if the composite fails |
| Glow.HaloFitsAvatar | lib/gemini-api.ts:307 | the halo handed to the composite has the avatar's width and height and one RGBA pixel per avatar pixel |
| Selector.Score | lib/gemini-api.ts:69 | the code-unit sum of a name is at most 65535 per character |
| Selector.SelectBackground | lib/gemini-api.ts:67-71 | the choice is always one of the five templates, and a missing or empty name gets `background-01.png` |
| Selector.ScoreAppend | lib/gemini-api.ts:69 | the score of a concatenation is the sum of the scores |
| Selector.ScorePermutation | lib/gemini-api.ts:69 | the score depends only on the multiset of code units |
| Selector.SelectedIndex | lib/gemini-api.ts:68-70 | a non-empty name selects the template at index `score mod 5`, which always lies in 0..4 |
| Selector.AnagramsAgree | lib/gemini-api.ts:67-71 | anagrams get the same template |
| Selector.AppendShifts | lib/gemini-api.ts:69-70 | appending a character moves the index on by its code unit, modulo 5 |
| Selector.AbcExample | lib/gemini-api.ts:67-71 | "abc" scores 294 and gets `background-05.png` |
| Placement.CardBand | lib/gemini-api.ts:367-370 | `minTop <= illustrationBottom <= cardHeight`, `maxAvatarWidth <= cardWidth`, and `maxAvatarHeight` is the non-negative band height |
| Placement.RoundHalf | lib/gemini-api.ts:391 | `Math.round(n / 2)` is the integer nearest n/2, with halves rounded up, for every sign of n |
| Placement.AvatarLeft | lib/gemini-api.ts:391 | the left edge is never negative |
| Placement.AvatarTop | lib/gemini-api.ts:392-396 | the top edge is never above the band |
| Placement.Place | lib/gemini-api.ts:383-396 | every placement's left edge lies between 0 and the card width, and its top edge is at or below the top of the band |
| Placement.PlacedInsideBand | lib/gemini-api.ts:367-396 | an avatar that fits its resize box lies wholly inside the card width and wholly inside the band |
| Placement.PlacedCentred | lib/gemini-api.ts:391-396 | an avatar that fits its box is centred: the left gap equals the right gap or exceeds it by 1, and likewise the gap above and the gap below within the band |
| Placement.WideAvatarPinnedLeft | lib/gemini-api.ts:391 | an avatar at least as wide as the card is pinned to the left edge |
| Placement.TallAvatarPinnedTop | lib/gemini-api.ts:392-396 | an avatar at least as tall as the band is pinned to the top of the band |
| Placement.MissingSizeFillsBox | lib/gemini-api.ts:384-396 | missing metadata places the avatar as if it filled its box, at the top of the band |

## Left out

- The image model call is not modelled: the Gemini client, the API key check, the prompt and the model fallback loop (lib/gemini-api.ts:18-61, 216-277). They are network calls and configuration.
- `generateParasolTarotCard` and `getAssignedStyleName` (lib/gemini-api.ts:417-434) are not modelled. They only chain the steps and return a constant style name.
- `fetchImageBuffer` is not modelled. It is HTTP and data-URL decoding.
- Image-library steps become boundaries of the model, not code in it:
  - PNG decoding and encoding, `ensureAlpha`, `trim`, `greyscale`, `resize`, `extractChannel`, `blur` and the screen/over composite.
  - The remover and the feather start from a decoded RGBA buffer.
  - The glow takes the alpha-extract-and-blur step, and the composite, as function parameters; `None` stands for the library throwing.
  - Nothing is modelled about what the blur or the composite compute.
- Only the arithmetic of `compositeOnTarotBackground` is modelled. The template file read, the `|| 1200` / `|| 1800` card-size fallbacks and the final composite onto the card are not.
- `console.warn` logging is not modelled. Only the observable fallback of returning the input is.
- Channels are fixed at 4. The source reads `info.channels` but always addresses the alpha at offset 3, which assumes the RGBA buffer produced by `ensureAlpha`.
- Floating point is replaced by exact rationals. `Math.round(height * 0.78)` and the other products with 0.62, 0.15, 0.6 and 0.12 are the exact half-up roundings. The double-precision products could differ only where the exact value is a half and the binary constant's error pushes it across.
- Feather.FeatherAlpha: the feather scale is not like those constants. The source computes `fade = 1 - t` in double precision and rounds `a * fade`. Where the exact product is a half, the double is often just below it and rounds down. For example, at height 32 the band starts at row 25 with D = 6. In row 30 (k = 5), `1 - 5/6` is 0.16666666666666663 as a double, so an alpha of 3 becomes 0 in the source, while the model gives 1. The model states the exact half-up rounding; the source's result can be one lower at exact halves.
- Selector.Score: the sum is an unbounded integer. A JavaScript number is exact only up to 2^53, which a name would need more than 10^11 characters to exceed.
- Segmenter.RemoveCheckerboardBackground: the worklist is a sequence that drops its front with `queue[1..]`. The cost of `Array.prototype.shift` is not modelled.
- Glow.AddGlowAroundFigure: the alpha extraction at lib/gemini-api.ts:292 calls `toBuffer()` with no raw output format. The image library's documented default then encodes the channel in the input's format, PNG here, but line 295 reads those bytes as raw single-channel data. Separately, `blur(radius)` at line 298 is passed 0 whenever the shorter side is 4 or less, which is outside the library's accepted sigma range. Either way the library would usually throw and the source would return the avatar through its `catch`. The model takes the blur step as an opaque parameter, so this path is its `None` case; the model does not decide which case the library actually takes.
- Glow.AddGlowAroundFigure: the blurred mask's length is whatever the library returns. The loop writes only the whole pixels that fit in the halo buffer, as typed-array writes past the end are dropped. Nothing is claimed about how the mask relates to the avatar's alpha.
