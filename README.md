# Dominant colour of an image: a Dafny model

The image-theme-colour meter takes an uploaded image and answers with its
"theme colour": the RGB colour that the largest number of pixels have
exactly, provided that colour covers more than 100 pixels. This project models
the kernel that computes that colour, `getMostAppearingColor` in
`pages/api/getThemeColor.ts`, and proves what it computes.

The kernel receives the decoded RGBA bytes of the image and works in three
steps, each modelled as an imperative Dafny method with loop invariants:

1. **Tally** (`PixelTally.Tally`). A loop walks the buffer four bytes at a time
   and counts each `r,g,b` triple; the fourth byte (alpha) is never read. The
   method is proved against `TallyOf`, which maps each colour that occurs to
   `Count`, its number of pixels. Lemmas show that tally keys are exactly
   the pixels' colours and that counts are exact multiplicities, positive,
   and add up to the pixel count. Two buffers that differ only in alpha
   have the same tally.
2. **Filter** (`DominantColor.Candidates`). The loop over the record's keys
   keeps the colours whose count is strictly greater than `Threshold` (100).
   Each survivor is kept once, with its count and its `rgb(r,g,b)` string.
3. **Select** (`DominantColor.SortByCountDesc`, `DominantColor.MostAppearing`).
   The survivors are sorted in place by descending count and the first is
   taken. If no colour passes the filter, the JavaScript reads
   `.color` of `undefined` and throws. The model returns
   `Failure(NoDominantColor)` instead.

`DominantColor.GetMostAppearingColor` chains the three steps. It fails
exactly when no colour occurs more than 100 times, and so always fails on
images of at most 100 pixels. On success it returns `ColorString(c)` for a
colour `c` that occurs in the image more than 100 times, such that no other
colour occurs more often.

The JavaScript keys its record by the string `${r},${g},${b}`. The model
keys it by the triple `Rgb(r, g, b)`. `ColorKey.KeyInjective` proves that
the two keyings agree: the decimal key string of a triple determines the
triple. `ColorKey.ColorStringInjective` proves the same for the returned
`rgb(...)` string. Because every key contains commas, a key never clashes
with a property inherited by a JavaScript object, and never counts as an
"integer-like" key that `for ... in` would list first.

Modules: `ColorKey` (channel bytes, the RGB triple and its strings),
`PixelTally` (step 1) and `DominantColor` (steps 2 and 3, and the whole
kernel). The files are `color_key.dfy`, `tally.dfy` and `dominant.dfy`.

The code has no explicit tie-break between colours of equal count. Since
`for ... in` visits these keys in insertion order and `Array.prototype.sort`
is stable (required since ES2019), the colour whose first pixel comes
earliest in the buffer wins among those sharing the top count. The model
does not state this; it states only that the winner's count is maximal.

## Model

| member | source | states |
|---|---|---|
| `PixelTally.Tally` | pages/api/getThemeColor.ts:25-39 | the record built by the stepped loop (truthiness test, increment, or insert 1) is exactly `TallyOf(Pixels(pixelData))`: one entry per colour that occurs, holding its pixel count |
| `PixelTally.TallyStep` | pages/api/getThemeColor.ts:34-38 | in one turn of the loop, whichever branch the truthiness test takes, the update gives the tally of one more pixel; a present key never holds 0, so `if (record[key])` means "key present" |
| `PixelTally.PixelsPrefix` | pages/api/getThemeColor.ts:30-32 | the first n pixels of the buffer form a sequence of exactly n RGB triples |
| `PixelTally.Pixels` | pages/api/getThemeColor.ts:30-32 | a buffer of 4·N bytes has exactly N pixels |
| `PixelTally.PixelsAt` | pages/api/getThemeColor.ts:30-32 | pixel k is made of bytes 4k, 4k+1 and 4k+2 only |
| `PixelTally.AlphaIgnored` | pages/api/getThemeColor.ts:30-32 | two buffers that agree on every byte except the alpha bytes (index ≡ 3 mod 4) give the same pixels and the same tally |
| `PixelTally.AlphaIgnoredPrefix` | pages/api/getThemeColor.ts:30-32 | the same for every prefix of n pixels |
| `PixelTally.Count` | pages/api/getThemeColor.ts:34-38 | a colour's count never exceeds the number of pixels |
| `PixelTally.CountIsMultiplicity` | pages/api/getThemeColor.ts:32-38 | a colour's count equals its multiplicity in the multiset of pixels: exact equality of triples, no bucketing |
| `PixelTally.CountPositiveIffOccurs` | pages/api/getThemeColor.ts:34-38 | a count is positive if and only if some pixel has that colour |
| `PixelTally.CountSnoc` | pages/api/getThemeColor.ts:34-38 | one more pixel adds 1 to the count of its own colour and 0 to every other (a definitional reading aid: `Count`'s recurrence, proved by unfolding it) |
| `PixelTally.Bump` | pages/api/getThemeColor.ts:34-38 | the record update for one pixel of colour c: the key set gains c, c's value goes up by one or starts at 1, and every other entry stays the same |
| `PixelTally.TallyOfSnoc` | pages/api/getThemeColor.ts:34-38 | one more pixel bumps exactly that pixel's entry (a new entry gets 1), and leaves every other entry unchanged |
| `PixelTally.TallyKeysArePixels` | pages/api/getThemeColor.ts:30-38 | a colour is a tally key if and only if some pixel has it (a definitional reading aid: the domain of `TallyOf` over pixel indices) |
| `PixelTally.TallyCounts` | pages/api/getThemeColor.ts:34-38 | every tally entry is positive and equals the colour's multiplicity |
| `PixelTally.TotalRemove` | pages/api/getThemeColor.ts:34-38 | the sum of a tally's counts does not depend on the order its keys are visited |
| `PixelTally.TotalBump` | pages/api/getThemeColor.ts:34-38 | one increment of the record raises the sum of counts by exactly 1 |
| `PixelTally.TallySum` | pages/api/getThemeColor.ts:30-38 | the counts of the tally add up to the number of pixels |
| `PixelTally.UniformTally` | pages/api/getThemeColor.ts:30-38 | an image in which every pixel has colour c tallies to the single entry c ↦ number of pixels |
| `DominantColor.Candidates` | pages/api/getThemeColor.ts:41-54 | every listed candidate is a record entry with count > 100, carrying its own count and `rgb(key)` string; every entry with count > 100 is listed; no colour is listed twice |
| `DominantColor.SortByCountDesc` | pages/api/getThemeColor.ts:56-58 | in place, the array ends up ordered by non-increasing count and is a permutation of what it held |
| `DominantColor.InsertAt` | pages/api/getThemeColor.ts:56-58 | one insertion step makes the prefix `a[..i+1]` sorted by non-increasing count, leaves `a[i+1..]` unchanged, and permutes the array |
| `DominantColor.MostAppearing` | pages/api/getThemeColor.ts:41-69 | fails with `NoDominantColor` if and only if no entry has count > 100 (a count of exactly 100 does not pass); otherwise it returns an entry with count > 100 whose count no other entry exceeds |
| `DominantColor.GetMostAppearingColor` | pages/api/getThemeColor.ts:25-70 | fails if and only if no colour occurs more than 100 times; always fails on at most 100 pixels; on success returns `rgb(r,g,b)` of a colour that occurs in the buffer more than 100 times and at least as often as any other colour |
| `DominantColor.UniformImageDominant` | pages/api/getThemeColor.ts:43-60 | an image of more than 100 pixels all of one colour has that colour, and only that colour, as its most appearing one |
| `ColorKey.DigitChar` | pages/api/getThemeColor.ts:32 | a digit below 10 becomes the character whose code is '0' plus that digit |
| `ColorKey.Decimal` | pages/api/getThemeColor.ts:32 | a number's template-literal spelling is a non-empty string of digits with no leading zero |
| `ColorKey.DecimalRoundTrip` | pages/api/getThemeColor.ts:32 | reading the decimal spelling back gives the number |
| `ColorKey.DecimalInjective` | pages/api/getThemeColor.ts:32 | two numbers have the same spelling if and only if they are equal |
| `ColorKey.SplitAtComma` | pages/api/getThemeColor.ts:32 | a string of the form digits + "," + rest splits back uniquely |
| `ColorKey.Key` | pages/api/getThemeColor.ts:32 | the key `${r},${g},${b}` is the three decimal spellings joined by commas, at least 5 characters; `KeyInjective` proves it determines the triple |
| `ColorKey.ColorString` | pages/api/getThemeColor.ts:49 | the returned string `rgb(${key})`, at least 10 characters; `ColorStringInjective` proves it determines the triple |
| `ColorKey.KeyInjective` | pages/api/getThemeColor.ts:32 | two triples have the same `r,g,b` key if and only if they are equal, so keying the record by the triple is the same as keying it by the string |
| `ColorKey.ColorStringInjective` | pages/api/getThemeColor.ts:49 | two triples give the same `rgb(r,g,b)` string if and only if they are equal |

## Left out

- `getImageThemeColorByPath` (lines 72-98): image loading and canvas decoding are I/O and calls into a library. The model starts from the decoded byte buffer.
- `tinycolor(themeColor).isDark()` (line 94): a foreign library whose brightness formula is not part of this model.
- `handler` (lines 100-120): HTTP method dispatch and multipart form parsing. This includes the request that gets no response when `files.image` is an array.
- The `console.log` calls (lines 61-67): logging only.
- `pages/index.tsx`: the browser UI, which has no algorithmic content.
- The `rgb: rgbColor.split(',')` field of each candidate (line 50): nothing reads it. `Candidate` holds the triple instead.
- Buffers whose length is not a multiple of 4: `Tally` and `GetMostAppearingColor` require whole pixels. Canvas image data always holds 4·width·height bytes. On a trailing partial pixel the JavaScript would build a key containing `undefined`.
- Integer width: counts are unbounded naturals. JavaScript numbers are exact up to 2^53, far above any pixel count.
- DominantColor.Candidates: visits the record's keys in an arbitrary order. The JavaScript engine's order (insertion order, for these keys) is not modelled, and the contract says nothing about the order of the list.
- DominantColor.SortByCountDesc: an insertion sort stands for the engine's `Array.prototype.sort`. Only sortedness and permutation are stated. Stability (which the engine's sort has, and which fixes the order of equal counts) is not.
- DominantColor.MostAppearing: does not say which colour wins when several share the largest count. In the JavaScript, insertion-ordered keys and the stable sort make the colour seen first in the buffer win; the model does not capture that order.
- DominantColor.GetMostAppearingColor: as for `MostAppearing`, the winner among equally frequent colours is left unspecified. The failure replaces the `TypeError` the JavaScript throws inside a promise callback; it does not model what the caller's promise does after that.
