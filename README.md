# Dominant colour of an image: the bucketing core

The service takes an image URL, fetches and decodes the image, and answers
with the image's dominant colour as a hex string such as `#F0A000`. This
project models the part of the handler in `functions/extract-color.js` that
computes that string from the decoded RGBA pixel buffer. The steps are:

- **Quantising.** Each colour channel is rounded down to one of 16 levels by
  masking off its low four bits.
- **Packing.** The three quantised channels are packed into one 24-bit bucket
  key: red in the high byte, green in the middle byte, blue in the low byte.
- **Counting.** Starting at byte offset 0 and moving 4 bytes at a time, every
  pixel with a non-zero alpha adds one to its bucket. The buckets live in a
  JavaScript `Map`, which remembers insertion order.
- **Choosing.** The buckets are visited in insertion order and the first one
  with the largest count wins. The search starts from key 0 with count 0, so
  an image with no pixel of non-zero alpha reports 0.
- **Formatting.** The winning key is written in base 16, padded on the left
  with zeros to six digits, upper-cased, and prefixed with `#`.

Modules:

- `Bits` models JavaScript's `&`, `|` and `<<` on naturals, bit by bit. The
  values are always below 2^24, so the 32-bit integer conversion those
  operators apply changes nothing.
- `Channels` covers quantising one channel and packing a key, each stated two
  ways: arithmetically, and with the handler's bit operations.
- `Buckets` is the specification of the count. A `Tally` holds the keys in
  insertion order plus a count per key:
  - `Histogram(data, n)` is the table after the first n pixels;
  - `DominantKey` is the bucket the search picks.
- `CountMaps` is the `Map` as a class with its key order and its entries as
  fields, and `get`/`set` as methods.
- `ExtractColor` holds the two loops as methods proved against `Buckets`, and
  `DominantHex`, the whole computation from buffer to string.
- `HexFormat` holds the JavaScript string operations used to build the colour
  string, plus a fixed-width reference rendering with its parser.

The buffer is a parameter: a sequence of bytes of any length. If the length
is not a multiple of 4, the model follows how JavaScript treats the final
partial pixel:
- a read past the end is `undefined`;
- an `undefined` alpha is not `=== 0`, so that pixel is counted;
- a missing colour byte masks to 0.

What the handler computes, and what it does not:
- it reports only the hex string, with no RGB triple and no HSL;
- the colour is the bucket key itself, not the average of the pixels in the bucket;
- a pixel is skipped only when its alpha is exactly 0, so half-transparent pixels count;
- it reads the buffer with no stride, and raises no error for a buffer whose length does not fit the image size.

So a pure red pixel (255, 0, 0) falls in bucket F0/00/00, and the handler
reports `#F00000` for an image dominated by such pixels, not `#FF0000`. This
follows from `Channels.Quantise` and `HexFormat.FormatHexChannels`.

## Model

| member | source | states |
|---|---|---|
| Channels.Quantise | functions/extract-color.js:39-41 | A quantised channel is a multiple of 16, at most 240, and at most 15 below the original value (q <= v < q + 16). |
| Channels.MaskChannel | functions/extract-color.js:39-41 | Masking a byte with 0xF0, bit by bit, gives exactly the quantised channel. |
| Channels.QuantiseIdempotent | functions/extract-color.js:39-41 | Quantising a quantised channel changes nothing. |
| Channels.PackKey | functions/extract-color.js:42 | A packed key is below 2^24. |
| Channels.PackBits | functions/extract-color.js:42 | Shifting red up 16 and green up 8 and or-ing them with blue, bit by bit, equals red * 65536 + green * 256 + blue: the fields never overlap. |
| Channels.UnpackPack | functions/extract-color.js:42 | The red, green and blue bytes of a packed key are the three channels packed. |
| Channels.PackKeyInjective | functions/extract-color.js:42 | Two colours with the same key are the same colour. |
| Channels.LevelsAreBucketKey | functions/extract-color.js:39-42 | Three channels that are multiples of 16 pack into one of the 16^3 bucket keys (every channel field a multiple of 16). |
| Channels.ChannelNibbles | functions/extract-color.js:42 | The high and low base-16 digit of each channel of a key are the matching four-bit fields of the key. |
| Bits.And | functions/extract-color.js:39-41 | `a & b` bit by bit; the result is at most either operand. Its meaning as a mask is stated by `Bits.AndLowOnes` and `Bits.AndEvenMask`. |
| Bits.AndEvenMask | functions/extract-color.js:39-41 | Masking with an even mask clears bit 0 and masks the remaining bits with half the mask. |
| Bits.Or | functions/extract-color.js:42 | Bitwise or, bit by bit; the result lies between the larger operand and the sum. Its meaning on disjoint fields is stated by `Bits.OrDisjoint`. |
| Bits.ShiftLeft | functions/extract-color.js:42 | `a << s` moves the bits up one place at a time and equals a * 2^s. |
| Bits.AndLowOnes | functions/extract-color.js:39-41 | And-ing a value below 2^s with s one-bits gives the value back. |
| Bits.OrDisjoint | functions/extract-color.js:42 | Or-ing a value shifted up by s with one below 2^s is their sum. |
| Buckets.GetOrZero | functions/extract-color.js:43 | `get` with 0 for an absent key: no contract of its own. `Buckets.BumpOneBucket` and `ExtractColor.AddToBucket` state what the get-then-set does. |
| Buckets.Bump | functions/extract-color.js:43 | Get the count (0 when absent), add one and set it: no contract of its own. `Buckets.BumpOneBucket` and `Buckets.SumBump` state its effect. |
| Buckets.MapSet | functions/extract-color.js:43 | `Map.set`: the stored value is replaced, keys stay listed once, an existing key keeps its place and a new key goes to the end. |
| Buckets.BumpOneBucket | functions/extract-color.js:43 | Counting one pixel adds one to its bucket (creating it at the end of the order if new) and leaves every other bucket's count as it was. |
| Buckets.PixelCount | functions/extract-color.js:37 | The number of loop iterations `i = 0, 4, 8, ...` while `i < data.length`: the last offset is below the length and the next one is not. |
| Buckets.Transparent | functions/extract-color.js:38 | `data[i + 3] === 0`, false for a read past the end: no contract of its own. `Buckets.WholePixelsInBounds` states that for whole pixels it is exactly an alpha of 0. |
| Buckets.PixelKey | functions/extract-color.js:39-42 | The packed key of the pixel's quantised channels: no contract of its own. `ExtractColor.ReadKey` proves the handler's bit operations compute it, and `Buckets.PixelKeyIsBucketKey` gives its range. |
| Buckets.Channel | functions/extract-color.js:39-41 | A channel as read from the buffer is a multiple of 16, also for a read past the end. |
| Buckets.WholePixelsInBounds | functions/extract-color.js:37-41 | When the buffer holds whole pixels: there are length / 4 of them, every byte of each is inside the buffer, and the transparency test is an alpha of 0. |
| Buckets.Histogram | functions/extract-color.js:36-44 | The table after any prefix of the pixels lists every key exactly once and holds only counts of at least one. |
| Buckets.Step | functions/extract-color.js:38-43 | One loop iteration keeps the table well formed. |
| Buckets.HistogramNext | functions/extract-color.js:37-44 | Each pixel is handled once, in order: a transparent pixel leaves the table unchanged, any other bumps its own bucket. |
| Buckets.PixelKeyIsBucketKey | functions/extract-color.js:39-42 | Every pixel's key is one of the 16^3 bucket keys. |
| Buckets.HistogramBucketKeys | functions/extract-color.js:37-44 | Every key in the table is one of the 16^3 bucket keys. |
| Buckets.FirstPixel | functions/extract-color.js:37-44 | For a bucket with a pixel, the earliest non-transparent pixel that falls in it: no pixel before it does. |
| Buckets.SumBump | functions/extract-color.js:43 | Counting one pixel raises the total of all counts by exactly one. |
| Buckets.HistogramTotal | functions/extract-color.js:37-44 | The counts add up to the number of pixels whose alpha is not 0. |
| Buckets.HistogramCounts | functions/extract-color.js:37-44 | A key has a bucket if and only if some non-transparent pixel has that key, and its count is the number of such pixels. |
| Buckets.HistogramFirstSeenOrder | functions/extract-color.js:37-44 | The insertion order lists buckets by the position of their first pixel: an earlier bucket's first pixel comes strictly earlier. |
| Buckets.OrderStep | functions/extract-color.js:43 | One pixel changes the insertion order at most by appending the bucket it opens: earlier positions keep their keys. |
| Buckets.FirstSeenKept | functions/extract-color.js:37-44 | A bucket that already existed keeps its first pixel when another pixel is handled. |
| Buckets.FirstSeenNew | functions/extract-color.js:37-44 | A bucket opened by a pixel has that pixel as its first one. |
| Buckets.MaxCount | functions/extract-color.js:47-48 | The largest count: no bucket's count exceeds it, some bucket has it, and it is 0 for an empty table. |
| Buckets.FirstIndexOf | functions/extract-color.js:48 | The first position in the order holding a given count: no earlier position holds it. |
| Buckets.MaxCountStep | functions/extract-color.js:48 | Visiting one more bucket raises the best count only when that bucket's count is strictly larger. |
| Buckets.DominantStep | functions/extract-color.js:48 | Visiting one more bucket makes it the winner exactly when its count is strictly larger than the best so far; otherwise the winner is kept. |
| Buckets.DominantIsFirstMaximal | functions/extract-color.js:47-48 | With no bucket the winner is key 0. Otherwise it is the bucket at the first position with the largest count: no bucket has more, and every bucket before it has strictly fewer. |
| Buckets.DominantKey | functions/extract-color.js:47-48 | The key the search picks: no contract of its own. `Buckets.DominantIsFirstMaximal`, `Buckets.DominantStep` and `Buckets.DominantByPixels` state what it is. |
| Buckets.DominantSeen | functions/extract-color.js:37-48 | With no non-transparent pixel the winner is 0 (black); otherwise some non-transparent pixel falls in the winning bucket. |
| Buckets.TieAfterTop | functions/extract-color.js:48 | A bucket with as large a count as the winner, but another key, comes later in the insertion order. |
| Buckets.DominantByPixels | functions/extract-color.js:37-48 | Stated over the pixels alone: no key has more non-transparent pixels than the winner, and a key with as many has its first pixel later than the winner's first pixel. |
| Buckets.DominantIsBucketKey | functions/extract-color.js:39-48 | The reported key is one of the 16^3 bucket keys, also when it is the starting key 0. |
| CountMaps.CountMap.constructor | functions/extract-color.js:36 | A new map is empty. |
| CountMaps.CountMap.Get | functions/extract-color.js:43 | `get` returns the stored value for a key that was set, and nothing (`undefined`) otherwise. |
| CountMaps.CountMap.Set | functions/extract-color.js:43 | `set` changes the map exactly as `Buckets.MapSet` describes, and keeps every key listed once. |
| ExtractColor.ReadKey | functions/extract-color.js:39-42 | The key the handler computes from the bytes at offset i, reads past the end included, is the packed key of the quantised channels. |
| ExtractColor.AddToBucket | functions/extract-color.js:43 | Getting the count (0 when absent) and setting it plus one bumps exactly that bucket. |
| ExtractColor.CountPixel | functions/extract-color.js:38-43 | The body of the counting loop performs one step of the table specification for its pixel. |
| ExtractColor.CountColours | functions/extract-color.js:36-44 | After the counting loop, the map holds exactly `Buckets.Histogram` of all pixels: the same buckets, counts and insertion order. |
| ExtractColor.TopBucket | functions/extract-color.js:47-48 | The search loop ends with the largest count and with the first key in insertion order holding it, or 0 and 0 for an empty map. |
| ExtractColor.DominantHex | functions/extract-color.js:35-50 | The whole computation returns the formatted winning bucket of the buffer's histogram. |
| ExtractColor.ExtractHex | functions/extract-color.js:35-50 | The handler's result for a buffer: no contract of its own. `ExtractColor.DominantHex` proves the loops compute it; `ExtractColor.ExtractHexShape` and `ExtractColor.UniformImage` state its properties. |
| ExtractColor.ExtractHexShape | functions/extract-color.js:47-50 | The result is `#` and six upper-case hex digits that parse back to the winning key. Digits 2, 4 and 6 are always 0. An empty or fully transparent image gives `#000000`. |
| ExtractColor.UniformImage | functions/extract-color.js:37-50 | When every non-transparent pixel has the same key and there is at least one, that key is reported. |
| HexFormat.DigitValue | functions/extract-color.js:50 | The value of an upper-case hex digit is below 16 and its digit is that character. |
| HexFormat.DigitValueOfDigit | functions/extract-color.js:50 | Reading back the digit written for d gives d. |
| HexFormat.ToHexString | functions/extract-color.js:50 | `toString(16)`: no contract of its own. `HexFormat.ToHexStringShape`, `HexFormat.ToHexStringLength` and `HexFormat.PaddedIsFixed` state what it writes. |
| HexFormat.ToHexStringShape | functions/extract-color.js:50 | `toString(16)` writes the shortest numeral: at least one lower-case hex digit, with a leading `0` exactly when the number is 0. |
| HexFormat.PadStart | functions/extract-color.js:50 | `padStart` gives a string of the requested width (or the original if longer) that ends with the original and is zeros in front of it. |
| HexFormat.PadStartAppend | functions/extract-color.js:50 | Padding a numeral with one more digit at the end pads the front to one place less. |
| HexFormat.UpperChar | functions/extract-color.js:50 | `toUpperCase` on one character: no contract of its own. `HexFormat.UpperOfLowerDigit` states it on every digit `toString(16)` writes. |
| HexFormat.UpperOfLowerDigit | functions/extract-color.js:50 | Upper-casing a lower-case hex digit gives the upper-case digit of the same value. |
| HexFormat.ToUpperCase | functions/extract-color.js:50 | `toUpperCase` on a string, character by character: no contract of its own. `HexFormat.ToUpperCaseAppend` and `HexFormat.PaddedIsFixed` state it. |
| HexFormat.ToUpperCaseAppend | functions/extract-color.js:50 | Upper-casing a concatenation upper-cases each part. |
| HexFormat.FormatHex | functions/extract-color.js:50 | The colour string: no contract of its own. `HexFormat.FormatHexRoundTrip`, `HexFormat.FormatHexChannels` and `HexFormat.FormatHexZero` state what it is. |
| HexFormat.FixedHex | functions/extract-color.js:50 | The reference rendering has exactly the requested number of characters, all upper-case hex digits. |
| HexFormat.ToHexStringLength | functions/extract-color.js:50 | `toString(16)` of a number below 16^w has at most w digits. |
| HexFormat.PaddedIsFixed | functions/extract-color.js:50 | `toString(16)` padded to w digits and upper-cased is the fixed-width rendering. |
| HexFormat.ParseFixedHex | functions/extract-color.js:50 | Parsing the fixed-width rendering gives the number back. |
| HexFormat.FormatHexRoundTrip | functions/extract-color.js:50 | For every 24-bit key the colour string is `#` and six upper-case hex digits that parse back to the key. So distinct keys give distinct strings. |
| HexFormat.FormatHexZero | functions/extract-color.js:47-50 | Key 0, the starting key of the search, is written `#000000`. |
| HexFormat.FixedHexSixDigits | functions/extract-color.js:50 | Each of the six fixed-width digits is the matching four-bit field of the number. |
| HexFormat.FormatHexChannels | functions/extract-color.js:50 | The colour string is `#` followed by the high and low digit of red, then of green, then of blue. |
| HexFormat.BucketKeyHexDigits | functions/extract-color.js:39-50 | For a bucket key the low digit of every channel, at positions 2, 4 and 6, is `0`. |

## Left out

- The HTTP shell (lines 5-14, 52-59) is I/O and not part of the colour computation. It covers:
  - the CORS headers;
  - the `OPTIONS` answer;
  - the 400 answer for a missing `imageUrl`;
  - the pretty-printed JSON body.
- Fetching the image and the 502 error answer (lines 16-19, 57-59) are network I/O.
- Decoding the image, drawing it to a canvas and reading the pixels back (lines 22, 30-35) are calls into an image library. The decoded buffer is the parameter `data`.
- The 64-pixel downscale size (lines 25-28) is floating-point arithmetic. The model accepts a buffer of any length instead.
- The clamping of the pixel array is not modelled: every element is already a byte (0 to 255).
- The 32-bit integer conversion done by `&`, `|` and `<<` is not modelled. Every operand and result is below 2^24, where that conversion is the identity (`Channels.PackKey` proves the bound).
- HexFormat.UpperChar: upper-cases ASCII letters only and leaves every other character alone. Every character `toString(16)` writes is an ASCII digit or `a`-`f`.
- The `Map` is modelled only for `get`, `set` and iteration in insertion order. The loop never inserts or deletes during iteration.
- Running the computation twice on the same buffer gives the same answer; this needs no lemma, because every Dafny function is deterministic.
