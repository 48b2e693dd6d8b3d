/**
 * The colour-bucketing core of the handler in functions/extract-color.js:
 * count the non-transparent pixels of the decoded RGBA buffer per quantised
 * colour, pick the most frequent bucket (the first one in insertion order
 * on a tie) and render its key as `#RRGGBB`.
 */
module ExtractColor {
  import opened Channels
  import opened HexFormat
  import opened Buckets
  import opened CountMaps

  /** What the handler reports for a decoded buffer. */
  function ExtractHex(data: seq<byte>): string
  {
    FormatHex(DominantKey(Histogram(data, PixelCount(data))))
  }

  /**
   * The key of the pixel at byte offset i, as the handler computes it: mask
   * the three colour bytes at i, i + 1 and i + 2 and pack them with shifts
   * and bitwise or.  A read past the end is `undefined`, which masks to 0.
   */
  function ReadKey(data: seq<byte>, i: nat): (key: nat)
    ensures key == PackKey(Channel(data, i), Channel(data, i + 1), Channel(data, i + 2))
  {
    var r := if i < |data| then MaskChannel(data[i]) else 0;
    var g := if i + 1 < |data| then MaskChannel(data[i + 1]) else 0;
    var b := if i + 2 < |data| then MaskChannel(data[i + 2]) else 0;
    PackBits(r, g, b)
  }

  /** Look the key up (absent reads as 0) and store one more: the pixel's bucket gains one. */
  method AddToBucket(counts: CountMap, key: nat)
    requires counts.Valid()
    modifies counts
    ensures counts.Valid()
    ensures counts.Table() == Bump(old(counts.Table()), key)
  {
    var c := counts.Get(key);
    counts.Set(key, (if c.Some? then c.value else 0) + 1);
  }

  /**
   * The body of the counting loop for pixel p at byte offset i: skip it when
   * its alpha is 0, otherwise add one to the bucket of its quantised colour.
   */
  method CountPixel(counts: CountMap, data: seq<byte>, i: nat, ghost p: nat)
    requires i == 4 * p
    requires counts.Valid() && WellFormed(counts.Table())
    modifies counts
    ensures counts.Valid()
    ensures counts.Table() == Step(old(counts.Table()), data, p)
  {
    if i + 3 < |data| && data[i + 3] == 0 {
      return; // skip transparent
    }
    var key := ReadKey(data, i);
    AddToBucket(counts, key);
  }

  /**
   * The counting loop: for i = 0, 4, 8, ... below the buffer length, count
   * pixel i / 4.
   */
  method CountColours(data: seq<byte>) returns (counts: CountMap)
    ensures fresh(counts) && counts.Valid()
    ensures counts.Table() == Histogram(data, PixelCount(data))
  {
    counts := new CountMap();
    var i := 0;
    ghost var p := 0;
    while i < |data|
      invariant i == 4 * p && p <= PixelCount(data)
      invariant counts.Valid() && counts.Table() == Histogram(data, p)
    {
      CountPixel(counts, data, i, p);
      i, p := i + 4, p + 1;
    }
    assert p == PixelCount(data);
  }

  /**
   * The search for the most frequent bucket: visit the buckets in insertion
   * order and take one whenever its count is strictly above the best so far,
   * starting from key 0 with count 0.
   */
  method TopBucket(counts: CountMap) returns (topKey: nat, topCount: nat)
    requires counts.Valid()
    ensures topCount == MaxCount(counts.keys, counts.entries)
    ensures topKey == DominantKey(counts.Table())
  {
    topKey, topCount := 0, 0;
    var i := 0;
    while i < |counts.keys|
      invariant i <= |counts.keys|
      invariant topCount == MaxCount(counts.keys[..i], counts.entries)
      invariant topKey == DominantKey(Tally(counts.keys[..i], counts.entries))
    {
      var k := counts.keys[i];
      var c := counts.entries[k];
      assert counts.keys[..i + 1] == counts.keys[..i] + [k];
      MaxCountStep(counts.keys[..i], counts.entries, k);
      DominantStep(counts.keys[..i], counts.entries, k);
      if c > topCount {
        topKey, topCount := k, c;
      }
      i := i + 1;
    }
    assert counts.keys[..i] == counts.keys;
  }

  /** The handler's colour computation, from the decoded buffer to the hex string. */
  method DominantHex(data: seq<byte>) returns (hex: string)
    ensures hex == ExtractHex(data)
  {
    var counts := CountColours(data);
    var topKey, topCount := TopBucket(counts);
    hex := FormatHex(topKey);
  }

  /**
   * The reported string is `#` and six upper-case digits that parse back to
   * the winning bucket key; digits 2, 4 and 6 are always '0'; and with no
   * non-transparent pixel (an empty or fully transparent image) it is "#000000".
   */
  lemma ExtractHexShape(data: seq<byte>)
    ensures |ExtractHex(data)| == 7 && ExtractHex(data)[0] == '#'
    ensures forall i :: 1 <= i < 7 ==> IsUpperHexDigit(ExtractHex(data)[i])
    ensures ParseHex(ExtractHex(data)[1..]) == DominantKey(Histogram(data, PixelCount(data)))
    ensures ExtractHex(data)[2] == '0' && ExtractHex(data)[4] == '0' && ExtractHex(data)[6] == '0'
    ensures NonTransparentCount(data, PixelCount(data)) == 0 ==> ExtractHex(data) == "#000000"
  {
    var n := PixelCount(data);
    var d := DominantKey(Histogram(data, n));
    DominantIsBucketKey(data, n);
    FormatHexRoundTrip(d);
    BucketKeyHexDigits(d);
    DominantSeen(data, n);
    if NonTransparentCount(data, n) == 0 {
      FormatHexZero();
    }
  }

  /**
   * When every non-transparent pixel falls in one bucket and there is at least
   * one such pixel, that bucket is reported.
   */
  lemma UniformImage(data: seq<byte>, key: nat)
    requires forall p :: 0 <= p < PixelCount(data) && !Transparent(data, p) ==> PixelKey(data, p) == key
    requires NonTransparentCount(data, PixelCount(data)) > 0
    ensures ExtractHex(data) == FormatHex(key)
  {
    var n := PixelCount(data);
    DominantSeen(data, n);
    var d := DominantKey(Histogram(data, n));
    var p := FirstPixel(data, n, d);
    assert PixelKey(data, p) == key;
  }
}
