/**
 * The specification of the colour count: what the counting loop leaves in
 * the JavaScript `Map` after the first n pixels of the buffer, and which
 * bucket the most-frequent search picks.  The table is a `Tally`: the keys
 * in insertion order (the order `for ... of` visits a `Map`) and a count per
 * key.
 */
module Buckets {
  import opened Channels

  datatype Tally = Tally(order: seq<nat>, count: map<nat, nat>)

  const Empty := Tally([], map[])

  /** Each key appears once in the insertion order. */
  ghost predicate Distinct(s: seq<nat>)
  {
    forall i, j :: 0 <= i < j < |s| ==> s[i] != s[j]
  }

  /** The order lists exactly the keys of the table, once each. */
  ghost predicate OrderedKeys(t: Tally)
  {
    Distinct(t.order) && forall k :: k in t.count <==> k in t.order
  }

  /** A table the counting loop can produce: every bucket counted at least once. */
  ghost predicate WellFormed(t: Tally)
  {
    OrderedKeys(t) && forall k :: k in t.count ==> t.count[k] >= 1
  }

  /** `Map.prototype.get`, with `|| 0` for an absent key. */
  function GetOrZero(t: Tally, k: nat): nat
  {
    if k in t.count then t.count[k] else 0
  }

  /** `Map.prototype.set`: a new key goes to the end of the order; an old key keeps its place. */
  function MapSet(t: Tally, k: nat, v: nat): (r: Tally)
    requires OrderedKeys(t)
    ensures OrderedKeys(r)
    ensures r.count == t.count[k := v]
    ensures k in t.count ==> r.order == t.order
    ensures k !in t.count ==> r.order == t.order + [k]
  {
    Tally(if k in t.count then t.order else t.order + [k], t.count[k := v])
  }

  /** One more pixel in bucket k: its count, 0 when absent, plus one, stored back. */
  function Bump(t: Tally, k: nat): Tally
    requires OrderedKeys(t)
  {
    MapSet(t, k, GetOrZero(t, k) + 1)
  }

  /**
   * Counting one pixel: its bucket gains exactly one, a new bucket is
   * appended to the end of the order, and every other bucket is unchanged.
   */
  lemma BumpOneBucket(t: Tally, k: nat)
    requires WellFormed(t)
    ensures WellFormed(Bump(t, k))
    ensures k in Bump(t, k).count && Bump(t, k).count[k] == GetOrZero(t, k) + 1
    ensures Bump(t, k).order == if k in t.count then t.order else t.order + [k]
    ensures forall j :: j != k ==> GetOrZero(Bump(t, k), j) == GetOrZero(t, j)
  {
  }

  // ---------------------------------------------------------------------------
  // Reading the buffer

  /** The number of loop iterations: `i = 0, 4, 8, ...` while `i < data.length`. */
  function PixelCount(data: seq<byte>): (c: nat)
    ensures |data| <= 4 * c && (c == 0 || 4 * (c - 1) < |data|)
  {
    (|data| + 3) / 4
  }

  /**
   * `data[j] & 0xF0`.  A read past the end of the buffer is `undefined`,
   * which `&` converts to 0; this happens only for a final partial pixel.
   */
  function Channel(data: seq<byte>, j: nat): (c: byte)
    ensures c % 16 == 0
  {
    if j < |data| then Quantise(data[j]) else 0
  }

  /** `data[i + 3] === 0` for pixel p at `i = 4 * p`; `undefined === 0` is false. */
  predicate Transparent(data: seq<byte>, p: nat)
  {
    4 * p + 3 < |data| && data[4 * p + 3] == 0
  }

  /** The bucket key of pixel p. */
  function PixelKey(data: seq<byte>, p: nat): nat
  {
    PackKey(Channel(data, 4 * p), Channel(data, 4 * p + 1), Channel(data, 4 * p + 2))
  }

  /** When the buffer holds whole pixels, every byte the loop reads is inside it. */
  lemma WholePixelsInBounds(data: seq<byte>, p: nat)
    requires |data| % 4 == 0 && p < PixelCount(data)
    ensures PixelCount(data) == |data| / 4
    ensures 4 * p + 3 < |data|
    ensures Channel(data, 4 * p) == Quantise(data[4 * p])
    ensures Channel(data, 4 * p + 1) == Quantise(data[4 * p + 1])
    ensures Channel(data, 4 * p + 2) == Quantise(data[4 * p + 2])
    ensures Transparent(data, p) <==> data[4 * p + 3] == 0
  {
  }

  /**
   * The table after the loop has handled pixels 0 .. n-1, each once and in
   * order.  Every count is at least one and every key is listed once.
   */
  function Histogram(data: seq<byte>, n: nat): (t: Tally)
    requires n <= PixelCount(data)
    ensures WellFormed(t)
  {
    if n == 0 then Empty else Step(Histogram(data, n - 1), data, n - 1)
  }

  /** The loop body on pixel p. */
  function Step(t: Tally, data: seq<byte>, p: nat): (u: Tally)
    requires WellFormed(t)
    ensures WellFormed(u)
  {
    if Transparent(data, p) then t
    else
      BumpOneBucket(t, PixelKey(data, p));
      Bump(t, PixelKey(data, p))
  }

  /** Every pixel falls in one of the 16^3 buckets. */
  lemma PixelKeyIsBucketKey(data: seq<byte>, p: nat)
    ensures IsBucketKey(PixelKey(data, p))
  {
    LevelsAreBucketKey(Channel(data, 4 * p), Channel(data, 4 * p + 1), Channel(data, 4 * p + 2));
  }

  /** Every bucket of a table the loop builds is one of the 16^3 bucket keys. */
  lemma {:induction false} HistogramBucketKeys(data: seq<byte>, n: nat, k: nat)
    requires n <= PixelCount(data)
    requires k in Histogram(data, n).count
    ensures IsBucketKey(k)
  {
    assert n > 0;
    var prev, t := Histogram(data, n - 1), Histogram(data, n);
    if k in prev.count {
      HistogramBucketKeys(data, n - 1, k);
    } else {
      HistogramNext(data, n);
      var key := PixelKey(data, n - 1);
      assert !Transparent(data, n - 1);
      assert t.count == prev.count[key := GetOrZero(prev, key) + 1];
      assert k == key;
      PixelKeyIsBucketKey(data, n - 1);
    }
  }

  /** One step of the loop, pixel n-1: a transparent pixel leaves the table alone, any other is counted. */
  lemma HistogramNext(data: seq<byte>, n: nat)
    requires 0 < n <= PixelCount(data)
    ensures Transparent(data, n - 1) ==> Histogram(data, n) == Histogram(data, n - 1)
    ensures !Transparent(data, n - 1) ==> Histogram(data, n) == Bump(Histogram(data, n - 1), PixelKey(data, n - 1))
  {
  }

  // ---------------------------------------------------------------------------
  // What the counts mean, stated over the pixels alone

  /** The number of pixels among 0 .. n-1 that are not transparent. */
  function NonTransparentCount(data: seq<byte>, n: nat): nat
  {
    if n == 0 then 0 else NonTransparentCount(data, n - 1) + (if Transparent(data, n - 1) then 0 else 1)
  }

  /** The number of pixels among 0 .. n-1 that are not transparent and fall in bucket k. */
  function Occurrences(data: seq<byte>, n: nat, k: nat): nat
  {
    if n == 0 then 0
    else Occurrences(data, n - 1, k) + (if !Transparent(data, n - 1) && PixelKey(data, n - 1) == k then 1 else 0)
  }

  /** The first pixel among 0 .. n-1 that falls in bucket k. */
  function FirstPixel(data: seq<byte>, n: nat, k: nat): (p: nat)
    requires Occurrences(data, n, k) > 0
    ensures p < n && !Transparent(data, p) && PixelKey(data, p) == k
    ensures forall q :: 0 <= q < p ==> Transparent(data, q) || PixelKey(data, q) != k
  {
    if Occurrences(data, n - 1, k) > 0 then FirstPixel(data, n - 1, k)
    else
      NoOccurrences(data, n - 1, k);
      n - 1
  }

  lemma {:induction false} NoOccurrences(data: seq<byte>, n: nat, k: nat)
    requires Occurrences(data, n, k) == 0
    ensures forall q :: 0 <= q < n ==> Transparent(data, q) || PixelKey(data, q) != k
  {
    if n > 0 {
      NoOccurrences(data, n - 1, k);
    }
  }

  /** The sum of the counts of the keys in s. */
  function Sum(s: seq<nat>, count: map<nat, nat>): nat
    requires forall k :: k in s ==> k in count
  {
    if s == [] then 0 else Sum(s[..|s| - 1], count) + count[s[|s| - 1]]
  }

  /** Changing the count of a key that s does not hold leaves the sum alone. */
  lemma {:induction false} SumOtherKey(s: seq<nat>, count: map<nat, nat>, k: nat, v: nat)
    requires forall j :: j in s ==> j in count
    requires k !in s
    ensures Sum(s, count[k := v]) == Sum(s, count)
  {
    if s != [] {
      SumOtherKey(s[..|s| - 1], count, k, v);
    }
  }

  /** Changing the count of a key that s holds once moves the sum by the same amount. */
  lemma {:induction false} SumUpdatedKey(s: seq<nat>, count: map<nat, nat>, k: nat, v: nat)
    requires forall j :: j in s ==> j in count
    requires Distinct(s) && k in s
    ensures Sum(s, count[k := v]) == Sum(s, count) - count[k] + v
  {
    var init, last := s[..|s| - 1], s[|s| - 1];
    if last == k {
      assert k !in init;
      SumOtherKey(init, count, k, v);
    } else {
      assert k in init;
      SumUpdatedKey(init, count, k, v);
    }
  }

  /** Counting one pixel raises the total by one. */
  lemma SumBump(t: Tally, k: nat)
    requires WellFormed(t)
    ensures Sum(Bump(t, k).order, Bump(t, k).count) == Sum(t.order, t.count) + 1
  {
    var u := Bump(t, k);
    if k in t.count {
      assert u == Tally(t.order, t.count[k := t.count[k] + 1]);
      SumUpdatedKey(t.order, t.count, k, t.count[k] + 1);
    } else {
      assert u == Tally(t.order + [k], t.count[k := 1]);
      SumOtherKey(t.order, t.count, k, 1);
      assert u.order[..|t.order|] == t.order;
      assert Sum(u.order, u.count) == Sum(t.order, u.count) + 1;
    }
  }

  /** The bucket counts add up to the number of non-transparent pixels. */
  lemma {:induction false} HistogramTotal(data: seq<byte>, n: nat)
    requires n <= PixelCount(data)
    ensures Sum(Histogram(data, n).order, Histogram(data, n).count) == NonTransparentCount(data, n)
  {
    if n > 0 {
      var t, u := Histogram(data, n - 1), Histogram(data, n);
      HistogramTotal(data, n - 1);
      HistogramNext(data, n);
      if !Transparent(data, n - 1) {
        SumBump(t, PixelKey(data, n - 1));
        assert Sum(u.order, u.count) == Sum(t.order, t.count) + 1;
      }
    }
  }

  /** A bucket exists exactly for the keys some non-transparent pixel has, and counts those pixels. */
  lemma {:induction false} HistogramCounts(data: seq<byte>, n: nat, k: nat)
    requires n <= PixelCount(data)
    ensures k in Histogram(data, n).count <==> Occurrences(data, n, k) > 0
    ensures GetOrZero(Histogram(data, n), k) == Occurrences(data, n, k)
  {
    var u := Histogram(data, n);
    if n == 0 {
      assert u == Empty;
    } else {
      var t := Histogram(data, n - 1);
      HistogramCounts(data, n - 1, k);
      HistogramNext(data, n);
      var step := if !Transparent(data, n - 1) && PixelKey(data, n - 1) == k then 1 else 0;
      assert Occurrences(data, n, k) == Occurrences(data, n - 1, k) + step;
      if !Transparent(data, n - 1) {
        BumpOneBucket(t, PixelKey(data, n - 1));
      }
      assert GetOrZero(u, k) == GetOrZero(t, k) + step;
      assert k in u.count <==> GetOrZero(u, k) > 0;
    }
  }

  /** A bucket that already had a pixel among 0 .. n-2 keeps its first pixel at n. */
  lemma FirstPixelKept(data: seq<byte>, n: nat, k: nat)
    requires n > 0 && Occurrences(data, n - 1, k) > 0
    ensures Occurrences(data, n, k) > 0 && FirstPixel(data, n, k) == FirstPixel(data, n - 1, k)
  {
  }

  /** A bucket already in the table before pixel n-1 keeps its first pixel. */
  lemma FirstSeenKept(data: seq<byte>, n: nat, x: nat)
    requires 0 < n <= PixelCount(data)
    requires x in Histogram(data, n - 1).count
    ensures Occurrences(data, n - 1, x) > 0
    ensures Occurrences(data, n, x) > 0 && FirstPixel(data, n, x) == FirstPixel(data, n - 1, x)
  {
    HistogramCounts(data, n - 1, x);
    FirstPixelKept(data, n, x);
  }

  /** A bucket that pixel n-1 opened has that pixel as its first. */
  lemma FirstSeenNew(data: seq<byte>, n: nat, y: nat)
    requires 0 < n <= PixelCount(data)
    requires y !in Histogram(data, n - 1).count && y in Histogram(data, n).count
    ensures Occurrences(data, n, y) > 0 && FirstPixel(data, n, y) == n - 1
  {
    HistogramCounts(data, n - 1, y);
    HistogramCounts(data, n, y);
  }

  /** The insertion order lists the buckets by the position of their first pixel. */
  lemma {:induction false} HistogramFirstSeenOrder(data: seq<byte>, n: nat, i: nat, j: nat)
    requires n <= PixelCount(data)
    requires i < j < |Histogram(data, n).order|
    ensures Occurrences(data, n, Histogram(data, n).order[i]) > 0
    ensures Occurrences(data, n, Histogram(data, n).order[j]) > 0
    ensures FirstPixel(data, n, Histogram(data, n).order[i]) < FirstPixel(data, n, Histogram(data, n).order[j])
  {
    assert n > 0;
    if j < |Histogram(data, n - 1).order| {
      HistogramFirstSeenOrder(data, n - 1, i, j);
      OldBucketsStep(data, n, i, j);
    } else {
      NewBucketStep(data, n, i, j);
    }
  }

  /** Two buckets that were already in the table before pixel n-1 keep their first pixels, and so their order. */
  lemma OldBucketsStep(data: seq<byte>, n: nat, i: nat, j: nat)
    requires 0 < n <= PixelCount(data)
    requires i < j < |Histogram(data, n - 1).order| && j < |Histogram(data, n).order|
    requires Occurrences(data, n - 1, Histogram(data, n - 1).order[i]) > 0
    requires Occurrences(data, n - 1, Histogram(data, n - 1).order[j]) > 0
    requires FirstPixel(data, n - 1, Histogram(data, n - 1).order[i]) < FirstPixel(data, n - 1, Histogram(data, n - 1).order[j])
    ensures Occurrences(data, n, Histogram(data, n).order[i]) > 0
    ensures Occurrences(data, n, Histogram(data, n).order[j]) > 0
    ensures FirstPixel(data, n, Histogram(data, n).order[i]) < FirstPixel(data, n, Histogram(data, n).order[j])
  {
    var t, prev := Histogram(data, n), Histogram(data, n - 1);
    OrderStep(data, n, i, j);
    FirstSeenKept(data, n, t.order[i]);
    FirstSeenKept(data, n, t.order[j]);
  }

  /** A bucket opened by pixel n-1 comes after every bucket that was there before. */
  lemma NewBucketStep(data: seq<byte>, n: nat, i: nat, j: nat)
    requires 0 < n <= PixelCount(data)
    requires i < j < |Histogram(data, n).order| && |Histogram(data, n - 1).order| <= j
    ensures Occurrences(data, n, Histogram(data, n).order[i]) > 0
    ensures Occurrences(data, n, Histogram(data, n).order[j]) > 0
    ensures FirstPixel(data, n, Histogram(data, n).order[i]) < FirstPixel(data, n, Histogram(data, n).order[j])
  {
    var t := Histogram(data, n);
    OrderStep(data, n, i, j);
    FirstSeenKept(data, n, t.order[i]);
    FirstSeenNew(data, n, t.order[j]);
    assert FirstPixel(data, n - 1, t.order[i]) < n - 1;
  }

  /**
   * Pixel n-1 changes the insertion order at most by appending the bucket it
   * opened: the buckets at positions i < j either were there before, at the
   * same places, or the one at j is new.
   */
  lemma OrderStep(data: seq<byte>, n: nat, i: nat, j: nat)
    requires 0 < n <= PixelCount(data)
    requires i < j < |Histogram(data, n).order|
    ensures i < |Histogram(data, n - 1).order|
    ensures Histogram(data, n).order[i] == Histogram(data, n - 1).order[i]
    ensures Histogram(data, n).order[i] in Histogram(data, n - 1).count
    ensures j < |Histogram(data, n - 1).order| ==>
      Histogram(data, n).order[j] == Histogram(data, n - 1).order[j] &&
      Histogram(data, n).order[j] in Histogram(data, n - 1).count
    ensures j >= |Histogram(data, n - 1).order| ==> Histogram(data, n).order[j] !in Histogram(data, n - 1).count
  {
    var t, prev := Histogram(data, n), Histogram(data, n - 1);
    HistogramNext(data, n);
    if !Transparent(data, n - 1) {
      var key := PixelKey(data, n - 1);
      BumpOneBucket(prev, key);
      if j >= |prev.order| {
        assert t.order[j] == key && key !in prev.count;
      }
    }
  }

  // ---------------------------------------------------------------------------
  // The most frequent bucket

  /** The largest count in the table, 0 when it is empty. */
  function MaxCount(order: seq<nat>, count: map<nat, nat>): (m: nat)
    requires forall k :: k in order ==> k in count
    ensures forall i :: 0 <= i < |order| ==> count[order[i]] <= m
    ensures order == [] ==> m == 0
    ensures order != [] ==> exists i :: 0 <= i < |order| && count[order[i]] == m
  {
    if order == [] then 0
    else
      var m := MaxCount(order[..|order| - 1], count);
      var c := count[order[|order| - 1]];
      if c > m then c else m
  }

  /** The first position in the order whose count is m. */
  function FirstIndexOf(order: seq<nat>, count: map<nat, nat>, m: nat): (r: nat)
    requires forall k :: k in order ==> k in count
    requires exists i :: 0 <= i < |order| && count[order[i]] == m
    ensures r < |order| && count[order[r]] == m
    ensures forall j :: 0 <= j < r ==> count[order[j]] != m
  {
    if count[order[0]] == m then 0
    else
      assert exists i :: 0 <= i < |order[1..]| && count[order[1..][i]] == m by {
        var i :| 0 <= i < |order| && count[order[i]] == m;
        assert i > 0 && order[1..][i - 1] == order[i];
      }
      1 + FirstIndexOf(order[1..], count, m)
  }

  /** The position in the order of the first bucket with the largest count. */
  function TopIndex(t: Tally): (i: nat)
    requires forall k :: k in t.order ==> k in t.count
    requires t.order != []
    ensures i < |t.order|
  {
    FirstIndexOf(t.order, t.count, MaxCount(t.order, t.count))
  }

  /**
   * The bucket the handler reports: the first key in insertion order whose
   * count is the largest, and 0 (black) when no pixel was counted.
   */
  function DominantKey(t: Tally): nat
    requires forall k :: k in t.order ==> k in t.count
  {
    if MaxCount(t.order, t.count) == 0 then 0 else t.order[TopIndex(t)]
  }

  /** One more bucket visited by the search: the largest count so far grows only past it. */
  lemma MaxCountStep(s: seq<nat>, count: map<nat, nat>, k: nat)
    requires forall j :: j in s ==> j in count
    requires k in count
    ensures MaxCount(s + [k], count) == if count[k] > MaxCount(s, count) then count[k] else MaxCount(s, count)
  {
    assert (s + [k])[..|s|] == s;
  }

  /** One more bucket visited by the search: it takes over only with a strictly larger count. */
  lemma DominantStep(s: seq<nat>, count: map<nat, nat>, k: nat)
    requires forall j :: j in s ==> j in count
    requires k in count
    ensures DominantKey(Tally(s + [k], count)) ==
      if count[k] > MaxCount(s, count) then k else DominantKey(Tally(s, count))
  {
    var s' := s + [k];
    MaxCountStep(s, count, k);
    var m, c := MaxCount(s, count), count[k];
    if c > m {
      var r := FirstIndexOf(s', count, c);
      assert r == |s|;
    } else if m > 0 {
      var r0 := FirstIndexOf(s, count, m);
      assert s'[r0] == s[r0];
      var r1 := FirstIndexOf(s', count, m);
      assert r1 <= r0;
      assert s'[r1] == s[r1];
      assert r0 == r1;
    }
  }

  /**
   * For a table the loop can build: with no bucket the key is 0; otherwise it
   * is the bucket at TopIndex, whose count no bucket exceeds, and every
   * bucket inserted before it has a strictly smaller count.
   */
  lemma DominantIsFirstMaximal(t: Tally)
    requires WellFormed(t)
    ensures t.order == [] ==> DominantKey(t) == 0
    ensures t.order != [] ==> DominantKey(t) == t.order[TopIndex(t)]
    ensures t.order != [] ==>
      forall j :: 0 <= j < |t.order| ==> t.count[t.order[j]] <= t.count[DominantKey(t)]
    ensures t.order != [] ==>
      forall j :: 0 <= j < TopIndex(t) ==> t.count[t.order[j]] < t.count[DominantKey(t)]
  {
    if t.order != [] {
      assert t.count[t.order[0]] >= 1;
    }
  }

  /** A well-formed table with a bucket has a positive total. */
  lemma NonEmptySum(t: Tally)
    requires WellFormed(t) && t.order != []
    ensures Sum(t.order, t.count) > 0
  {
    assert Sum(t.order, t.count) >= t.count[t.order[|t.order| - 1]];
  }

  /**
   * With no non-transparent pixel the reported bucket is 0 (black); otherwise
   * it is a bucket some non-transparent pixel falls in.
   */
  lemma DominantSeen(data: seq<byte>, n: nat)
    requires n <= PixelCount(data)
    ensures NonTransparentCount(data, n) == 0 ==> DominantKey(Histogram(data, n)) == 0
    ensures NonTransparentCount(data, n) > 0 ==> Occurrences(data, n, DominantKey(Histogram(data, n))) > 0
  {
    var t := Histogram(data, n);
    HistogramTotal(data, n);
    DominantIsFirstMaximal(t);
    if t.order != [] {
      NonEmptySum(t);
      var d := DominantKey(t);
      assert d in t.count;
      HistogramCounts(data, n, d);
    } else {
      assert Sum(t.order, t.count) == 0;
    }
  }

  /** The reported bucket is one of the 16^3 bucket keys, also when it is the starting key 0. */
  lemma DominantIsBucketKey(data: seq<byte>, n: nat)
    requires n <= PixelCount(data)
    ensures IsBucketKey(DominantKey(Histogram(data, n)))
  {
    var t := Histogram(data, n);
    DominantIsFirstMaximal(t);
    if t.order != [] {
      assert DominantKey(t) in t.count;
      HistogramBucketKeys(data, n, DominantKey(t));
    } else {
      LevelsAreBucketKey(0, 0, 0);
    }
  }

  /** The position of key k in the order. */
  function IndexOf(s: seq<nat>, k: nat): (j: nat)
    requires k in s
    ensures j < |s| && s[j] == k
  {
    if s[0] == k then 0 else 1 + IndexOf(s[1..], k)
  }

  /** A bucket that ties with the reported one, under another key, was inserted after it. */
  lemma TieAfterTop(t: Tally, k: nat)
    requires WellFormed(t) && k in t.count
    requires k != DominantKey(t) && t.count[k] == t.count[DominantKey(t)]
    ensures t.order != [] && TopIndex(t) < IndexOf(t.order, k)
  {
    DominantIsFirstMaximal(t);
    var i, j := TopIndex(t), IndexOf(t.order, k);
    assert t.order[i] == DominantKey(t) && t.order[j] == k;
    assert j != i;
    assert !(j < i);
  }

  /**
   * The reported bucket, described by the pixels alone: no bucket has more
   * non-transparent pixels, and of the buckets with as many, it is the one
   * whose first pixel comes earliest.
   */
  lemma DominantByPixels(data: seq<byte>, n: nat, k: nat)
    requires n <= PixelCount(data)
    ensures Occurrences(data, n, k) <= Occurrences(data, n, DominantKey(Histogram(data, n)))
    ensures k != DominantKey(Histogram(data, n)) && Occurrences(data, n, k) > 0
        && Occurrences(data, n, k) == Occurrences(data, n, DominantKey(Histogram(data, n)))
        ==> FirstPixel(data, n, DominantKey(Histogram(data, n))) < FirstPixel(data, n, k)
  {
    var t := Histogram(data, n);
    var d := DominantKey(t);
    HistogramCounts(data, n, k);
    HistogramCounts(data, n, d);
    if k in t.count {
      DominantIsFirstMaximal(t);
      var j := IndexOf(t.order, k);
      assert t.count[k] <= t.count[d];
      if k != d && t.count[k] == t.count[d] {
        TieAfterTop(t, k);
        HistogramFirstSeenOrder(data, n, TopIndex(t), j);
      }
    }
  }
}
