/**
 * The `analyze_colors` activity: quantise every sampled pixel to a bucket of
 * 32 levels per channel, count the buckets in a dictionary, keep the five most
 * frequent as `#rrggbb` strings, and flag the image as grayscale when more than
 * 90% of the pixels have nearly equal channels.  The pixels are an input: the
 * decoding and the 50x50 resize that produce them are done by Pillow.
 */
module Colors {
  import opened Common
  import StableSort

  /** One colour channel of an RGB pixel. */
  type Channel = c: int | 0 <= c < 256

  datatype Pixel = Pixel(r: Channel, g: Channel, b: Channel)

  /** A quantised colour, the key of the histogram. */
  datatype Bucket = Bucket(r: Channel, g: Channel, b: Channel)

  /** `c // 32 * 32`: the lower end of the 32-wide band that holds c. */
  function Quantize(c: Channel): (q: Channel)
    ensures q % 32 == 0 && q <= 224
    ensures q <= c < q + 32
  {
    c / 32 * 32
  }

  function BucketOf(p: Pixel): Bucket {
    Bucket(Quantize(p.r), Quantize(p.g), Quantize(p.b))
  }

  // ---------------------------------------------------------------------------
  // The histogram: a Python dict, which remembers the order of first insertion
  // ---------------------------------------------------------------------------

  /** `color_counts`: the counts, and the keys in the order they were first added. */
  datatype Counts = Counts(counts: map<Bucket, nat>, order: seq<Bucket>)

  /** One pair of `color_counts.items()`. */
  datatype Entry = Entry(bucket: Bucket, count: nat)

  ghost predicate Distinct(s: seq<Bucket>) {
    forall i, j :: 0 <= i < j < |s| ==> s[i] != s[j]
  }

  /** The order lists every key exactly once. */
  ghost predicate WellFormed(d: Counts) {
    && Distinct(d.order)
    && (forall k :: k in d.counts <==> k in d.order)
    && |d.counts| == |d.order|
  }

  /** `color_counts[key] = color_counts.get(key, 0) + 1`. */
  function Add(d: Counts, key: Bucket): Counts {
    if key in d.counts then Counts(d.counts[key := d.counts[key] + 1], d.order)
    else Counts(d.counts[key := 1], d.order + [key])
  }

  /** The dictionary after counting `pixels` in order. */
  function Histogram(pixels: seq<Pixel>): Counts {
    if pixels == [] then Counts(map[], [])
    else Add(Histogram(pixels[..|pixels| - 1]), BucketOf(pixels[|pixels| - 1]))
  }

  /** The bucket of every pixel, in order. */
  function Buckets(pixels: seq<Pixel>): (bs: seq<Bucket>)
    ensures |bs| == |pixels|
  {
    seq(|pixels|, i requires 0 <= i < |pixels| => BucketOf(pixels[i]))
  }

  /** `color_counts.items()`, in insertion order. */
  function Items(d: Counts): (items: seq<Entry>)
    ensures |items| == |d.order|
  {
    seq(|d.order|, i requires 0 <= i < |d.order| =>
      Entry(d.order[i], if d.order[i] in d.counts then d.counts[d.order[i]] else 0))
  }

  /** The sum of the counts. */
  function Total(items: seq<Entry>): nat {
    if items == [] then 0 else Total(items[..|items| - 1]) + items[|items| - 1].count
  }

  /**
   * The loop over the pixels, with the dictionary kept in two variables: the
   * counts and the keys in first-insertion order.
   */
  method CountColors(pixels: seq<Pixel>) returns (d: Counts)
    ensures d == Histogram(pixels)
  {
    var counts: map<Bucket, nat> := map[];
    var order: seq<Bucket> := [];
    var i := 0;
    while i < |pixels|
      invariant 0 <= i <= |pixels|
      invariant Counts(counts, order) == Histogram(pixels[..i])
    {
      var key := BucketOf(pixels[i]);
      var n := if key in counts then counts[key] else 0;
      if key !in counts {
        order := order + [key];
      }
      counts := counts[key := n + 1];
      assert pixels[..i + 1][..i] == pixels[..i];
      i := i + 1;
    }
    assert pixels[..i] == pixels;
    d := Counts(counts, order);
  }

  /** The order lists each key of the dictionary exactly once. */
  lemma {:induction false} HistogramWellFormed(pixels: seq<Pixel>)
    ensures WellFormed(Histogram(pixels))
  {
    if pixels != [] {
      var init := pixels[..|pixels| - 1];
      var key := BucketOf(pixels[|pixels| - 1]);
      HistogramWellFormed(init);
      var d := Histogram(init);
      if key !in d.counts {
        var order := d.order + [key];
        forall i, j | 0 <= i < j < |order| ensures order[i] != order[j] {
          if j == |order| - 1 {
            assert order[i] == d.order[i];
            assert order[i] in d.counts;
          }
        }
      }
    }
  }

  /** A bucket is a key exactly when some pixel falls in it. */
  lemma {:induction false} HistogramKeys(pixels: seq<Pixel>)
    ensures forall k :: k in Histogram(pixels).counts <==> k in multiset(Buckets(pixels))
  {
    if pixels != [] {
      var init := pixels[..|pixels| - 1];
      HistogramKeys(init);
      assert Buckets(pixels) == Buckets(init) + [BucketOf(pixels[|pixels| - 1])];
    }
  }

  /**
   * The histogram counts every pixel in its bucket and nothing else: a bucket
   * is a key exactly when some pixel falls in it, and its count is the number
   * of pixels that do (so at least 1).
   */
  lemma {:induction false} HistogramCounts(pixels: seq<Pixel>)
    ensures forall k :: k in Histogram(pixels).counts <==> k in multiset(Buckets(pixels))
    ensures forall k :: k in Histogram(pixels).counts ==>
      Histogram(pixels).counts[k] == multiset(Buckets(pixels))[k]
  {
    HistogramKeys(pixels);
    if pixels != [] {
      var init := pixels[..|pixels| - 1];
      HistogramCounts(init);
      assert Buckets(pixels) == Buckets(init) + [BucketOf(pixels[|pixels| - 1])];
    }
  }

  /** Every recorded bucket has a count of at least one. */
  lemma HistogramPositive(pixels: seq<Pixel>)
    ensures forall k :: k in Histogram(pixels).counts ==> Histogram(pixels).counts[k] >= 1
  {
    HistogramCounts(pixels);
  }

  lemma {:induction false} TotalIncrement(a: seq<Entry>, i: nat)
    requires i < |a|
    ensures Total(a[i := Entry(a[i].bucket, a[i].count + 1)]) == Total(a) + 1
  {
    var b := a[i := Entry(a[i].bucket, a[i].count + 1)];
    if i < |a| - 1 {
      TotalIncrement(a[..|a| - 1], i);
      assert b[..|b| - 1] == a[..|a| - 1][i := Entry(a[i].bucket, a[i].count + 1)];
    } else {
      assert b[..|b| - 1] == a[..|a| - 1];
    }
  }

  lemma ItemsAddExisting(d: Counts, key: Bucket, i: nat)
    requires WellFormed(d)
    requires i < |d.order| && d.order[i] == key
    ensures Items(Add(d, key)) == Items(d)[i := Entry(key, Items(d)[i].count + 1)]
  {
    var a, b := Items(d), Items(Add(d, key));
    forall j | 0 <= j < |a| ensures b[j] == a[i := Entry(key, a[i].count + 1)][j] {
      if j != i {
        assert d.order[j] != key;
      }
    }
  }

  lemma ItemsAddNew(d: Counts, key: Bucket)
    requires WellFormed(d)
    requires key !in d.counts
    ensures Items(Add(d, key)) == Items(d) + [Entry(key, 1)]
  {
    var a, b := Items(d), Items(Add(d, key));
    forall j | 0 <= j < |a| ensures b[j] == a[j] {
      assert d.order[j] in d.counts;
    }
  }

  /** Counting one more pixel adds one to the sum of the counts. */
  lemma TotalAdd(d: Counts, key: Bucket)
    requires WellFormed(d)
    ensures Total(Items(Add(d, key))) == Total(Items(d)) + 1
  {
    var items, items' := Items(d), Items(Add(d, key));
    if key in d.counts {
      var i :| 0 <= i < |d.order| && d.order[i] == key;
      ItemsAddExisting(d, key, i);
      TotalIncrement(items, i);
    } else {
      ItemsAddNew(d, key);
      assert items'[..|items'| - 1] == items;
    }
  }

  /** The counts add up to the number of pixels. */
  lemma {:induction false} HistogramTotal(pixels: seq<Pixel>)
    ensures Total(Items(Histogram(pixels))) == |pixels|
  {
    if pixels != [] {
      var init := pixels[..|pixels| - 1];
      HistogramTotal(init);
      HistogramWellFormed(init);
      TotalAdd(Histogram(init), BucketOf(pixels[|pixels| - 1]));
    }
  }

  /** The number of entries is the number of distinct buckets. */
  lemma HistogramSize(pixels: seq<Pixel>)
    ensures |Items(Histogram(pixels))| == |Histogram(pixels).counts|
  {
    HistogramWellFormed(pixels);
  }

  // ---------------------------------------------------------------------------
  // The five most frequent buckets
  // ---------------------------------------------------------------------------

  /** The sort key `lambda x: x[1]`: compare entries by count. */
  predicate CountLeq(a: Entry, b: Entry) {
    a.count <= b.count
  }

  lemma CountLeqTotalPreorder()
    ensures StableSort.TotalPreorder(CountLeq)
  {
  }

  /** `sorted(color_counts.items(), key=..., reverse=True)[:5]`. */
  function TopBuckets(d: Counts): (top: seq<Entry>)
    ensures |top| <= 5 && |top| <= |d.order|
    ensures top <= StableSort.SortDesc(Items(d), CountLeq)
  {
    StableSort.SlicePrefix(StableSort.SortDesc(Items(d), CountLeq), 5)
  }

  /** Every entry of `items()` carries its bucket's count. */
  lemma ItemsAreCounts(d: Counts, e: Entry)
    requires WellFormed(d)
    requires e in Items(d)
    ensures e.bucket in d.counts && d.counts[e.bucket] == e.count
  {
    var i :| 0 <= i < |d.order| && Items(d)[i] == e;
    assert d.order[i] in d.counts;
  }

  /** Every key of the dictionary has its entry in `items()`. */
  lemma CountsAreItems(d: Counts, k: Bucket)
    requires WellFormed(d)
    requires k in d.counts
    ensures Entry(k, d.counts[k]) in Items(d)
  {
    var i :| 0 <= i < |d.order| && d.order[i] == k;
    assert Items(d)[i] == Entry(k, d.counts[k]);
  }

  /** At most five entries are selected, and no more than there are keys. */
  lemma TopSize(d: Counts)
    requires WellFormed(d)
    ensures |TopBuckets(d)| == Min(5, |d.counts|)
  {
    assert |StableSort.SortDesc(Items(d), CountLeq)| == |d.counts|;
  }

  /** The facts the generic selection lemma gives about the selected entries. */
  lemma TopSelected(d: Counts)
    ensures var top := TopBuckets(d);
      && StableSort.Descending(top, CountLeq)
      && (forall t :: t in top ==> t in Items(d))
      && (forall e, t :: e in Items(d) && e !in top && t in top ==> CountLeq(e, t))
  {
    CountLeqTotalPreorder();
    StableSort.TopSelection(Items(d), 5, CountLeq);
  }

  /**
   * The selection from any dictionary: at most five entries and no more than
   * there are keys, highest count first, each with its key's count, and no key
   * left out has a higher count than one selected.
   */
  lemma TopOfCounts(d: Counts)
    requires WellFormed(d)
    ensures var top := TopBuckets(d);
      && |top| == Min(5, |d.counts|)
      && (forall i, j :: 0 <= i < j < |top| ==> top[j].count <= top[i].count)
      && (forall t :: t in top ==> t.bucket in d.counts && d.counts[t.bucket] == t.count)
      && (forall e, t :: e in Items(d) && e !in top && t in top ==> e.count <= t.count)
  {
    var top := TopBuckets(d);
    TopSize(d);
    TopSelected(d);
    forall i, j | 0 <= i < j < |top| ensures top[j].count <= top[i].count {
      assert CountLeq(top[j], top[i]);
    }
    forall t | t in top ensures t.bucket in d.counts && d.counts[t.bucket] == t.count {
      ItemsAreCounts(d, t);
    }
    forall e, t | e in Items(d) && e !in top && t in top ensures e.count <= t.count {
      assert CountLeq(e, t);
    }
  }

  /** What `top_colors` holds, for the histogram of the sampled pixels. */
  lemma TopBucketsSelected(pixels: seq<Pixel>)
    ensures var d := Histogram(pixels); var top := TopBuckets(d);
      && |top| == Min(5, |d.counts|)
      && (forall i, j :: 0 <= i < j < |top| ==> top[j].count <= top[i].count)
      && (forall t :: t in top ==> t.bucket in d.counts && d.counts[t.bucket] == t.count)
      && (forall e, t :: e in Items(d) && e !in top && t in top ==> e.count <= t.count)
  {
    HistogramWellFormed(pixels);
    TopOfCounts(Histogram(pixels));
  }

  /** The first selected entry is one that no other key outnumbers. */
  lemma TopIsMostFrequent(d: Counts)
    requires WellFormed(d)
    requires |d.counts| > 0
    ensures var top := TopBuckets(d);
      && |top| >= 1 && top[0].bucket in d.counts && d.counts[top[0].bucket] == top[0].count
      && forall k :: k in d.counts ==> d.counts[k] <= top[0].count
  {
    var top := TopBuckets(d);
    TopOfCounts(d);
    assert top[0] in top;
    forall k | k in d.counts ensures d.counts[k] <= top[0].count {
      var e := Entry(k, d.counts[k]);
      CountsAreItems(d, k);
      if e in top {
        var j :| 0 <= j < |top| && top[j] == e;
        assert j == 0 || top[j].count <= top[0].count;
      }
    }
  }

  /** The first selected bucket is one that no other bucket outnumbers. */
  lemma TopBucketIsMostFrequent(pixels: seq<Pixel>)
    requires pixels != []
    ensures var d := Histogram(pixels); var top := TopBuckets(d);
      && |top| >= 1 && top[0].bucket in d.counts && d.counts[top[0].bucket] == top[0].count
      && forall k :: k in d.counts ==> d.counts[k] <= top[0].count
  {
    var d := Histogram(pixels);
    HistogramWellFormed(pixels);
    assert BucketOf(pixels[0]) in d.counts by {
      assert Buckets(pixels)[0] == BucketOf(pixels[0]);
      HistogramKeys(pixels);
    }
    TopIsMostFrequent(d);
  }

  /** Among buckets with equal counts, the sort keeps the dictionary's insertion order. */
  lemma TopBucketsStable(d: Counts, k: Entry)
    ensures StableSort.Ties(StableSort.SortDesc(Items(d), CountLeq), k, CountLeq)
         == StableSort.Ties(Items(d), k, CountLeq)
  {
    CountLeqTotalPreorder();
    StableSort.SortStable(Items(d), k, CountLeq);
  }

  // ---------------------------------------------------------------------------
  // `f"#{r:02x}{g:02x}{b:02x}"` and its inverse
  // ---------------------------------------------------------------------------

  predicate IsLowerHexDigit(c: char) {
    '0' <= c <= '9' || 'a' <= c <= 'f'
  }

  function HexDigit(d: nat): (c: char)
    requires d < 16
    ensures IsLowerHexDigit(c)
  {
    "0123456789abcdef"[d]
  }

  function HexValue(c: char): (d: nat)
    requires IsLowerHexDigit(c)
    ensures d < 16
  {
    if c <= '9' then (c as int) - ('0' as int) else (c as int) - ('a' as int) + 10
  }

  lemma HexDigitValue(d: nat)
    requires d < 16
    ensures HexValue(HexDigit(d)) == d
  {
    if d == 0 {} else if d == 1 {} else if d == 2 {} else if d == 3 {}
    else if d == 4 {} else if d == 5 {} else if d == 6 {} else if d == 7 {}
    else if d == 8 {} else if d == 9 {} else if d == 10 {} else if d == 11 {}
    else if d == 12 {} else if d == 13 {} else if d == 14 {} else {}
  }

  lemma HexValueDigit(c: char)
    requires IsLowerHexDigit(c)
    ensures HexDigit(HexValue(c)) == c
  {
    if c == '0' {} else if c == '1' {} else if c == '2' {} else if c == '3' {}
    else if c == '4' {} else if c == '5' {} else if c == '6' {} else if c == '7' {}
    else if c == '8' {} else if c == '9' {} else if c == 'a' {} else if c == 'b' {}
    else if c == 'c' {} else if c == 'd' {} else if c == 'e' {} else {}
  }

  /** `f"{v:02x}"` for a channel: two lower-case hex digits. */
  function Hex2(v: Channel): string {
    [HexDigit(v / 16), HexDigit(v % 16)]
  }

  function HexColor(b: Bucket): string {
    "#" + Hex2(b.r) + Hex2(b.g) + Hex2(b.b)
  }

  /** `#` followed by six lower-case hex digits. */
  predicate IsHexColor(s: string) {
    |s| == 7 && s[0] == '#' && forall i :: 1 <= i < 7 ==> IsLowerHexDigit(s[i])
  }

  function ByteOf(hi: char, lo: char): Channel
    requires IsLowerHexDigit(hi) && IsLowerHexDigit(lo)
  {
    HexValue(hi) * 16 + HexValue(lo)
  }

  /** Reads a colour written as `#rrggbb` in lower-case hex. */
  function ParseHexColor(s: string): Option<Bucket> {
    if IsHexColor(s) then Some(Bucket(ByteOf(s[1], s[2]), ByteOf(s[3], s[4]), ByteOf(s[5], s[6])))
    else None
  }

  lemma Hex2RoundTrip(v: Channel)
    ensures ByteOf(Hex2(v)[0], Hex2(v)[1]) == v
  {
    HexDigitValue(v / 16);
    HexDigitValue(v % 16);
  }

  /** Every hex string has the form `#rrggbb` and reads back as its bucket. */
  lemma HexColorRoundTrip(b: Bucket)
    ensures IsHexColor(HexColor(b))
    ensures ParseHexColor(HexColor(b)) == Some(b)
  {
    Hex2RoundTrip(b.r);
    Hex2RoundTrip(b.g);
    Hex2RoundTrip(b.b);
  }

  lemma Hex2ByteOf(hi: char, lo: char)
    requires IsLowerHexDigit(hi) && IsLowerHexDigit(lo)
    ensures Hex2(ByteOf(hi, lo)) == [hi, lo]
  {
    var v := ByteOf(hi, lo);
    assert v / 16 == HexValue(hi) && v % 16 == HexValue(lo);
    HexValueDigit(hi);
    HexValueDigit(lo);
  }

  /** A `#rrggbb` string is the hex string of the colour it reads as. */
  lemma ParseHexColorInverse(s: string)
    requires ParseHexColor(s).Some?
    ensures HexColor(ParseHexColor(s).value) == s
  {
    Hex2ByteOf(s[1], s[2]);
    Hex2ByteOf(s[3], s[4]);
    Hex2ByteOf(s[5], s[6]);
    assert s == "#" + [s[1], s[2]] + [s[3], s[4]] + [s[5], s[6]];
  }

  /** One element of `top_colors`; the rounded percentage is not modelled. */
  datatype ColorInfo = ColorInfo(hex: string, rgb: Bucket)

  function Describe(e: Entry): ColorInfo {
    ColorInfo(HexColor(e.bucket), e.bucket)
  }

  function DescribeAll(top: seq<Entry>): (infos: seq<ColorInfo>)
    ensures |infos| == |top|
  {
    seq(|top|, i requires 0 <= i < |top| => Describe(top[i]))
  }

  /** Every description carries its bucket and a hex string that reads back as it. */
  lemma DescriptionsParse(top: seq<Entry>)
    ensures forall i :: 0 <= i < |top| ==>
      DescribeAll(top)[i].rgb == top[i].bucket
      && ParseHexColor(DescribeAll(top)[i].hex) == Some(top[i].bucket)
  {
    forall i | 0 <= i < |top|
      ensures ParseHexColor(DescribeAll(top)[i].hex) == Some(top[i].bucket)
    {
      HexColorRoundTrip(top[i].bucket);
    }
  }

  /** The loop that appends one description per selected bucket. */
  method DescribeTop(top: seq<Entry>) returns (infos: seq<ColorInfo>)
    ensures infos == DescribeAll(top)
    ensures forall i :: 0 <= i < |infos| ==>
      infos[i].rgb == top[i].bucket && ParseHexColor(infos[i].hex) == Some(top[i].bucket)
  {
    infos := [];
    for i := 0 to |top|
      invariant infos == DescribeAll(top[..i])
    {
      assert DescribeAll(top[..i + 1]) == DescribeAll(top[..i]) + [Describe(top[i])];
      infos := infos + [Describe(top[i])];
    }
    assert top[..|top|] == top;
    DescriptionsParse(top);
  }

  // ---------------------------------------------------------------------------
  // Grayscale
  // ---------------------------------------------------------------------------

  function Abs(x: int): nat { if x < 0 then -x else x }

  /** `abs(r - g) < 30 and abs(g - b) < 30`. */
  predicate IsGrayPixel(p: Pixel) {
    Abs(p.r - p.g) < 30 && Abs(p.g - p.b) < 30
  }

  /** `sum(1 for r, g, b in pixels if ...)`. */
  function GrayCount(pixels: seq<Pixel>): (n: nat)
    ensures n <= |pixels|
  {
    if pixels == [] then 0
    else GrayCount(pixels[..|pixels| - 1]) + (if IsGrayPixel(pixels[|pixels| - 1]) then 1 else 0)
  }

  /** The gray test of every pixel, in order. */
  function GrayFlags(pixels: seq<Pixel>): (fs: seq<bool>)
    ensures |fs| == |pixels|
  {
    seq(|pixels|, i requires 0 <= i < |pixels| => IsGrayPixel(pixels[i]))
  }

  /** The count is the number of pixels that pass the gray test. */
  lemma {:induction false} GrayCountCounts(pixels: seq<Pixel>)
    ensures GrayCount(pixels) == multiset(GrayFlags(pixels))[true]
  {
    if pixels != [] {
      var init := pixels[..|pixels| - 1];
      GrayCountCounts(init);
      assert GrayFlags(pixels) == GrayFlags(init) + [IsGrayPixel(pixels[|pixels| - 1])];
    }
  }

  /**
   * `grayscale_pixels / len(pixels) > 0.9`, as the exact integer comparison.
   * The caller rules out the empty list, where the division raises.
   */
  predicate IsGrayscale(pixels: seq<Pixel>)
    requires pixels != []
  {
    10 * GrayCount(pixels) > 9 * |pixels|
  }

  /** An image whose pixels all pass the gray test is grayscale. */
  lemma {:induction false} AllGrayIsGrayscale(pixels: seq<Pixel>)
    requires pixels != []
    requires forall i :: 0 <= i < |pixels| ==> IsGrayPixel(pixels[i])
    ensures IsGrayscale(pixels)
  {
    GrayCountCounts(pixels);
    assert GrayFlags(pixels) == seq(|pixels|, i => true);
    AllTrue(|pixels|);
  }

  lemma {:induction false} AllTrue(n: nat)
    ensures multiset(seq(n, i => true))[true] == n
  {
    if n > 0 {
      AllTrue(n - 1);
      assert seq(n, i => true) == seq(n - 1, i => true) + [true];
    }
  }

  /** For the 50x50 sample the source takes, grayscale means at least 2251 gray pixels. */
  lemma GrayscaleOfSample(pixels: seq<Pixel>)
    requires |pixels| == 2500
    ensures IsGrayscale(pixels) <==> GrayCount(pixels) >= 2251
  {
  }

  // ---------------------------------------------------------------------------
  // The activity
  // ---------------------------------------------------------------------------

  /** The dictionary the activity returns; `error` is present only on failure. */
  datatype ColorAnalysis = ColorAnalysis(
    dominantColors: seq<ColorInfo>,
    isGrayscale: bool,
    totalPixelsSampled: nat,
    error: Option<string>)

  function Failed(message: string): ColorAnalysis {
    ColorAnalysis([], false, 0, Some(message))
  }

  /**
   * The activity's result for the decoded pixels, or for the message of the
   * exception that decoding raised.  An empty pixel list reaches the grayscale
   * ratio and raises ZeroDivisionError, which the handler reports.
   */
  function ColorAnalysisOf(decoded: Result<seq<Pixel>>): ColorAnalysis {
    match decoded
    case Failure(message) => Failed(message)
    case Success(pixels) =>
      if pixels == [] then Failed("division by zero")
      else ColorAnalysis(DescribeAll(TopBuckets(Histogram(pixels))), IsGrayscale(pixels), |pixels|, None)
  }

  method AnalyzeColors(decoded: Result<seq<Pixel>>) returns (r: ColorAnalysis)
    ensures r == ColorAnalysisOf(decoded)
    ensures r.error.None? <==> decoded.Success? && decoded.value != []
    ensures |r.dominantColors| <= 5
    ensures forall i :: 0 <= i < |r.dominantColors| ==>
      ParseHexColor(r.dominantColors[i].hex) == Some(r.dominantColors[i].rgb)
  {
    match decoded {
      case Failure(message) =>
        r := Failed(message);
      case Success(pixels) =>
        var d := CountColors(pixels);
        var sorted := StableSort.SortDesc(Items(d), CountLeq);
        var top := DescribeTop(StableSort.SlicePrefix(sorted, 5));
        if pixels == [] {
          r := Failed("division by zero");
        } else {
          var gray := GrayCount(pixels);
          r := ColorAnalysis(top, 10 * gray > 9 * |pixels|, |pixels|, None);
        }
    }
  }
}
