/** Colour and grey histograms of an image (Colmeleon/Histogram.py).

    Pixel arrays are taken as given (image decoding is outside the model), as is
    the HSV saturation plane that decides between a Color and a Grey histogram.
    Binning is `plt.hist(values, bins=n, range=[0,255])`, stated here as the
    uniform-bin rule: a value `v` in 0..255 falls in bin `min(v*n/255, n-1)`
    (integer division), and values outside the range are not counted. */
module Histograms {
  import opened Outcomes

  /** A bin count that `plt.hist` accepts. */
  type Bins = n: int | n >= 1 witness 1

  // ---- Sequences of counts ----

  function Sum(s: seq<int>): int {
    if |s| == 0 then 0 else s[0] + Sum(s[1..])
  }

  lemma {:induction false} SumAppend(s: seq<int>, t: seq<int>)
    ensures Sum(s + t) == Sum(s) + Sum(t)
  {
    if |s| > 0 {
      assert (s + t)[1..] == s[1..] + t;
      SumAppend(s[1..], t);
    } else {
      assert s + t == t;
    }
  }

  lemma {:induction false} SumUpdate(s: seq<int>, k: nat, d: int)
    requires k < |s|
    ensures Sum(s[k := s[k] + d]) == Sum(s) + d
  {
    if k > 0 {
      assert s[k := s[k] + d][1..] == s[1..][k - 1 := s[1..][k - 1] + d];
      SumUpdate(s[1..], k - 1, d);
    }
  }

  /** `n` bins, all empty. */
  function Zeros(n: nat): (r: seq<int>)
    ensures |r| == n && forall k :: 0 <= k < n ==> r[k] == 0
  {
    seq(n, _ => 0)
  }

  /** `n` bins, all empty except bin `b`, which holds `c`. */
  function Spike(n: nat, b: nat, c: int): (r: seq<int>)
    ensures |r| == n
  {
    seq(n, i => if i == b then c else 0)
  }

  function Repeat<T>(v: T, m: nat): (r: seq<T>)
    ensures |r| == m && forall k :: 0 <= k < m ==> r[k] == v
  {
    seq(m, _ => v)
  }

  /** Row-major flattening, `a.flatten()` one level at a time. */
  function Flat<T>(rows: seq<seq<T>>): seq<T> {
    if |rows| == 0 then [] else rows[0] + Flat(rows[1..])
  }

  lemma {:induction false} FlatRepeat<T>(v: T, c: nat, m: nat)
    ensures Flat(Repeat(Repeat(v, c), m)) == Repeat(v, c * m)
  {
    if m > 0 {
      assert Repeat(Repeat(v, c), m)[1..] == Repeat(Repeat(v, c), m - 1);
      FlatRepeat(v, c, m - 1);
      assert c * m == c + c * (m - 1);
    }
  }

  // ---- Pixel arrays ----

  /** The numpy array of an image: 2-D with one value per pixel, or 3-D with a
      list of channel values per pixel. */
  datatype PixelArray = Plane(plane: seq<seq<int>>) | Cube(cube: seq<seq<seq<int>>>) {
    /** `len(array)`, the number of rows. */
    function Height(): nat {
      match this
      case Plane(p) => |p|
      case Cube(c) => |c|
    }

    /** `len(array[0])`, the length of the first row. */
    function Width(): nat
      requires Height() > 0
    {
      match this
      case Plane(p) => |p[0]|
      case Cube(c) => |c[0]|
    }
  }

  /** `array.flatten()`: every entry, row by row, channel values in order. */
  function Entries(a: PixelArray): seq<int> {
    match a
    case Plane(p) => Flat(p)
    case Cube(c) => Flat(seq(|c|, i requires 0 <= i < |c| => Flat(c[i])))
  }

  /** `array[:,:,k]` is defined for k = 0, 1, 2. */
  predicate HasRgb(a: PixelArray) {
    a.Cube? && forall i, j :: 0 <= i < |a.cube| && 0 <= j < |a.cube[i]| ==> |a.cube[i][j]| >= 3
  }

  /** `array[:,:,k].flatten()` */
  function ChannelEntries(a: PixelArray, k: nat): seq<int>
    requires HasRgb(a) && k < 3
  {
    Flat(ChannelRows(a, k))
  }

  /** `array[:,:,k]` */
  function ChannelRows(a: PixelArray, k: nat): (rows: seq<seq<int>>)
    requires HasRgb(a) && k < 3
    ensures |rows| == |a.cube| && forall i :: 0 <= i < |rows| ==> |rows[i]| == |a.cube[i]|
    ensures forall i, j :: 0 <= i < |rows| && 0 <= j < |rows[i]| ==> rows[i][j] == a.cube[i][j][k]
  {
    seq(|a.cube|, i requires 0 <= i < |a.cube| =>
      seq(|a.cube[i]|, j requires 0 <= j < |a.cube[i]| => a.cube[i][j][k]))
  }

  /** `(s == 0).all()` on the saturation plane. */
  predicate AllZero(s: seq<seq<int>>) {
    forall i, j :: 0 <= i < |s| && 0 <= j < |s[i]| ==> s[i][j] == 0
  }

  // ---- Binning ----

  function BinOf(v: int, n: Bins): (b: nat)
    requires 0 <= v <= 255
    ensures b < n
  {
    var q := v * n / 255;
    if q < n - 1 then q else n - 1
  }

  /** How many of `values` lie in the histogram range 0..255. */
  function InRangeCount(values: seq<int>): (c: nat)
    ensures c <= |values|
  {
    if |values| == 0 then 0
    else InRangeCount(values[..|values| - 1]) + (if 0 <= values[|values| - 1] <= 255 then 1 else 0)
  }

  /** The bin counts `plt.hist(values, bins=n, range=[0,255])[0]`. */
  function Binned(values: seq<int>, n: Bins): (r: seq<int>)
    ensures |r| == n
    ensures forall k :: 0 <= k < n ==> r[k] >= 0
  {
    if |values| == 0 then Zeros(n)
    else
      var prev := Binned(values[..|values| - 1], n);
      var v := values[|values| - 1];
      if 0 <= v <= 255 then prev[BinOf(v, n) := prev[BinOf(v, n)] + 1] else prev
  }

  /** Every value in range is counted exactly once. */
  lemma {:induction false} BinnedSum(values: seq<int>, n: Bins)
    ensures Sum(Binned(values, n)) == InRangeCount(values)
  {
    if |values| == 0 {
      ZerosSum(n);
    } else {
      BinnedSum(values[..|values| - 1], n);
      var v := values[|values| - 1];
      if 0 <= v <= 255 {
        SumUpdate(Binned(values[..|values| - 1], n), BinOf(v, n), 1);
      }
    }
  }

  lemma {:induction false} ZerosSum(n: nat)
    ensures Sum(Zeros(n)) == 0
  {
    if n > 0 {
      assert Zeros(n)[1..] == Zeros(n - 1);
      ZerosSum(n - 1);
    }
  }

  /** Values that are all in range are all counted. */
  lemma {:induction false} InRangeCountAll(values: seq<int>)
    requires forall k :: 0 <= k < |values| ==> 0 <= values[k] <= 255
    ensures InRangeCount(values) == |values|
  {
    if |values| > 0 {
      InRangeCountAll(values[..|values| - 1]);
    }
  }

  /** `m` copies of one in-range value all land in that value's bin. */
  lemma {:induction false} BinnedRepeat(v: int, m: nat, n: Bins)
    requires 0 <= v <= 255
    ensures Binned(Repeat(v, m), n) == Spike(n, BinOf(v, n), m)
  {
    if m == 0 {
      assert Binned(Repeat(v, m), n) == Zeros(n);
    } else {
      assert Repeat(v, m)[..m - 1] == Repeat(v, m - 1);
      BinnedRepeat(v, m - 1, n);
    }
  }

  // ---- Histogram values ----

  /** The bin counts of a histogram: three channels for a ColorHistogram, one
      for a GreyHistogram. */
  datatype Channels = Color(red: seq<int>, green: seq<int>, blue: seq<int>) | Grey(grey: seq<int>)

  /** A histogram as the comparison code sees it: the pixel array it was made
      from, its bin count and its channels. */
  datatype HistogramValue = HistogramValue(imageArray: PixelArray, bins: Bins, channels: Channels)

  /** `GreyHistogram(imgArray, bins)`: bins every entry of the array it is given. */
  function GreyCounts(a: PixelArray, bins: Bins): Channels {
    Grey(Binned(Entries(a), bins))
  }

  /** `ColorHistogram(imgArray, bins)`: one histogram per colour channel. */
  function ColorCounts(a: PixelArray, bins: Bins): Channels
    requires HasRgb(a)
  {
    Color(Binned(ChannelEntries(a, 0), bins), Binned(ChannelEntries(a, 1), bins), Binned(ChannelEntries(a, 2), bins))
  }

  /** The kind and the counts that `Histogram.__init__` produces: Grey when
      `grey` is forced or no pixel is saturated, Color otherwise. */
  function BuildChannels(a: PixelArray, bins: int, grey: bool, saturation: seq<seq<int>>): (r: Result<Channels>)
    ensures r.Ok? ==> (r.value.Grey? <==> grey || AllZero(saturation))
    ensures r.Ok? && r.value.Grey? ==> |r.value.grey| == bins
    ensures r.Ok? && r.value.Color? ==> |r.value.red| == |r.value.green| == |r.value.blue| == bins
    ensures r.Err? <==> bins < 1 || (!grey && !AllZero(saturation) && !HasRgb(a))
    ensures r.Err? ==> r.error == if !grey && !AllZero(saturation) && !HasRgb(a) then IndexError else ValueError
  {
    if grey || AllZero(saturation) then
      if bins < 1 then Err(ValueError) else Ok(GreyCounts(a, bins))
    else if !HasRgb(a) then Err(IndexError)
    else if bins < 1 then Err(ValueError)
    else Ok(ColorCounts(a, bins))
  }

  /** When every pixel value is a byte, each colour channel counts every pixel
      once, so the three channels have the same total. */
  lemma ColorChannelTotals(a: PixelArray, bins: Bins)
    requires HasRgb(a)
    requires forall k :: 0 <= k < |Entries(a)| ==> 0 <= Entries(a)[k] <= 255
    requires forall c :: 0 <= c < 3 ==> forall k :: 0 <= k < |ChannelEntries(a, c)| ==> 0 <= ChannelEntries(a, c)[k] <= 255
    ensures Sum(ColorCounts(a, bins).red) == |ChannelEntries(a, 0)|
    ensures Sum(ColorCounts(a, bins).green) == |ChannelEntries(a, 1)|
    ensures Sum(ColorCounts(a, bins).blue) == |ChannelEntries(a, 2)|
    ensures Sum(GreyCounts(a, bins).grey) == |Entries(a)|
  {
    BinnedSum(ChannelEntries(a, 0), bins);
    BinnedSum(ChannelEntries(a, 1), bins);
    BinnedSum(ChannelEntries(a, 2), bins);
    BinnedSum(Entries(a), bins);
    InRangeCountAll(ChannelEntries(a, 0));
    InRangeCountAll(ChannelEntries(a, 1));
    InRangeCountAll(ChannelEntries(a, 2));
    InRangeCountAll(Entries(a));
  }

  // ---- Solid-colour images ----

  /** An `h` by `w` image whose every pixel has the channel values `px`. */
  function Solid(h: nat, w: nat, px: seq<int>): PixelArray {
    Cube(Repeat(Repeat(px, w), h))
  }

  lemma SolidChannel(h: nat, w: nat, px: seq<int>, k: nat)
    requires |px| >= 3 && k < 3
    ensures HasRgb(Solid(h, w, px))
    ensures ChannelEntries(Solid(h, w, px), k) == Repeat(px[k], w * h)
  {
    var a := Solid(h, w, px);
    var rows := ChannelRows(a, k);
    forall i | 0 <= i < h
      ensures rows[i] == Repeat(px[k], w)
    {
    }
    assert rows == Repeat(Repeat(px[k], w), h);
    FlatRepeat(px[k], w, h);
  }

  lemma SolidEntries(h: nat, w: nat, v: int, c: nat)
    ensures Entries(Solid(h, w, Repeat(v, c))) == Repeat(v, c * w * h)
  {
    var a := Solid(h, w, Repeat(v, c));
    forall i | 0 <= i < h
      ensures Flat(a.cube[i]) == Repeat(v, c * w)
    {
      FlatRepeat(v, c, w);
    }
    assert seq(|a.cube|, i requires 0 <= i < |a.cube| => Flat(a.cube[i])) == Repeat(Repeat(v, c * w), h);
    FlatRepeat(v, c * w, h);
  }

  /** A saturated solid-colour image gives one spike per channel, at the bin of
      that channel's value, holding the pixel count. */
  lemma {:induction false} SolidColorHistogram(h: nat, w: nat, px: seq<int>, bins: Bins, saturation: seq<seq<int>>)
    requires |px| == 3 && forall k :: 0 <= k < 3 ==> 0 <= px[k] <= 255
    requires !AllZero(saturation)
    ensures BuildChannels(Solid(h, w, px), bins, false, saturation)
         == Ok(Color(Spike(bins, BinOf(px[0], bins), w * h),
                     Spike(bins, BinOf(px[1], bins), w * h),
                     Spike(bins, BinOf(px[2], bins), w * h)))
  {
    SolidChannel(h, w, px, 0);
    SolidChannel(h, w, px, 1);
    SolidChannel(h, w, px, 2);
    BinnedRepeat(px[0], w * h, bins);
    BinnedRepeat(px[1], w * h, bins);
    BinnedRepeat(px[2], w * h, bins);
  }

  /** A 3-channel image with equal channels bins all its entries, three per
      pixel, in one grey bin. */
  lemma {:induction false} SolidGreyHistogram(h: nat, w: nat, v: int, bins: Bins, saturation: seq<seq<int>>)
    requires 0 <= v <= 255
    requires AllZero(saturation)
    ensures BuildChannels(Solid(h, w, Repeat(v, 3)), bins, false, saturation)
         == Ok(Grey(Spike(bins, BinOf(v, bins), 3 * w * h)))
  {
    SolidEntries(h, w, v, 3);
    BinnedRepeat(v, 3 * w * h, bins);
  }

  /** The unit-test squares: a 100x100 red square (254, 0, 0) with 255 bins has
      10000 in red bin 254 and in green and blue bin 0; a 100x100 white square
      has 30000 in grey bin 254. */
  lemma TestSquares(saturated: seq<seq<int>>, unsaturated: seq<seq<int>>)
    requires !AllZero(saturated) && AllZero(unsaturated)
    ensures BuildChannels(Solid(100, 100, [254, 0, 0]), 255, false, saturated)
         == Ok(Color(Spike(255, 254, 10000), Spike(255, 0, 10000), Spike(255, 0, 10000)))
    ensures BuildChannels(Solid(100, 100, Repeat(255, 3)), 255, false, unsaturated)
         == Ok(Grey(Spike(255, 254, 30000)))
  {
    SolidColorHistogram(100, 100, [254, 0, 0], 255, saturated);
    assert BinOf(254, 255) == 254 && BinOf(0, 255) == 0;
    SolidGreyHistogram(100, 100, 255, 255, unsaturated);
    assert BinOf(255, 255) == 254;
  }

  // ---- Hash values ----

  /** Sum of `i * s[i]`, the GreyHistogram hash. */
  function WeightedSum(s: seq<int>): int {
    if |s| == 0 then 0 else WeightedSum(s[..|s| - 1]) + (|s| - 1) * s[|s| - 1]
  }

  /** Sum over the first `m` bins of `i*red[i] + i*blue[i] + i*green[i]`. */
  function ColorWeights(red: seq<int>, green: seq<int>, blue: seq<int>, m: nat): int
    requires m <= |red| && m <= |green| && m <= |blue|
  {
    if m == 0 then 0
    else ColorWeights(red, green, blue, m - 1) + (m - 1) * red[m - 1] + (m - 1) * blue[m - 1] + (m - 1) * green[m - 1]
  }

  /** `ColorHistogram.__hash__`: iterates over the red bins and raises
      IndexError when blue or green is shorter. */
  function ColorHash(red: seq<int>, green: seq<int>, blue: seq<int>): Result<int> {
    if |blue| < |red| || |green| < |red| then Err(IndexError) else Ok(ColorWeights(red, green, blue, |red|))
  }

  /** The colour hash is the sum of the three channels' grey hashes. */
  lemma {:induction false} ColorHashSplits(red: seq<int>, green: seq<int>, blue: seq<int>, m: nat)
    requires m <= |red| && m <= |green| && m <= |blue|
    ensures ColorWeights(red, green, blue, m) == WeightedSum(red[..m]) + WeightedSum(blue[..m]) + WeightedSum(green[..m])
  {
    if m > 0 {
      ColorHashSplits(red, green, blue, m - 1);
      assert red[..m][..m - 1] == red[..m - 1];
      assert green[..m][..m - 1] == green[..m - 1];
      assert blue[..m][..m - 1] == blue[..m - 1];
    }
  }

  /** A spike at bin `b` holding `c` hashes to `b * c`. */
  lemma {:induction false} WeightedSumSpike(n: nat, b: nat, c: int, m: nat)
    requires m <= n
    ensures WeightedSum(Spike(n, b, c)[..m]) == if b < m then b * c else 0
  {
    if m > 0 {
      assert Spike(n, b, c)[..m][..m - 1] == Spike(n, b, c)[..m - 1];
      WeightedSumSpike(n, b, c, m - 1);
    }
  }

  /** `hash(x)` applied to the int that `__hash__` returned: kept as is when it
      fits a 64-bit signed word, otherwise reduced as Python hashes an int
      (modulo 2**61 - 1, keeping the sign); -1 becomes -2. */
  function PyHash(v: int): int {
    var h := if -0x8000_0000_0000_0000 <= v < 0x8000_0000_0000_0000 then v
             else if v >= 0 then v % 0x1FFF_FFFF_FFFF_FFFF
             else -((-v) % 0x1FFF_FFFF_FFFF_FFFF);
    if h == -1 then -2 else h
  }

  /** `Histogram.__hash__`: `hash()` of the inner histogram. */
  function HistogramHash(c: Channels): (r: Result<int>)
    ensures c.Grey? ==> r == Ok(PyHash(WeightedSum(c.grey)))
    ensures c.Color? && |c.red| == |c.green| == |c.blue| ==>
      r == Ok(PyHash(WeightedSum(c.red) + WeightedSum(c.blue) + WeightedSum(c.green)))
  {
    match c
    case Grey(g) => Ok(PyHash(WeightedSum(g)))
    case Color(r, g, b) =>
      var h := ColorHash(r, g, b);
      assert |r| == |g| == |b| ==> h == Ok(WeightedSum(r) + WeightedSum(b) + WeightedSum(g)) by {
        if |r| == |g| == |b| {
          ColorHashEqualLengths(r, g, b);
        }
      }
      if h.Ok? then Ok(PyHash(h.value)) else Err(h.error)
  }

  /** With equal channel lengths the colour hash never raises. */
  lemma ColorHashEqualLengths(red: seq<int>, green: seq<int>, blue: seq<int>)
    requires |red| == |green| == |blue|
    ensures ColorHash(red, green, blue) == Ok(WeightedSum(red) + WeightedSum(blue) + WeightedSum(green))
  {
    ColorHashSplits(red, green, blue, |red|);
    assert red[..|red|] == red && green[..|red|] == green && blue[..|red|] == blue;
  }

  /** Hashes of the unit-test red square: 254 * 10000 from red, nothing from
      green and blue, whose mass is in bin 0. */
  lemma RedSquareHash()
    ensures HistogramHash(Color(Spike(255, 254, 10000), Spike(255, 0, 10000), Spike(255, 0, 10000))) == Ok(2540000)
  {
    WeightedSumSpike(255, 254, 10000, 255);
    WeightedSumSpike(255, 0, 10000, 255);
    assert Spike(255, 254, 10000)[..255] == Spike(255, 254, 10000);
    assert Spike(255, 0, 10000)[..255] == Spike(255, 0, 10000);
  }

  // ---- The histogram objects ----

  /** What `plt.hist` returns and the histogram classes store: the tuple
      `(counts, edges, patches)`, of which the model keeps the counts. */
  datatype PlotResult = PlotResult(counts: seq<int>)

  /** `stored[0] = hist` on that stored tuple, as the `set_*` methods are
      written: Python tuples do not support item assignment. */
  function AssignCounts(stored: PlotResult, hist: seq<int>): (r: Result<PlotResult>)
    ensures r == Err(TypeError)
  {
    Err(TypeError)
  }

  class ColorHistogram {
    var red: seq<int>
    var green: seq<int>
    var blue: seq<int>

    /** `ColorHistogram(imgArray, bins)` */
    constructor (a: PixelArray, bins: Bins)
      requires HasRgb(a)
      ensures Counts() == ColorCounts(a, bins)
    {
      red := Binned(ChannelEntries(a, 0), bins);
      green := Binned(ChannelEntries(a, 1), bins);
      blue := Binned(ChannelEntries(a, 2), bins);
    }

    function Counts(): Channels
      reads this
    {
      Color(red, green, blue)
    }

    /** `set_red`, as intended: replace the red counts only. */
    method SetRed(hist: seq<int>)
      modifies this
      ensures red == hist && green == old(green) && blue == old(blue)
    {
      red := hist;
    }

    /** `set_green`, as intended: replace the green counts only. */
    method SetGreen(hist: seq<int>)
      modifies this
      ensures green == hist && red == old(red) && blue == old(blue)
    {
      green := hist;
    }

    /** `set_blue`, as intended: replace the blue counts only. */
    method SetBlue(hist: seq<int>)
      modifies this
      ensures blue == hist && red == old(red) && green == old(green)
    {
      blue := hist;
    }

    /** `set_red` as written: assigning into the stored `plt.hist` tuple
        raises TypeError and nothing changes. */
    method SetRedAsWritten(hist: seq<int>) returns (r: Result<()>)
      ensures r == Err(TypeError)
      ensures unchanged(this)
    {
      var stored := AssignCounts(PlotResult(red), hist);
      r := Err(stored.error);
    }

    /** `__hash__`: accumulate `i*red[i] + i*blue[i] + i*green[i]` over the red bins. */
    method Hash() returns (r: Result<int>)
      ensures r == ColorHash(red, green, blue)
    {
      var res := 0;
      var i := 0;
      while i < |red|
        invariant 0 <= i <= |red|
        invariant i <= |blue| && i <= |green|
        invariant res == ColorWeights(red, green, blue, i)
      {
        if i >= |blue| || i >= |green| {
          return Err(IndexError);
        }
        res := res + i * red[i] + i * blue[i] + i * green[i];
        i := i + 1;
      }
      r := Ok(res);
    }
  }

  class GreyHistogram {
    var grey: seq<int>

    /** `GreyHistogram(imgArray, bins)` */
    constructor (a: PixelArray, bins: Bins)
      ensures Counts() == GreyCounts(a, bins)
    {
      grey := Binned(Entries(a), bins);
    }

    function Counts(): Channels
      reads this
    {
      Grey(grey)
    }

    /** `set_grey`, as intended: replace the grey counts. */
    method SetGrey(hist: seq<int>)
      modifies this
      ensures grey == hist
    {
      grey := hist;
    }

    /** `__hash__`: accumulate `i*grey[i]`. */
    method Hash() returns (h: int)
      ensures h == WeightedSum(grey)
    {
      h := 0;
      var i := 0;
      while i < |grey|
        invariant 0 <= i <= |grey|
        invariant h == WeightedSum(grey[..i])
      {
        assert grey[..i + 1][..i] == grey[..i];
        h := h + i * grey[i];
        i := i + 1;
      }
      assert grey[..i] == grey;
    }
  }

  /** The inner histogram object a Histogram holds. */
  datatype Inner = ColorInner(color: ColorHistogram) | GreyInner(grey: GreyHistogram) {
    function Obj(): object {
      match this
      case ColorInner(c) => c
      case GreyInner(g) => g
    }
  }

  class Histogram {
    const imageArray: PixelArray
    const bins: Bins
    const histograms: Inner

    constructor Of(a: PixelArray, bins: Bins, inner: Inner)
      ensures imageArray == a && this.bins == bins && histograms == inner
    {
      imageArray := a;
      this.bins := bins;
      histograms := inner;
    }

    /** The histogram as the comparison code reads it, through `get_*`. */
    function Value(): HistogramValue
      reads histograms.Obj()
    {
      match histograms
      case ColorInner(c) => HistogramValue(imageArray, bins, c.Counts())
      case GreyInner(g) => HistogramValue(imageArray, bins, g.Counts())
    }

    /** `Histogram(img, bins, grey)`, given the image's pixel array and its
        saturation plane. Raises as `BuildChannels` says. */
    static method New(a: PixelArray, bins: int, grey: bool, saturation: seq<seq<int>>) returns (r: Result<Histogram>)
      ensures r.Ok? <==> BuildChannels(a, bins, grey, saturation).Ok?
      ensures r.Ok? ==> fresh(r.value) && fresh(r.value.histograms.Obj())
      ensures r.Ok? ==> r.value.Value() == HistogramValue(a, bins, BuildChannels(a, bins, grey, saturation).value)
    {
      if grey || AllZero(saturation) {
        if bins < 1 {
          return Err(ValueError);
        }
        var g := new GreyHistogram(a, bins);
        var h := new Histogram.Of(a, bins, GreyInner(g));
        r := Ok(h);
      } else {
        if !HasRgb(a) {
          return Err(IndexError);
        }
        if bins < 1 {
          return Err(ValueError);
        }
        var c := new ColorHistogram(a, bins);
        var h := new Histogram.Of(a, bins, ColorInner(c));
        r := Ok(h);
      }
    }

    /** `__hash__`: delegates to the inner histogram. */
    method Hash() returns (r: Result<int>)
      ensures r == HistogramHash(Value().channels)
    {
      match histograms
      case ColorInner(c) =>
        var h := c.Hash();
        r := if h.Ok? then Ok(PyHash(h.value)) else h;
      case GreyInner(g) =>
        var h := g.Hash();
        r := Ok(PyHash(h));
    }
  }

  // ---- Color axes ----

  /** numpy `uint8` arithmetic wraps modulo 256. */
  function Wrap8(x: int): (r: int)
    ensures 0 <= r < 256
  {
    x % 256
  }

  /** The flattened R, G and B arrays `color_axes` starts from: the three colour
      planes for a Color histogram, the whole array three times for a Grey one. */
  function AxisSources(h: HistogramValue): Result<(seq<int>, seq<int>, seq<int>)> {
    match h.channels
    case Color(_, _, _) =>
      if HasRgb(h.imageArray) then
        Ok((ChannelEntries(h.imageArray, 0), ChannelEntries(h.imageArray, 1), ChannelEntries(h.imageArray, 2)))
      else Err(IndexError)
    case Grey(_) => Ok((Entries(h.imageArray), Entries(h.imageArray), Entries(h.imageArray)))
  }

  lemma ChannelEntriesLength(a: PixelArray, k: nat, l: nat)
    requires HasRgb(a) && k < 3 && l < 3
    ensures |ChannelEntries(a, k)| == |ChannelEntries(a, l)|
  {
    FlatSameShape(ChannelRows(a, k), ChannelRows(a, l));
  }

  lemma {:induction false} FlatSameShape(p: seq<seq<int>>, q: seq<seq<int>>)
    requires |p| == |q| && forall i :: 0 <= i < |p| ==> |p[i]| == |q[i]|
    ensures |Flat(p)| == |Flat(q)|
  {
    if |p| > 0 {
      FlatSameShape(p[1..], q[1..]);
    }
  }

  /** `rg = r - g` */
  function RgAxis(r: seq<int>, g: seq<int>): (s: seq<int>)
    requires |r| == |g|
    ensures |s| == |r|
  {
    seq(|r|, i requires 0 <= i < |r| => Wrap8(r[i] - g[i]))
  }

  /** `by = 2 * b - r - g` */
  function ByAxis(r: seq<int>, g: seq<int>, b: seq<int>): (s: seq<int>)
    requires |r| == |g| == |b|
    ensures |s| == |r|
  {
    seq(|r|, i requires 0 <= i < |r| => Wrap8(2 * b[i] - r[i] - g[i]))
  }

  /** `wb = r + g + b` */
  function WbAxis(r: seq<int>, g: seq<int>, b: seq<int>): (s: seq<int>)
    requires |r| == |g| == |b|
    ensures |s| == |r|
  {
    seq(|r|, i requires 0 <= i < |r| => Wrap8(r[i] + g[i] + b[i]))
  }

  /** Every count divided by the pixel total. */
  function Normalised(counts: seq<int>, total: int): (r: seq<real>)
    requires total != 0
    ensures |r| == |counts|
    ensures forall k :: 0 <= k < |counts| ==> r[k] == counts[k] as real / total as real
  {
    seq(|counts|, k requires 0 <= k < |counts| => counts[k] as real / total as real)
  }

  /** `Histogram.color_axes(histo, rg, by, wb)`: the binned rg, by and wb axes,
      concatenated and divided by width times height. A zero pixel total makes
      numpy produce NaN; the model reports it as ZeroDivisionError. */
  function ColorAxes(h: HistogramValue, rgBins: int, byBins: int, wbBins: int): (r: Result<seq<real>>)
    ensures r.Ok? ==> rgBins >= 1 && byBins >= 1 && wbBins >= 1
    ensures r.Ok? ==> |r.value| == rgBins + byBins + wbBins
    ensures r.Ok? ==> h.imageArray.Height() > 0 && h.imageArray.Width() > 0
    ensures r.Ok? ==> forall k :: 0 <= k < |r.value| ==> r.value[k] >= 0.0
    ensures r.Err? && h.channels.Grey? && rgBins >= 1 && byBins >= 1 && wbBins >= 1 ==>
      h.imageArray.Height() == 0 || h.imageArray.Width() == 0
  {
    var src :- AxisSources(h);
    var (red, green, blue) := src;
    assert |red| == |green| == |blue| by {
      if h.channels.Color? {
        ChannelEntriesLength(h.imageArray, 0, 1);
        ChannelEntriesLength(h.imageArray, 0, 2);
      }
    }
    if rgBins < 1 || byBins < 1 || wbBins < 1 then Err(ValueError)
    else if h.imageArray.Height() == 0 then Err(IndexError)
    else
      var total := h.imageArray.Width() * h.imageArray.Height();
      if total == 0 then Err(ZeroDivisionError)
      else
        var counts := AxesCounts(red, green, blue, rgBins, byBins, wbBins);
        NormalisedNonNegative(counts, total);
        Ok(Normalised(counts, total))
  }

  /** The rg, by and wb counts, concatenated. */
  function AxesCounts(red: seq<int>, green: seq<int>, blue: seq<int>, rgBins: Bins, byBins: Bins, wbBins: Bins): (r: seq<int>)
    requires |red| == |green| == |blue|
    ensures |r| == rgBins + byBins + wbBins
    ensures forall k :: 0 <= k < |r| ==> r[k] >= 0
  {
    Binned(RgAxis(red, green), rgBins) + Binned(ByAxis(red, green, blue), byBins) + Binned(WbAxis(red, green, blue), wbBins)
  }

  /** Counts divided by a positive total are fractions no smaller than 0. */
  lemma NormalisedNonNegative(counts: seq<int>, total: int)
    requires total > 0
    requires forall k :: 0 <= k < |counts| ==> counts[k] >= 0
    ensures forall k :: 0 <= k < |counts| ==> Normalised(counts, total)[k] >= 0.0
  {
    forall k | 0 <= k < |counts|
      ensures Normalised(counts, total)[k] >= 0.0
    {
      assert Normalised(counts, total)[k] == counts[k] as real / total as real;
    }
  }

  /** For a Grey histogram r = g = b, so rg and by are zero everywhere: each of
      those two segments has all its mass in its first bin. */
  lemma GreyColorAxes(h: HistogramValue, rgBins: Bins, byBins: Bins, wbBins: Bins)
    requires h.channels.Grey?
    requires ColorAxes(h, rgBins, byBins, wbBins).Ok?
    ensures var v := ColorAxes(h, rgBins, byBins, wbBins).value;
            var total := (h.imageArray.Width() * h.imageArray.Height()) as real;
            && v[0] == |Entries(h.imageArray)| as real / total
            && v[rgBins] == |Entries(h.imageArray)| as real / total
            && (forall k :: 0 < k < rgBins ==> v[k] == 0.0)
            && (forall k :: rgBins < k < rgBins + byBins ==> v[k] == 0.0)
  {
    var e := Entries(h.imageArray);
    GreyColorAxesValue(h, rgBins, byBins, wbBins);
    GreyAxisCounts(e, rgBins, byBins, wbBins);
    var counts := AxesCounts(e, e, e, rgBins, byBins, wbBins);
    var v := Normalised(counts, h.imageArray.Width() * h.imageArray.Height());
    forall k | 0 < k < rgBins || rgBins < k < rgBins + byBins
      ensures v[k] == 0.0
    {
      assert counts[k] == 0;
    }
  }

  /** For a Grey histogram the three planes are the whole array. */
  lemma GreyColorAxesValue(h: HistogramValue, rgBins: Bins, byBins: Bins, wbBins: Bins)
    requires h.channels.Grey?
    requires ColorAxes(h, rgBins, byBins, wbBins).Ok?
    ensures var e := Entries(h.imageArray);
            ColorAxes(h, rgBins, byBins, wbBins)
            == Ok(Normalised(AxesCounts(e, e, e, rgBins, byBins, wbBins), h.imageArray.Width() * h.imageArray.Height()))
  {
    var e := Entries(h.imageArray);
    assert AxisSources(h) == Ok((e, e, e));
    assert h.imageArray.Height() > 0 && h.imageArray.Width() > 0;
    PixelCountPositive(h.imageArray.Width(), h.imageArray.Height());
  }

  lemma PixelCountPositive(x: nat, y: nat)
    requires x > 0 && y > 0
    ensures x * y > 0
  {
  }

  /** On equal planes the rg and by counts are single spikes at bin 0. */
  lemma GreyAxisCounts(e: seq<int>, rgBins: Bins, byBins: Bins, wbBins: Bins)
    ensures var counts := AxesCounts(e, e, e, rgBins, byBins, wbBins);
            && counts[0] == |e|
            && counts[rgBins] == |e|
            && (forall k :: 0 < k < rgBins ==> counts[k] == 0)
            && (forall k :: rgBins < k < rgBins + byBins ==> counts[k] == 0)
  {
    var m := |e|;
    assert Wrap8(0) == 0;
    assert RgAxis(e, e) == Repeat(0, m) by {
      forall i | 0 <= i < m
        ensures RgAxis(e, e)[i] == 0
      {
        assert e[i] - e[i] == 0;
      }
    }
    assert ByAxis(e, e, e) == Repeat(0, m) by {
      forall i | 0 <= i < m
        ensures ByAxis(e, e, e)[i] == 0
      {
        assert 2 * e[i] - e[i] - e[i] == 0;
      }
    }
    BinnedRepeat(0, m, rgBins);
    BinnedRepeat(0, m, byBins);
    assert BinOf(0, rgBins) == 0 && BinOf(0, byBins) == 0;
  }
}
