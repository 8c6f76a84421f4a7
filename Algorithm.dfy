/** Distances, histogram intersection, match percentage and ranked retrieval
    (Colmeleon/Algorithm.py). */
module Algorithm {
  import opened Outcomes
  import opened Text
  import opened Histograms

  // ---- Jaccard distance ----

  /** An element of the collections `jaccard_dist` compares. */
  datatype Item = Int(i: int) | Char(c: char)

  /** An argument of `jaccard_dist`: a list, a numpy array, a set, or a string
      (which is neither converted nor a set). */
  datatype Collection = List(items: seq<Item>) | Array(items: seq<Item>) | Set(elems: set<Item>) | Str(text: string)

  /** The elements that iterating over the collection yields, as a set. */
  function Elements(d: Collection): set<Item> {
    match d
    case List(s) => set x | x in s
    case Array(s) => set x | x in s
    case Set(e) => e
    case Str(t) => set c | c in t :: Char(c)
  }

  /** `len(d)` */
  function Len(d: Collection): nat {
    match d
    case List(s) => |s|
    case Array(s) => |s|
    case Set(e) => |e|
    case Str(t) => |t|
  }

  lemma {:induction false} SeqSetCard<T>(s: seq<T>)
    ensures |set x | x in s| <= |s|
  {
    if |s| > 0 {
      SeqSetCard(s[1..]);
      assert (set x | x in s) == {s[0]} + (set x | x in s[1..]);
    }
  }

  lemma {:induction false} StrSetCard(t: string)
    ensures |set c | c in t :: Char(c)| <= |t|
  {
    if |t| > 0 {
      StrSetCard(t[1..]);
      assert (set c | c in t :: Char(c)) == {Char(t[0])} + (set c | c in t[1..] :: Char(c));
    }
  }

  lemma ElementsCard(d: Collection)
    ensures |Elements(d)| <= Len(d)
  {
    match d
    case List(s) => SeqSetCard(s);
    case Array(s) => SeqSetCard(s);
    case Set(e) =>
    case Str(t) => StrSetCard(t);
  }

  lemma {:induction false} SubsetCard<T>(a: set<T>, b: set<T>)
    requires a <= b
    ensures |a| <= |b|
  {
    if a != {} {
      var x :| x in a;
      SubsetCard(a - {x}, b - {x});
    }
  }

  /** The distance from the intersection size and the denominator. */
  function JaccardOf(s1: set<Item>, d2: Collection): Result<real> {
    var inter := s1 * Elements(d2);
    var denom := |s1| + Len(d2) - |inter|;
    if denom == 0 then Err(ZeroDivisionError)
    else Ok(1.0 - |inter| as real / denom as real)
  }

  lemma Fraction(i: real, d: real)
    requires 0.0 <= i <= d && d > 0.0
    ensures 0.0 <= i / d <= 1.0
  {
    var q := i / d;
    assert q * d == i;
    assert (1.0 - q) * d == d - i;
  }

  /** The distance lies between 0 and 1 and is undefined only when both
      arguments are empty. */
  lemma JaccardOfBounds(s1: set<Item>, d2: Collection)
    ensures JaccardOf(s1, d2).Err? <==> s1 == {} && Len(d2) == 0
    ensures JaccardOf(s1, d2).Ok? ==> 0.0 <= JaccardOf(s1, d2).value <= 1.0
  {
    var inter := s1 * Elements(d2);
    SubsetCard(inter, s1);
    SubsetCard(inter, Elements(d2));
    ElementsCard(d2);
    var denom := |s1| + Len(d2) - |inter|;
    if denom != 0 {
      Fraction(|inter| as real, denom as real);
    }
  }

  /** `jaccard_dist` as written: the second argument is converted only when it
      is a list, because line 29 tests the already converted first argument for
      being an ndarray; `set.intersection` then needs the first argument to be a
      set. */
  function JaccardAsWritten(d1: Collection, d2: Collection): (r: Result<real>)
    ensures r.Err? && r.error == TypeError <==> d1.Str?
  {
    var s1 := if d1.List? || d1.Array? then Set(Elements(d1)) else d1;
    var s2 := if d2.List? then Set(Elements(d2)) else d2;
    if !s1.Set? then Err(TypeError) else JaccardOf(s1.elems, s2)
  }

  /** `jaccard_dist` with both arguments converted from lists and arrays. */
  function Jaccard(d1: Collection, d2: Collection): (r: Result<real>)
    ensures r.Err? && r.error == TypeError <==> d1.Str?
    ensures r.Err? && r.error == ZeroDivisionError <==> !d1.Str? && Elements(d1) == {} && Len(d2) == 0
    ensures r.Ok? ==> 0.0 <= r.value <= 1.0
  {
    var s1 := if d1.List? || d1.Array? then Set(Elements(d1)) else d1;
    var s2 := if d2.List? || d2.Array? then Set(Elements(d2)) else d2;
    if !s1.Set? then Err(TypeError)
    else
      assert Len(s2) == 0 <==> Len(d2) == 0 by {
        ElementsCard(d2);
        if Len(d2) != 0 && (d2.List? || d2.Array?) {
          assert d2.items[0] in Elements(d2);
        }
      }
      JaccardOfBounds(s1.elems, s2);
      JaccardOf(s1.elems, s2)
  }

  /** The two versions differ only when the second argument is an array. */
  lemma JaccardAgrees(d1: Collection, d2: Collection)
    requires !d2.Array?
    ensures JaccardAsWritten(d1, d2) == Jaccard(d1, d2)
  {
  }

  /** A non-empty collection is at distance 0 from itself. */
  lemma JaccardSelf(d: Collection)
    requires !d.Str? && Elements(d) != {}
    ensures Jaccard(d, d) == Ok(0.0)
  {
    var s := Elements(d);
    assert Elements(Set(s)) * Elements(Set(s)) == s;
    assert |s| != 0;
    assert |s| as real / |s| as real == 1.0;
  }

  /** Non-empty collections without a common element are at distance 1. */
  lemma JaccardDisjoint(d1: Collection, d2: Collection)
    requires !d1.Str? && !d2.Str?
    requires Elements(d1) != {} && Elements(d1) * Elements(d2) == {}
    ensures Jaccard(d1, d2) == Ok(1.0)
  {
  }

  /** An array with a repeated value is not at distance 0 from itself as
      written: `[0, 0]` gives 1/2. */
  lemma JaccardAsWrittenArraySelf()
    ensures JaccardAsWritten(Array([Int(0), Int(0)]), Array([Int(0), Int(0)])) == Ok(0.5)
    ensures Jaccard(Array([Int(0), Int(0)]), Array([Int(0), Int(0)])) == Ok(0.0)
  {
    var d := Array([Int(0), Int(0)]);
    assert Elements(d) == {Int(0)};
    JaccardSelf(d);
  }

  /** The unit-test values: `[0..5]` against `[0,1,2,3,4,6]` gives 2/7, shown
      as 0.2857; strings raise TypeError. */
  lemma JaccardTestValues()
    ensures JaccardAsWritten(List([Int(0), Int(1), Int(2), Int(3), Int(4), Int(5)]),
                             List([Int(0), Int(1), Int(2), Int(3), Int(4), Int(6)])) == Ok(2.0 / 7.0)
    ensures JaccardAsWritten(Str("Lorem ipsum"), Str("Lorem ipsum")) == Err(TypeError)
  {
    var a := {Int(0), Int(1), Int(2), Int(3), Int(4), Int(5)};
    var b := {Int(0), Int(1), Int(2), Int(3), Int(4), Int(6)};
    TestSets();
    TestSets2();
    TestSets3();
    TestSets4();
    TestSets5();
    assert JaccardOf(a, Set(b)) == Ok(1.0 - 5.0 / 7.0);
  }

  // Literal set facts about the unit-test input, one per lemma to keep each
  // proof small.

  lemma TestSets()
    ensures Elements(List([Int(0), Int(1), Int(2), Int(3), Int(4), Int(5)])) == {Int(0), Int(1), Int(2), Int(3), Int(4), Int(5)}
  {
  }
  lemma TestSets2()
    ensures Elements(List([Int(0), Int(1), Int(2), Int(3), Int(4), Int(6)])) == {Int(0), Int(1), Int(2), Int(3), Int(4), Int(6)}
  {
  }
  lemma TestSets3()
    ensures {Int(0), Int(1), Int(2), Int(3), Int(4), Int(5)} * {Int(0), Int(1), Int(2), Int(3), Int(4), Int(6)}
         == {Int(0), Int(1), Int(2), Int(3), Int(4)}
  {
  }
  lemma TestSets4()
    ensures |{Int(0), Int(1), Int(2), Int(3), Int(4), Int(6)}| == 6
  {
  }
  lemma TestSets5()
    ensures |{Int(0), Int(1), Int(2), Int(3), Int(4), Int(5)}| == 6
    ensures |{Int(0), Int(1), Int(2), Int(3), Int(4)}| == 5
  {
  }

  // ---- Euclidean distance ----

  /** An argument of `euclidean_dist`: a vector (a list or numpy array), a
      set, which `list(set)` turns into its members in the set's iteration
      order (given here as `v`), or something numpy cannot subtract, such as a
      string. */
  datatype Operand = Vector(v: seq<real>) | Members(v: seq<real>) | Text(t: string)

  function SumSquares(a: seq<real>, b: seq<real>): (r: real)
    requires |a| == |b|
    ensures r >= 0.0
  {
    if |a| == 0 then 0.0 else (a[0] - b[0]) * (a[0] - b[0]) + SumSquares(a[1..], b[1..])
  }

  /** The square of `euclidean_dist`: `np.sum((data1 - data2) ** 2)`, with
      numpy broadcasting a length-1 vector against the other one and raising
      ValueError on any other length mismatch. */
  function EuclideanSquared(d1: Operand, d2: Operand): (r: Result<real>)
    ensures r.Err? && r.error == TypeError <==> d1.Text? || d2.Text?
    ensures r.Err? && r.error == ValueError <==>
      !d1.Text? && !d2.Text? && |d1.v| != |d2.v| && |d1.v| != 1 && |d2.v| != 1
    ensures r.Ok? ==> r.value >= 0.0
    ensures !d1.Text? && !d2.Text? && |d1.v| == |d2.v| ==> r == Ok(SumSquares(d1.v, d2.v))
  {
    if d1.Text? || d2.Text? then Err(TypeError)
    else
      var a := d1.v;
      var b := d2.v;
      if |a| == |b| then Ok(SumSquares(a, b))
      else if |a| == 1 then Ok(SumSquares(Repeat(a[0], |b|), b))
      else if |b| == 1 then Ok(SumSquares(a, Repeat(b[0], |a|)))
      else Err(ValueError)
  }

  lemma {:induction false} SumSquaresZero(a: seq<real>, b: seq<real>)
    requires |a| == |b|
    ensures SumSquares(a, b) == 0.0 <==> a == b
  {
    if |a| > 0 {
      SumSquaresZero(a[1..], b[1..]);
      assert a == [a[0]] + a[1..] && b == [b[0]] + b[1..];
      if a[0] != b[0] {
        var d := a[0] - b[0];
        SquarePositive(d);
        calc {
          SumSquares(a, b);
        == d * d + SumSquares(a[1..], b[1..]);
        >= d * d;
        > 0.0;
        }
      }
    }
  }

  lemma ProductPositive(x: real, y: real)
    requires x > 0.0 && y > 0.0
    ensures x * y > 0.0
  {
  }

  lemma SquarePositive(x: real)
    requires x != 0.0
    ensures x * x > 0.0
  {
    if x > 0.0 {
      ProductPositive(x, x);
    } else {
      ProductPositive(-x, -x);
      assert (-x) * (-x) == x * x;
    }
  }

  lemma {:induction false} SumSquaresSymmetric(a: seq<real>, b: seq<real>)
    requires |a| == |b|
    ensures SumSquares(a, b) == SumSquares(b, a)
  {
    if |a| > 0 {
      SumSquaresSymmetric(a[1..], b[1..]);
      assert (a[0] - b[0]) * (a[0] - b[0]) == (b[0] - a[0]) * (b[0] - a[0]);
    }
  }

  /** Equal-length vectors are at distance 0 exactly when they are equal, and
      the distance is symmetric. */
  lemma EuclideanMetric(a: seq<real>, b: seq<real>)
    requires |a| == |b|
    ensures EuclideanSquared(Vector(a), Vector(b)) == Ok(0.0) <==> a == b
    ensures EuclideanSquared(Vector(a), Vector(b)) == EuclideanSquared(Vector(b), Vector(a))
  {
    SumSquaresZero(a, b);
    SumSquaresSymmetric(a, b);
  }

  function Reals(s: seq<int>): seq<real> {
    seq(|s|, k requires 0 <= k < |s| => s[k] as real)
  }

  /** The unit-test values: 0, 1 and 7755 (whose square root rounds to 88.0625). */
  lemma EuclideanTestValues()
    ensures EuclideanSquared(Vector(Reals([0, 1, 2, 3, 4, 5])), Vector(Reals([0, 1, 2, 3, 4, 5]))) == Ok(0.0)
    ensures EuclideanSquared(Vector(Reals([0, 1, 2, 3, 4, 5])), Vector(Reals([0, 1, 2, 3, 4, 6]))) == Ok(1.0)
    ensures EuclideanSquared(Vector(Reals([0, 1, 2, 3, 4, 5])), Vector(Reals([10, 20, 30, 40, 50, 60]))) == Ok(7755.0)
  {
    var a := Reals([0, 1, 2, 3, 4, 5]);
    EuclideanMetric(a, a);
    var b := Reals([0, 1, 2, 3, 4, 6]);
    assert a == [0.0, 1.0, 2.0, 3.0, 4.0, 5.0];
    assert b == [0.0, 1.0, 2.0, 3.0, 4.0, 6.0];
    assert SumSquares(a, b) == 1.0;
    var c := Reals([10, 20, 30, 40, 50, 60]);
    assert c == [10.0, 20.0, 30.0, 40.0, 50.0, 60.0];
    assert SumSquares(a, c) == 7755.0;
  }

  // ---- Intersection ----

  function Min(x: int, y: int): int {
    if x <= y then x else y
  }

  /** `math.ceil` */
  function Ceil(x: real): int {
    if x.Floor as real == x then x.Floor else x.Floor + 1
  }

  /** The value of `ratio` after its update in iteration `j`: `ceil` on even
      iterations, `floor` on odd ones, starting from `min.bins / max.bins`. */
  function RatioAt(r0: real, j: nat): int {
    var prev := if j == 0 then r0 else RatioAt(r0, j - 1) as real;
    if j % 2 == 0 then Ceil(prev) else prev.Floor
  }

  /** The first `ceil` turns a ratio in (0, 1] into 1, and it stays 1: every
      window of the larger histogram is exactly one bin wide. */
  lemma {:induction false} RatioIsOne(r0: real, j: nat)
    requires 0.0 < r0 <= 1.0
    ensures RatioAt(r0, j) == 1
  {
    if j > 0 {
      RatioIsOne(r0, j - 1);
    }
  }

  lemma QuotientPositive(i: real, d: real)
    requires i > 0.0 && d > 0.0
    ensures i / d > 0.0
  {
  }

  lemma QuotientNonNegative(i: real, d: real)
    requires i >= 0.0 && d > 0.0
    ensures i / d >= 0.0
  {
    if i > 0.0 {
      QuotientPositive(i, d);
    }
  }

  /** `min.bins / max.bins` lies in (0, 1]. */
  lemma RatioRange(low: Bins, high: Bins)
    requires low <= high
    ensures 0.0 < low as real / high as real <= 1.0
  {
    Fraction(low as real, high as real);
    QuotientPositive(low as real, high as real);
  }

  /** `s[lo:hi]` on a list of counts, with Python's clipping of the bounds. */
  function Slice(s: seq<int>, lo: int, hi: int): seq<int> {
    var a := SliceBound(lo, |s|);
    var b := SliceBound(hi, |s|);
    if a < b then s[a..b] else []
  }

  /** The one-bin window at `j`: the count there, or 0 past the end. */
  function At(s: seq<int>, j: nat): int {
    if j < |s| then s[j] else 0
  }

  lemma WindowOfOne(s: seq<int>, j: nat)
    ensures Sum(Slice(s, 1 * j, 1 * (j + 1))) == At(s, j)
  {
    if j < |s| {
      assert Slice(s, 1 * j, 1 * (j + 1)) == [s[j]];
    }
  }

  /** The intersection of two histograms: three channels, in the order red,
      blue, green, or one grey channel. */
  datatype Overlap = Tri(red: seq<int>, blue: seq<int>, green: seq<int>) | Mono(grey: seq<int>)

  /** Entry `j` is the smaller of `low[j]` and the window of `high` at `j`. */
  function MinBins(low: seq<int>, high: seq<int>, n: nat): (r: seq<int>)
    requires n <= |low|
    ensures |r| == n
    ensures forall j :: 0 <= j < n ==> r[j] <= low[j] && r[j] <= At(high, j)
    ensures forall j :: 0 <= j < n ==> r[j] == low[j] || r[j] == At(high, j)
  {
    seq(n, j requires 0 <= j < n => Min(low[j], At(high, j)))
  }

  lemma MinBinsNext(low: seq<int>, high: seq<int>, j: nat)
    requires j < |low|
    ensures MinBins(low, high, j + 1) == MinBins(low, high, j) + [Min(low[j], At(high, j))]
  {
  }

  /** The same-kind branches of `intersection`, once the smaller (`low`) and
      the larger (`high`) histogram are chosen. */
  function Overlaps(low: HistogramValue, high: HistogramValue): (r: Result<Overlap>)
    ensures r.Ok? ==> (r.value.Tri? <==> low.channels.Color?)
    ensures r.Ok? && r.value.Tri? ==> |r.value.red| == |r.value.blue| == |r.value.green| == low.bins
    ensures r.Ok? && r.value.Mono? ==> |r.value.grey| == low.bins
  {
    var n := low.bins;
    match (low.channels, high.channels)
    case (Color(r, g, b), Color(r', g', b')) =>
      if |r| < n || |b| < n || |g| < n then Err(IndexError)
      else Ok(Tri(MinBins(r, r', n), MinBins(b, b', n), MinBins(g, g', n)))
    case (Grey(y), Grey(y')) =>
      if |y| < n then Err(IndexError) else Ok(Mono(MinBins(y, y', n)))
    case _ => Err(Unsupported)
  }

  predicate SameKind(a: HistogramValue, b: HistogramValue) {
    a.channels.Color? == b.channels.Color?
  }

  /** `intersection` as written: on equal bin counts both the smaller and the
      larger histogram are the image, so the model is never read. */
  function IntersectionAsWritten(image: HistogramValue, model: HistogramValue): (r: Result<Overlap>)
    ensures r.Err? && r.error == Unsupported <==> !SameKind(image, model)
    ensures WellFormed(image) && WellFormed(model) && SameKind(image, model) ==> r.Ok?
  {
    var low := if image.bins <= model.bins then image else model;
    var high := if image.bins >= model.bins then image else model;
    if SameKind(image, model) then Overlaps(low, high) else Err(Unsupported)
  }

  /** Every channel holds exactly `bins` counts. */
  predicate WellFormed(h: HistogramValue) {
    match h.channels
    case Color(r, g, b) => |r| == |g| == |b| == h.bins
    case Grey(y) => |y| == h.bins
  }

  /** `intersection` with the image as the smaller and the model as the larger
      histogram on equal bin counts. Mixed Color and Grey kinds are not
      modelled. */
  function Intersection(image: HistogramValue, model: HistogramValue): (r: Result<Overlap>)
    ensures r.Err? && r.error == Unsupported <==> !SameKind(image, model)
    ensures r.Ok? ==> (r.value.Tri? <==> image.channels.Color?)
    ensures r.Ok? && r.value.Tri? ==>
      var n := Min(image.bins, model.bins);
      var (o, i, m) := (r.value, image.channels, model.channels);
      && |o.red| == |o.blue| == |o.green| == n
      && (forall j :: 0 <= j < n ==> o.red[j] == Min(At(i.red, j), At(m.red, j)))
      && (forall j :: 0 <= j < n ==> o.blue[j] == Min(At(i.blue, j), At(m.blue, j)))
      && (forall j :: 0 <= j < n ==> o.green[j] == Min(At(i.green, j), At(m.green, j)))
    ensures r.Ok? && r.value.Mono? ==>
      var n := Min(image.bins, model.bins);
      && |r.value.grey| == n
      && (forall j :: 0 <= j < n ==> r.value.grey[j] == Min(At(image.channels.grey, j), At(model.channels.grey, j)))
    ensures WellFormed(image) && WellFormed(model) && SameKind(image, model) ==> r.Ok?
  {
    var low := if image.bins <= model.bins then image else model;
    var high := if image.bins <= model.bins then model else image;
    if SameKind(image, model) then Overlaps(low, high) else Err(Unsupported)
  }

  /** Which `intersection` is run: the function as written, which reads only
      the image on equal bin counts, or the corrected one. */
  datatype Variant = AsWritten | Corrected

  function IntersectionBy(variant: Variant, image: HistogramValue, model: HistogramValue): Result<Overlap> {
    if variant.AsWritten? then IntersectionAsWritten(image, model) else Intersection(image, model)
  }

  /** `intersection`: a loop over the bins of the smaller histogram that
      re-rounds `ratio` each time and takes the minimum of each bin and the
      window of the larger histogram. As written, the larger histogram is the
      image again on equal bin counts. */
  method Intersect(image: HistogramValue, model: HistogramValue, variant: Variant) returns (r: Result<Overlap>)
    ensures r == IntersectionBy(variant, image, model)
  {
    var low := if image.bins <= model.bins then image else model;
    var high := if variant.AsWritten? then (if image.bins >= model.bins then image else model)
                else if image.bins <= model.bins then model else image;
    RatioRange(low.bins, high.bins);
    var ratio := low.bins as real / high.bins as real;
    if image.channels.Color? && model.channels.Color? {
      r := IntersectColor(low, high, ratio);
    } else if image.channels.Grey? && model.channels.Grey? {
      r := IntersectGrey(low, high, ratio);
    } else {
      r := Err(Unsupported);
    }
  }

  /** The colour branch of `intersection`. */
  method IntersectColor(low: HistogramValue, high: HistogramValue, r0: real) returns (r: Result<Overlap>)
    requires low.channels.Color? && high.channels.Color?
    requires 0.0 < r0 <= 1.0
    ensures r == Overlaps(low, high)
  {
    var (lr, lb, lg) := (low.channels.red, low.channels.blue, low.channels.green);
    var (hr, hb, hg) := (high.channels.red, high.channels.blue, high.channels.green);
    var ratio := r0;
    var red, blue, green := [], [], [];
    var j := 0;
    while j < low.bins
      invariant 0 <= j <= low.bins
      invariant j == 0 ==> ratio == r0
      invariant j > 0 ==> ratio == RatioAt(r0, j - 1) as real
      invariant j <= |lr| && j <= |lb| && j <= |lg|
      invariant red == MinBins(lr, hr, j) && blue == MinBins(lb, hb, j) && green == MinBins(lg, hg, j)
    {
      ratio := (if j % 2 == 0 then Ceil(ratio) else ratio.Floor) as real;
      RatioIsOne(r0, j);
      var step := ratio.Floor;
      var wr := Sum(Slice(hr, step * j, step * (j + 1)));
      var wb := Sum(Slice(hb, step * j, step * (j + 1)));
      var wg := Sum(Slice(hg, step * j, step * (j + 1)));
      WindowOfOne(hr, j);
      WindowOfOne(hb, j);
      WindowOfOne(hg, j);
      if j >= |lr| || j >= |lb| || j >= |lg| {
        return Err(IndexError);
      }
      MinBinsNext(lr, hr, j);
      MinBinsNext(lb, hb, j);
      MinBinsNext(lg, hg, j);
      red := red + [Min(lr[j], wr)];
      blue := blue + [Min(lb[j], wb)];
      green := green + [Min(lg[j], wg)];
      j := j + 1;
    }
    r := Ok(Tri(red, blue, green));
  }

  /** The grey branch of `intersection`. */
  method IntersectGrey(low: HistogramValue, high: HistogramValue, r0: real) returns (r: Result<Overlap>)
    requires low.channels.Grey? && high.channels.Grey?
    requires 0.0 < r0 <= 1.0
    ensures r == Overlaps(low, high)
  {
    var (ly, hy) := (low.channels.grey, high.channels.grey);
    var ratio := r0;
    var grey := [];
    var j := 0;
    while j < low.bins
      invariant 0 <= j <= low.bins
      invariant j == 0 ==> ratio == r0
      invariant j > 0 ==> ratio == RatioAt(r0, j - 1) as real
      invariant j <= |ly|
      invariant grey == MinBins(ly, hy, j)
    {
      ratio := (if j % 2 == 0 then Ceil(ratio) else ratio.Floor) as real;
      RatioIsOne(r0, j);
      var step := ratio.Floor;
      var w := Sum(Slice(hy, step * j, step * (j + 1)));
      WindowOfOne(hy, j);
      if j >= |ly| {
        return Err(IndexError);
      }
      MinBinsNext(ly, hy, j);
      grey := grey + [Min(ly[j], w)];
      j := j + 1;
    }
    r := Ok(Mono(grey));
  }

  /** Apart from equal bin counts, the code as written and the corrected
      choice of histograms agree. */
  lemma IntersectionAgrees(image: HistogramValue, model: HistogramValue)
    requires image.bins != model.bins
    ensures IntersectionAsWritten(image, model) == Intersection(image, model)
  {
  }

  /** The channels of a histogram as an intersection result. */
  function AsOverlap(c: Channels): Overlap {
    match c
    case Color(r, g, b) => Tri(r, b, g)
    case Grey(y) => Mono(y)
  }

  lemma MinBinsSelf(s: seq<int>, n: nat)
    requires n == |s|
    ensures MinBins(s, s, n) == s
  {
  }

  /** As written, with equal bin counts the result is the image's own channels
      whatever the model holds. */
  lemma IntersectionAsWrittenIgnoresModel(image: HistogramValue, model: HistogramValue)
    requires image.bins == model.bins && SameKind(image, model) && WellFormed(image)
    ensures IntersectionAsWritten(image, model) == Ok(AsOverlap(image.channels))
  {
    match image.channels
    case Color(r, g, b) =>
      MinBinsSelf(r, image.bins);
      MinBinsSelf(g, image.bins);
      MinBinsSelf(b, image.bins);
    case Grey(y) =>
      MinBinsSelf(y, image.bins);
  }

  /** A one-bin image holding 1 against a one-bin model holding 0: the code as
      written reports the image's bin, the intersection is empty. */
  lemma IntersectionEqualBinsExample(a: PixelArray)
    ensures IntersectionAsWritten(HistogramValue(a, 1, Grey([1])), HistogramValue(a, 1, Grey([0]))) == Ok(Mono([1]))
    ensures Intersection(HistogramValue(a, 1, Grey([1])), HistogramValue(a, 1, Grey([0]))) == Ok(Mono([0]))
  {
    IntersectionAsWrittenIgnoresModel(HistogramValue(a, 1, Grey([1])), HistogramValue(a, 1, Grey([0])));
    assert MinBins([1], [0], 1) == [0];
  }

  /** A well-formed histogram intersected with itself is itself. */
  lemma IntersectionSelf(h: HistogramValue)
    requires WellFormed(h)
    ensures Intersection(h, h) == Ok(AsOverlap(h.channels))
  {
    match h.channels
    case Color(r, g, b) =>
      MinBinsSelf(r, h.bins);
      MinBinsSelf(g, h.bins);
      MinBinsSelf(b, h.bins);
    case Grey(y) =>
      MinBinsSelf(y, h.bins);
  }

  lemma MinBinsCommute(x: seq<int>, y: seq<int>, n: nat)
    requires n <= |x| && n <= |y|
    ensures MinBins(x, y, n) == MinBins(y, x, n)
  {
  }

  /** Between well-formed histograms the intersection does not depend on which
      one is the image. */
  lemma IntersectionCommutes(a: HistogramValue, b: HistogramValue)
    requires WellFormed(a) && WellFormed(b)
    ensures Intersection(a, b) == Intersection(b, a)
  {
    if SameKind(a, b) && a.bins == b.bins {
      match (a.channels, b.channels)
      case (Color(r, g, bl), Color(r', g', bl')) =>
        MinBinsCommute(r, r', a.bins);
        MinBinsCommute(g, g', a.bins);
        MinBinsCommute(bl, bl', a.bins);
      case (Grey(y), Grey(y')) =>
        MinBinsCommute(y, y', a.bins);
      case _ =>
    }
  }

  // ---- Match value ----

  function Min3(x: real, y: real, z: real): real {
    if x <= y && x <= z then x else if y <= z then y else z
  }

  /** `pixels`: the total of the model's red counts, or of its grey counts. */
  function Pixels(model: HistogramValue): int {
    match model.channels
    case Color(r, _, _) => Sum(r)
    case Grey(y) => Sum(y)
  }

  /** `match_value` with the given `intersection` (the default is the
      function as written): the share of the model's pixels found in the
      intersection, as a percentage, taking the weakest colour channel. A zero
      pixel total is reported as ZeroDivisionError. */
  function MatchScore(image: HistogramValue, model: HistogramValue, variant: Variant): (r: Result<real>)
    ensures r.Err? <==> !SameKind(image, model) || IntersectionBy(variant, image, model).Err? || Pixels(model) == 0
  {
    var histo :- IntersectionBy(variant, image, model);
    var pixels := Pixels(model);
    if pixels == 0 then Err(ZeroDivisionError)
    else
      match histo
      case Tri(r, b, g) =>
        Ok(Min3(Sum(r) as real / pixels as real, Sum(b) as real / pixels as real, Sum(g) as real / pixels as real) * 100.0)
      case Mono(y) => Ok(Sum(y) as real / pixels as real * 100.0)
  }

  lemma SumPrefix(s: seq<int>, i: nat)
    requires i < |s|
    ensures Sum(s[..i + 1]) == Sum(s[..i]) + s[i]
  {
    assert s[..i + 1] == s[..i] + [s[i]];
    SumAppend(s[..i], [s[i]]);
  }

  /** `match_value`: sums the intersection channel by channel in one loop. */
  method MatchValue(image: HistogramValue, model: HistogramValue, variant: Variant) returns (v: Result<real>)
    ensures v == MatchScore(image, model, variant)
  {
    var histo := Intersect(image, model, variant);
    if histo.Err? {
      return Err(histo.error);
    }
    var pixels := Pixels(model);
    match histo.value
    case Tri(red, blue, green) =>
      var r, b, g := 0, 0, 0;
      var i := 0;
      while i < |red|
        invariant 0 <= i <= |red|
        invariant r == Sum(red[..i]) && b == Sum(blue[..i]) && g == Sum(green[..i])
      {
        SumPrefix(red, i);
        SumPrefix(blue, i);
        SumPrefix(green, i);
        r := r + red[i];
        b := b + blue[i];
        g := g + green[i];
        i := i + 1;
      }
      assert red[..i] == red && blue[..i] == blue && green[..i] == green;
      if pixels == 0 {
        return Err(ZeroDivisionError);
      }
      v := Ok(Min3(r as real / pixels as real, b as real / pixels as real, g as real / pixels as real) * 100.0);
    case Mono(grey) =>
      var total := 0;
      var i := 0;
      while i < |grey|
        invariant 0 <= i <= |grey|
        invariant total == Sum(grey[..i])
      {
        SumPrefix(grey, i);
        total := grey[i] + total;
        i := i + 1;
      }
      assert grey[..i] == grey;
      if pixels == 0 {
        return Err(ZeroDivisionError);
      }
      v := Ok(total as real / pixels as real * 100.0);
  }

  /** A histogram whose channels all hold the same positive total matches
      itself at 100%. */
  lemma MatchSelf(h: HistogramValue)
    requires WellFormed(h)
    requires h.channels.Color? ==> Sum(h.channels.red) == Sum(h.channels.green) == Sum(h.channels.blue) > 0
    requires h.channels.Grey? ==> Sum(h.channels.grey) > 0
    ensures MatchScore(h, h, AsWritten) == Ok(100.0)
    ensures MatchScore(h, h, Corrected) == Ok(100.0)
  {
    MatchSelfCorrected(h);
    IntersectionAsWrittenIgnoresModel(h, h);
    assert IntersectionBy(AsWritten, h, h) == IntersectionBy(Corrected, h, h);
  }

  lemma MatchSelfCorrected(h: HistogramValue)
    requires WellFormed(h)
    requires h.channels.Color? ==> Sum(h.channels.red) == Sum(h.channels.green) == Sum(h.channels.blue) > 0
    requires h.channels.Grey? ==> Sum(h.channels.grey) > 0
    ensures MatchScore(h, h, Corrected) == Ok(100.0)
  {
    IntersectionSelf(h);
    var p := Pixels(h) as real;
    assert p / p == 1.0;
  }

  predicate NonNegative(s: seq<int>) {
    forall k :: 0 <= k < |s| ==> s[k] >= 0
  }

  predicate Counts(h: HistogramValue) {
    match h.channels
    case Color(r, g, b) => NonNegative(r) && NonNegative(g) && NonNegative(b)
    case Grey(y) => NonNegative(y)
  }

  lemma {:induction false} SumNonNegative(s: seq<int>)
    requires NonNegative(s)
    ensures Sum(s) >= 0
  {
    if |s| > 0 {
      SumNonNegative(s[1..]);
    }
  }

  lemma {:induction false} SumMonotone(x: seq<int>, y: seq<int>)
    requires |x| == |y| && forall k :: 0 <= k < |x| ==> x[k] <= y[k]
    ensures Sum(x) <= Sum(y)
  {
    if |x| > 0 {
      SumMonotone(x[1..], y[1..]);
    }
  }

  /** The intersected mass of one channel lies between 0 and the model's total
      for that channel. */
  lemma ChannelShare(o: seq<int>, own: seq<int>, other: seq<int>, n: nat)
    requires |o| == n && n <= |own| && n <= |other|
    requires NonNegative(own) && NonNegative(other)
    requires forall j :: 0 <= j < n ==> o[j] <= At(own, j) && o[j] <= At(other, j)
    requires forall j :: 0 <= j < n ==> o[j] == At(own, j) || o[j] == At(other, j)
    ensures 0 <= Sum(o) <= Sum(own)
  {
    assert NonNegative(o);
    SumNonNegative(o);
    SumMonotone(o, own[..n]);
    PrefixAtMostWhole(own, n);
  }

  /** A prefix of non-negative counts holds no more than the whole. */
  lemma PrefixAtMostWhole(s: seq<int>, n: nat)
    requires n <= |s| && NonNegative(s)
    ensures Sum(s[..n]) <= Sum(s)
  {
    assert s == s[..n] + s[n..];
    SumAppend(s[..n], s[n..]);
    SumNonNegative(s[n..]);
  }

  lemma ShareBounds(x: int, p: int)
    requires 0 <= x <= p && p > 0
    ensures 0.0 <= x as real / p as real * 100.0 <= 100.0
  {
    Fraction(x as real, p as real);
  }

  /** With non-negative counts the corrected score is a percentage between 0
      and 100. */
  lemma MatchScoreBounds(image: HistogramValue, model: HistogramValue)
    requires WellFormed(image) && WellFormed(model) && Counts(image) && Counts(model)
    requires MatchScore(image, model, Corrected).Ok?
    ensures 0.0 <= MatchScore(image, model, Corrected).value <= 100.0
  {
    var o := Intersection(image, model).value;
    var n := Min(image.bins, model.bins);
    var p := Pixels(model);
    match o
    case Tri(r, b, g) =>
      var (i, m) := (image.channels, model.channels);
      ChannelShare(r, m.red, i.red, n);
      ChannelShare(b, m.blue, i.blue, n);
      ChannelShare(g, m.green, i.green, n);
      assert Sum(r) <= p;
      ShareBounds(Sum(r), p);
      QuotientNonNegative(Sum(b) as real, p as real);
      QuotientNonNegative(Sum(g) as real, p as real);
    case Mono(y) =>
      ChannelShare(y, model.channels.grey, image.channels.grey, n);
      ShareBounds(Sum(y), p);
  }

  /** As written, on equal bin counts the score is the image's own channel
      totals over the model's pixel count, whatever counts the model holds. */
  lemma MatchScoreAsWrittenEqualBins(image: HistogramValue, model: HistogramValue)
    requires image.bins == model.bins && SameKind(image, model) && WellFormed(image)
    requires Pixels(model) != 0
    ensures var p := Pixels(model) as real;
      MatchScore(image, model, AsWritten) == Ok(match image.channels
        case Color(r, g, b) => Min3(Sum(r) as real / p, Sum(b) as real / p, Sum(g) as real / p) * 100.0
        case Grey(y) => Sum(y) as real / p * 100.0)
  {
    IntersectionAsWrittenIgnoresModel(image, model);
  }

  /** A one-bin grey image holding 2 against a one-bin grey model holding 1:
      the score as written is 200, above any percentage; the corrected score
      is 100. */
  lemma MatchScoreAsWrittenExample(a: PixelArray)
    ensures MatchScore(HistogramValue(a, 1, Grey([2])), HistogramValue(a, 1, Grey([1])), AsWritten) == Ok(200.0)
    ensures MatchScore(HistogramValue(a, 1, Grey([2])), HistogramValue(a, 1, Grey([1])), Corrected) == Ok(100.0)
  {
    var image, model := HistogramValue(a, 1, Grey([2])), HistogramValue(a, 1, Grey([1]));
    MatchScoreAsWrittenEqualBins(image, model);
    assert Sum([2]) == 2 && Sum([1]) == 1;
    assert MinBins([2], [1], 1) == [1];
    assert Intersection(image, model) == Ok(Mono([1]));
  }

  // ---- Ranked retrieval ----

  /** An entry of the result list, the tuple `(score, path)`. */
  datatype Ranked = Ranked(score: real, id: string)

  /** Python's order on `(score, path)` tuples: by score, then by path. */
  predicate Below(a: Ranked, b: Ranked) {
    a.score < b.score || (a.score == b.score && StrLess(a.id, b.id))
  }

  lemma BelowAsymmetric(a: Ranked, b: Ranked)
    requires Below(a, b)
    ensures !Below(b, a) && a != b
  {
    if a.score == b.score {
      StrLessAsymmetric(a.id, b.id);
      StrLessIrreflexive(a.id);
    }
  }

  /** `x < y` and `y <= z` give `x < z`. */
  lemma BelowThenUpTo(x: Ranked, y: Ranked, z: Ranked)
    requires Below(x, y) && !Below(z, y)
    ensures Below(x, z)
  {
    StrLessTotal(y.id, z.id);
    if Below(y, z) && x.score == y.score && y.score == z.score {
      StrLessTransitive(x.id, y.id, z.id);
    }
  }

  /** Ascending in tuple order. */
  predicate Sorted(s: seq<Ranked>) {
    forall i, j :: 0 <= i < j < |s| ==> !Below(s[j], s[i])
  }

  /** `bisect.bisect_right(s, x, lo, hi)`: the binary search `insort` uses. */
  function BisectRight(s: seq<Ranked>, x: Ranked, lo: nat, hi: nat): (r: nat)
    requires lo <= hi <= |s|
    ensures lo <= r <= hi
    decreases hi - lo
  {
    if lo < hi then
      var mid := (lo + hi) / 2;
      if Below(x, s[mid]) then BisectRight(s, x, lo, mid) else BisectRight(s, x, mid + 1, hi)
    else lo
  }

  /** On a sorted list the search splits the range into the entries not above
      `x` and the entries above it, so equal entries stay in front of `x`. */
  lemma {:induction false} BisectRightSplits(s: seq<Ranked>, x: Ranked, lo: nat, hi: nat)
    requires lo <= hi <= |s| && Sorted(s)
    ensures var r := BisectRight(s, x, lo, hi);
            && (forall k :: lo <= k < r ==> !Below(x, s[k]))
            && (forall k :: r <= k < hi ==> Below(x, s[k]))
    decreases hi - lo
  {
    if lo < hi {
      var mid := (lo + hi) / 2;
      if Below(x, s[mid]) {
        BisectRightSplits(s, x, lo, mid);
        forall k | mid <= k < hi
          ensures Below(x, s[k])
        {
          if k > mid {
            BelowThenUpTo(x, s[mid], s[k]);
          }
        }
      } else {
        BisectRightSplits(s, x, mid + 1, hi);
        forall k | lo <= k <= mid
          ensures !Below(x, s[k])
        {
          if k < mid && Below(x, s[k]) {
            BelowThenUpTo(x, s[k], s[mid]);
          }
        }
      }
    }
  }

  /** `bisect.insort(s, x)`: insert `x` after every entry not above it. */
  function Insort(s: seq<Ranked>, x: Ranked): seq<Ranked> {
    var i := BisectRight(s, x, 0, |s|);
    s[..i] + [x] + s[i..]
  }

  /** Inserting keeps the list sorted and adds exactly `x`. */
  lemma InsortSorted(s: seq<Ranked>, x: Ranked)
    requires Sorted(s)
    ensures Sorted(Insort(s, x))
    ensures multiset(Insort(s, x)) == multiset(s) + multiset{x}
  {
    InsortOrder(s, x);
    var i := BisectRight(s, x, 0, |s|);
    assert s == s[..i] + s[i..];
  }

  lemma InsortOrder(s: seq<Ranked>, x: Ranked)
    requires Sorted(s)
    ensures Sorted(Insort(s, x))
  {
    var i := BisectRight(s, x, 0, |s|);
    BisectRightSplits(s, x, 0, |s|);
    var t := Insort(s, x);
    forall a, b | 0 <= a < b < |t|
      ensures !Below(t[b], t[a])
    {
      if b == i {
        assert t[a] == s[a];
      } else if a == i {
        assert t[b] == s[b - 1];
        BelowAsymmetric(x, s[b - 1]);
      } else {
        var a' := if a < i then a else a - 1;
        var b' := if b < i then b else b - 1;
        assert t[a] == s[a'] && t[b] == s[b'];
      }
    }
  }

  /** The `(score, path)` tuple of every catalog entry, in catalog order; the
      first score that fails is the error. */
  function Ranks<P>(catalog: seq<(string, P)>, score: P -> Result<real>): (r: Result<seq<Ranked>>)
    ensures r.Ok? ==> |r.value| == |catalog|
    ensures r.Ok? ==> forall k :: 0 <= k < |catalog| ==>
      score(catalog[k].1).Ok? && r.value[k] == Ranked(score(catalog[k].1).value, catalog[k].0)
  {
    if |catalog| == 0 then Ok([])
    else
      var prev :- Ranks(catalog[..|catalog| - 1], score);
      var v :- score(catalog[|catalog| - 1].1);
      Ok(prev + [Ranked(v, catalog[|catalog| - 1].0)])
  }

  /** The result has `depth` entries, or all of them when there are fewer. */
  function Bound(n: nat, depth: int): nat {
    if depth <= 0 then 0 else if n < depth then n else depth
  }

  /** What the retrieval keeps: a sorted selection of the scored entries, of
      the right size, that no discarded entry beats on score. */
  predicate Kept(kept: seq<Ranked>, all: seq<Ranked>, depth: int) {
    && |kept| == Bound(|all|, depth)
    && Sorted(kept)
    && multiset(kept) <= multiset(all)
    && forall d, k :: d in multiset(all) - multiset(kept) && k in kept ==> k.score <= d.score
  }

  /** No discarded entry scores lower than a kept one. */
  predicate Dominates(discarded: seq<Ranked>, kept: seq<Ranked>) {
    forall d, k :: d in discarded && k in kept ==> k.score <= d.score
  }

  /** In a sorted list the last entry has the highest score. */
  lemma LastHighest(s: seq<Ranked>)
    requires Sorted(s) && |s| > 0
    ensures forall k :: k in s ==> k.score <= s[|s| - 1].score
  {
    forall k | k in s
      ensures k.score <= s[|s| - 1].score
    {
      var i :| 0 <= i < |s| && s[i] == k;
    }
  }

  /** Replacing the last entry by a strictly lower score keeps the list sorted
      and every discarded entry, the evicted one included, above the kept ones. */
  lemma EvictLast(result: seq<Ranked>, discarded: seq<Ranked>, entry: Ranked)
    requires Sorted(result) && |result| > 0 && Dominates(discarded, result)
    requires entry.score < result[|result| - 1].score
    ensures var last := result[|result| - 1];
            var next := Insort(result[..|result| - 1], entry);
            && Sorted(next)
            && multiset(next) + multiset(discarded + [last]) == multiset(result) + multiset(discarded) + multiset{entry}
            && Dominates(discarded + [last], next)
  {
    var last := result[|result| - 1];
    var rest := result[..|result| - 1];
    assert result == rest + [last];
    LastHighest(result);
    InsortSorted(rest, entry);
    var next := Insort(rest, entry);
    forall d, k | d in discarded + [last] && k in next
      ensures k.score <= d.score
    {
      assert k in multiset(next);
      assert k == entry || k in rest;
    }
  }

  /** A rejected entry scores at least as high as the last, hence every kept, entry. */
  lemma RejectEntry(result: seq<Ranked>, discarded: seq<Ranked>, entry: Ranked)
    requires Sorted(result) && |result| > 0 && Dominates(discarded, result)
    requires entry.score >= result[|result| - 1].score
    ensures Dominates(discarded + [entry], result)
  {
    LastHighest(result);
  }

  lemma KeptAtEnd(result: seq<Ranked>, discarded: seq<Ranked>, all: seq<Ranked>, depth: int)
    requires |result| == Bound(|all|, depth) && Sorted(result)
    requires multiset(result) + multiset(discarded) == multiset(all)
    requires Dominates(discarded, result)
    ensures Kept(result, all, depth)
  {
    assert multiset(all) - multiset(result) == multiset(discarded);
  }

  /** One step of the `retrieval` loop for an entry whose score is known:
      insert while the list is short, otherwise replace the last entry when
      the new score is strictly smaller. `result[-1]` on an empty list raises
      IndexError. */
  function Step(result: seq<Ranked>, entry: Ranked, depth: int): Result<seq<Ranked>> {
    if |result| < depth then Ok(Insort(result, entry))
    else if |result| == 0 then Err(IndexError)
    else if entry.score < result[|result| - 1].score then Ok(Insort(result[..|result| - 1], entry))
    else Ok(result)
  }

  /** The `retrieval` loop over a catalog: each entry is scored, then offered
      to the list; the first failure ends the loop. */
  function Scan<P>(catalog: seq<(string, P)>, score: P -> Result<real>, depth: int): Result<seq<Ranked>> {
    if |catalog| == 0 then Ok([])
    else
      var prev :- Scan(catalog[..|catalog| - 1], score, depth);
      var v :- score(catalog[|catalog| - 1].1);
      Step(prev, Ranked(v, catalog[|catalog| - 1].0), depth)
  }

  /** A full list keeps its last entry against a tie: `(5, "b")` stays when
      `(5, "a")` comes later, although `(5, "a")` sorts first; a strictly
      lower score replaces it. */
  lemma StepKeepsOnTie()
    ensures Step([Ranked(5.0, "b")], Ranked(5.0, "a"), 1) == Ok([Ranked(5.0, "b")])
    ensures Step([Ranked(5.0, "b")], Ranked(4.0, "c"), 1) == Ok([Ranked(4.0, "c")])
  {
    assert [Ranked(5.0, "b")][..0] == [];
    assert Insort([], Ranked(4.0, "c")) == [Ranked(4.0, "c")];
  }

  /** A step fails only on a full empty list, that is when `depth` is not
      positive. Otherwise it keeps the list sorted and of the right size, and
      accounts for every entry: what it drops joins the discarded entries,
      none of which scores below a kept one. */
  lemma StepKeeps(result: seq<Ranked>, entry: Ranked, depth: int, discarded: seq<Ranked>)
    returns (discarded': seq<Ranked>)
    requires Sorted(result) && Dominates(discarded, result)
    requires |result| < depth ==> discarded == []
    ensures Step(result, entry, depth).Err? <==> |result| >= depth && |result| == 0
    ensures var r := Step(result, entry, depth);
      r.Ok? ==>
        && |r.value| == (if |result| < depth then |result| + 1 else |result|)
        && Sorted(r.value) && Dominates(discarded', r.value)
        && multiset(r.value) + multiset(discarded') == multiset(result) + multiset(discarded) + multiset{entry}
        && (|r.value| < depth ==> discarded' == [])
  {
    discarded' := discarded;
    if |result| < depth {
      InsortSorted(result, entry);
    } else if |result| > 0 {
      if entry.score < result[|result| - 1].score {
        EvictLast(result, discarded, entry);
        discarded' := discarded + [result[|result| - 1]];
      } else {
        RejectEntry(result, discarded, entry);
        discarded' := discarded + [entry];
      }
    }
  }

  /** Along a successful scan the list stays a valid selection of the scored
      entries, given the entries discarded so far. */
  lemma {:induction false} ScanKeeps<P>(catalog: seq<(string, P)>, score: P -> Result<real>, depth: int)
    returns (all: seq<Ranked>, discarded: seq<Ranked>)
    requires Scan(catalog, score, depth).Ok?
    ensures Ranks(catalog, score) == Ok(all)
    ensures var result := Scan(catalog, score, depth).value;
      && |result| == Bound(|catalog|, depth)
      && (|result| < depth ==> discarded == [])
      && Sorted(result) && Dominates(discarded, result)
      && multiset(result) + multiset(discarded) == multiset(all)
  {
    if |catalog| == 0 {
      all, discarded := [], [];
    } else {
      var n := |catalog| - 1;
      var prior := catalog[..n];
      var prev := Scan(prior, score, depth).value;
      var all', discarded' := ScanKeeps(prior, score, depth);
      var entry := Ranked(score(catalog[n].1).value, catalog[n].0);
      discarded := StepKeeps(prev, entry, depth, discarded');
      all := all' + [entry];
    }
  }

  /** With a positive depth only a score can fail, and the first failing
      score is the outcome of the scan. */
  lemma {:induction false} ScanFailures<P>(catalog: seq<(string, P)>, score: P -> Result<real>, depth: int)
    requires depth > 0
    ensures Scan(catalog, score, depth).Err? <==> Ranks(catalog, score).Err?
    ensures Scan(catalog, score, depth).Err? ==> Scan(catalog, score, depth).error == Ranks(catalog, score).error
  {
    if |catalog| > 0 {
      ScanFailures(catalog[..|catalog| - 1], score, depth);
    }
  }

  lemma {:induction false} ScanFailureStays<P>(catalog: seq<(string, P)>, score: P -> Result<real>, depth: int, i: nat)
    requires i <= |catalog| && Scan(catalog[..i], score, depth).Err?
    ensures Scan(catalog, score, depth) == Scan(catalog[..i], score, depth)
  {
    if i < |catalog| {
      var c' := catalog[..|catalog| - 1];
      assert c'[..i] == catalog[..i];
      ScanFailureStays(c', score, depth, i);
    } else {
      assert catalog[..i] == catalog;
    }
  }

  /** With no room in the list, the first entry is scored and then fails on
      `result[-1]`. */
  lemma ScanNoRoom<P>(catalog: seq<(string, P)>, score: P -> Result<real>, depth: int)
    requires |catalog| > 0 && depth <= 0
    ensures Scan(catalog, score, depth) ==
      if score(catalog[0].1).Err? then Err(score(catalog[0].1).error) else Err(IndexError)
  {
    assert catalog[..1][..0] == [];
    ScanFailureStays(catalog, score, depth, 1);
  }

  /** What the scan promises: an empty catalog gives an empty list, no room
      fails at the first entry, a positive depth fails exactly when a score
      fails, and a successful scan keeps a valid selection. */
  lemma ScanProperties<P>(catalog: seq<(string, P)>, score: P -> Result<real>, depth: int)
    ensures |catalog| == 0 ==> Scan(catalog, score, depth) == Ok([])
    ensures |catalog| > 0 && depth <= 0 ==>
      Scan(catalog, score, depth) == if score(catalog[0].1).Err? then Err(score(catalog[0].1).error) else Err(IndexError)
    ensures depth > 0 ==> (Scan(catalog, score, depth).Err? <==> Ranks(catalog, score).Err?)
    ensures depth > 0 && Scan(catalog, score, depth).Err? ==> Scan(catalog, score, depth).error == Ranks(catalog, score).error
    ensures Scan(catalog, score, depth).Ok? ==>
      Ranks(catalog, score).Ok? && Kept(Scan(catalog, score, depth).value, Ranks(catalog, score).value, depth)
  {
    if |catalog| > 0 && depth <= 0 {
      ScanNoRoom(catalog, score, depth);
    }
    if depth > 0 {
      ScanFailures(catalog, score, depth);
    }
    if Scan(catalog, score, depth).Ok? {
      var all, discarded := ScanKeeps(catalog, score, depth);
      KeptAtEnd(Scan(catalog, score, depth).value, discarded, all, depth);
    }
  }

  lemma ScanNext<P>(catalog: seq<(string, P)>, score: P -> Result<real>, depth: int, i: nat, result: seq<Ranked>)
    requires i < |catalog| && Scan(catalog[..i], score, depth) == Ok(result)
    ensures Scan(catalog[..i + 1], score, depth) ==
      if score(catalog[i].1).Err? then Err(score(catalog[i].1).error)
      else Step(result, Ranked(score(catalog[i].1).value, catalog[i].0), depth)
  {
    assert catalog[..i + 1][..i] == catalog[..i];
  }

  /** The loop of `retrieval`: the first `depth` entries are inserted; after
      that an entry replaces the last one only when its score is strictly
      smaller. */
  method TopK<P>(catalog: seq<(string, P)>, depth: int, score: P -> Result<real>) returns (r: Result<seq<Ranked>>)
    ensures r == Scan(catalog, score, depth)
    ensures |catalog| == 0 ==> r == Ok([])
    ensures |catalog| > 0 && depth <= 0 ==>
      r == if score(catalog[0].1).Err? then Err(score(catalog[0].1).error) else Err(IndexError)
    ensures depth > 0 ==> (r.Err? <==> Ranks(catalog, score).Err?)
    ensures depth > 0 && r.Err? ==> r.error == Ranks(catalog, score).error
    ensures r.Ok? ==> Ranks(catalog, score).Ok? && Kept(r.value, Ranks(catalog, score).value, depth)
  {
    ScanProperties(catalog, score, depth);
    var result: seq<Ranked> := [];
    var i := 0;
    while i < |catalog|
      invariant 0 <= i <= |catalog|
      invariant Scan(catalog[..i], score, depth) == Ok(result)
    {
      ScanNext(catalog, score, depth, i, result);
      var (id, h) := catalog[i];
      var v := score(h);
      if v.Err? {
        ScanFailureStays(catalog, score, depth, i + 1);
        return Err(v.error);
      }
      var entry := Ranked(v.value, id);
      if |result| < depth {
        result := Insort(result, entry);
      } else {
        if |result| == 0 {
          ScanFailureStays(catalog, score, depth, i + 1);
          return Err(IndexError);
        }
        if entry.score < result[|result| - 1].score {
          result := Insort(result[..|result| - 1], entry);
        }
      }
      i := i + 1;
    }
    assert catalog[..i] == catalog;
    r := Ok(result);
  }

  /** The histograms the database supplies, as `(path, histogram)` pairs:
      `histograms()`, `bin_histograms()` and `grey_histograms()`. */
  datatype Catalog = Catalog(
    histograms: seq<(string, HistogramValue)>,
    binHistograms: seq<(string, seq<real>)>,
    greyHistograms: seq<(string, HistogramValue)>)

  /** `abs(100 - match_value(image, model))`: 0 for a perfect match. */
  function MatchDistance(image: HistogramValue, model: HistogramValue, variant: Variant): (r: Result<real>)
    ensures r.Err? <==> MatchScore(image, model, variant).Err?
    ensures r.Ok? ==> r.value >= 0.0
    ensures r.Ok? ==> (r.value == 0.0 <==> MatchScore(image, model, variant) == Ok(100.0))
  {
    var m :- MatchScore(image, model, variant);
    Ok(if m <= 100.0 then 100.0 - m else m - 100.0)
  }

  /** The score of a catalog histogram in intersection mode. */
  function DistanceTo(image: HistogramValue, variant: Variant): HistogramValue -> Result<real> {
    model => MatchDistance(image, model, variant)
  }

  /** The score of a catalog bin vector in incremental mode. */
  function CompareTo(compare: (seq<real>, seq<real>) -> Result<real>, axes: seq<real>): seq<real> -> Result<real> {
    v => compare(axes, v)
  }

  /** The default `compareFunction`, squared. */
  function Euclidean(a: seq<real>, b: seq<real>): Result<real> {
    EuclideanSquared(Vector(a), Vector(b))
  }

  lemma DistancesNonNegative(catalog: seq<(string, HistogramValue)>, image: HistogramValue, variant: Variant,
                              kept: seq<Ranked>, depth: int)
    requires Ranks(catalog, DistanceTo(image, variant)).Ok?
    requires Kept(kept, Ranks(catalog, DistanceTo(image, variant)).value, depth)
    ensures forall k :: 0 <= k < |kept| ==> kept[k].score >= 0.0
  {
    var all := Ranks(catalog, DistanceTo(image, variant)).value;
    forall k | 0 <= k < |kept|
      ensures kept[k].score >= 0.0
    {
      assert kept[k] in multiset(kept);
      assert kept[k] in multiset(all);
      var i :| 0 <= i < |all| && all[i] == kept[k];
    }
  }

  /** The histograms ranked in intersection mode. */
  function Models(catalog: Catalog, grey: bool): seq<(string, HistogramValue)> {
    if grey then catalog.greyHistograms else catalog.histograms
  }

  /** `retrieval`: ranks the catalog against the image, by a comparison of the
      colour-axes vectors in incremental mode, otherwise by the distance of the
      match percentage from 100 over the colour or the grey histograms. The
      program runs the `intersection` as written. */
  method Retrieve(catalog: Catalog, image: HistogramValue, depth: int, incremental: bool, grey: bool,
                  compare: (seq<real>, seq<real>) -> Result<real>, variant: Variant)
    returns (r: Result<seq<Ranked>>)
    ensures incremental && ColorAxes(image, 16, 16, 8).Err? ==> r == Err(ColorAxes(image, 16, 16, 8).error)
    ensures incremental && ColorAxes(image, 16, 16, 8).Ok? ==>
      var score := CompareTo(compare, ColorAxes(image, 16, 16, 8).value);
      && r == Scan(catalog.binHistograms, score, depth)
      && (depth > 0 ==> (r.Err? <==> Ranks(catalog.binHistograms, score).Err?))
      && (r.Ok? ==> Ranks(catalog.binHistograms, score).Ok? && Kept(r.value, Ranks(catalog.binHistograms, score).value, depth))
    ensures !incremental ==>
      var score := DistanceTo(image, variant);
      && r == Scan(Models(catalog, grey), score, depth)
      && (depth > 0 ==> (r.Err? <==> Ranks(Models(catalog, grey), score).Err?))
      && (r.Ok? ==> Ranks(Models(catalog, grey), score).Ok? && Kept(r.value, Ranks(Models(catalog, grey), score).value, depth))
    ensures !incremental && r.Ok? ==> forall k :: 0 <= k < |r.value| ==> r.value[k].score >= 0.0
  {
    if incremental {
      var axes := ColorAxes(image, 16, 16, 8);
      if axes.Err? {
        return Err(axes.error);
      }
      r := TopK(catalog.binHistograms, depth, CompareTo(compare, axes.value));
    } else {
      r := TopK(Models(catalog, grey), depth, DistanceTo(image, variant));
      if r.Ok? {
        DistancesNonNegative(Models(catalog, grey), image, variant, r.value, depth);
      }
    }
  }
}
