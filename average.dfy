/**
 * The per-pixel kernel: the channel-wise integer mean of the in-bounds cells of
 * the 3x3 neighbourhood of a cell. The divisor is the number of cells actually
 * summed; there is no padding, wrap-around or mirroring at the borders.
 *
 * The kernel scans the nine offsets row by row (row offset dy outer, column
 * offset dx inner, each running from -1 to 1) and keeps three channel sums and
 * a count. The specification follows the same scan as a fold: Visit is one
 * step, RowTally a run of column offsets, ScanTally a run of row offsets.
 */
module Average {
  import opened Pixels

  /** The kernel's running state: the three channel sums and the number of cells summed. */
  datatype Tally = Tally(r: int, g: int, b: int, n: int)
  {
    function Sum(ch: Channel): int
    {
      match ch
      case Red => r
      case Green => g
      case Blue => b
    }
  }

  /** The state before any cell is visited. */
  const Empty := Tally(0, 0, 0, 0)

  /** One step of the scan: the cell (nx, ny) is added when it lies inside the image. */
  function Visit(img: Image, t: Tally, nx: int, ny: int): (t': Tally)
    requires Rectangular(img)
    ensures InBounds(img, nx, ny) ==> t'.n == t.n + 1 && forall ch :: t'.Sum(ch) == t.Sum(ch) + img[ny][nx].Get(ch)
    ensures !InBounds(img, nx, ny) ==> t' == t
  {
    if InBounds(img, nx, ny) then
      var c := img[ny][nx];
      Tally(t.r + c.r, t.g + c.g, t.b + c.b, t.n + 1)
    else t
  }

  /** The state after visiting, from t, the column offsets -1 .. dx - 1 of row ny around column x. */
  function RowTally(img: Image, t: Tally, x: int, ny: int, dx: int): Tally
    requires Rectangular(img) && -1 <= dx <= 2
    decreases dx + 1
  {
    if dx == -1 then t else Visit(img, RowTally(img, t, x, ny, dx - 1), x + dx - 1, ny)
  }

  /** The state after the row offsets -1 .. dy - 1 around (x, y), each over all three columns. */
  function ScanTally(img: Image, x: int, y: int, dy: int): Tally
    requires Rectangular(img) && -1 <= dy <= 2
    decreases dy + 1
  {
    if dy == -1 then Empty else RowTally(img, ScanTally(img, x, y, dy - 1), x, y + dy - 1, 2)
  }

  /** The sums and the count over the whole 3x3 neighbourhood of (x, y). */
  function Neighbourhood(img: Image, x: int, y: int): Tally
    requires Rectangular(img)
  {
    ScanTally(img, x, y, 2)
  }

  /** (nx, ny) lies in the 3x3 square centred on (x, y). */
  predicate Adjacent(x: int, y: int, nx: int, ny: int)
  {
    -1 <= nx - x <= 1 && -1 <= ny - y <= 1
  }

  /** How many of t - 1, t, t + 1 lie in [0, n). */
  function Span(t: int, n: int): nat
  {
    (if 0 <= t - 1 < n then 1 else 0) + (if 0 <= t < n then 1 else 0) + (if 0 <= t + 1 < n then 1 else 0)
  }

  /** The colour the kernel computes at (x, y): per channel, the truncated quotient of the
      neighbourhood sum by the neighbour count, narrowed to uint8_t. */
  function AverageColor(img: Image, x: int, y: int): Color
    requires Rectangular(img) && InBounds(img, x, y)
  {
    var t := Neighbourhood(img, x, y);
    CountPositive(img, x, y);
    Color(ToByte(CDiv(t.r, t.n)), ToByte(CDiv(t.g, t.n)), ToByte(CDiv(t.b, t.n)))
  }

  /** A full row of offsets adds Span(x, width) to the count when row ny exists, nothing otherwise. */
  lemma RowCount(img: Image, t: Tally, x: int, ny: int)
    requires Rectangular(img) && 0 <= x < Width(img)
    ensures RowTally(img, t, x, ny, 2).n == t.n + if 0 <= ny < |img| then Span(x, Width(img)) else 0
  {
    assert RowTally(img, t, x, ny, 0) == Visit(img, t, x - 1, ny);
    assert RowTally(img, t, x, ny, 1) == Visit(img, Visit(img, t, x - 1, ny), x, ny);
  }

  /** The divisor is Span(x, width) * Span(y, height), between 1 and 9, so never zero. */
  lemma CountIsProduct(img: Image, x: int, y: int)
    requires Rectangular(img) && InBounds(img, x, y)
    ensures Neighbourhood(img, x, y).n == Span(x, Width(img)) * Span(y, |img|)
    ensures 1 <= Neighbourhood(img, x, y).n <= 9
  {
    var h, a := |img|, Span(x, Width(img));
    var t0 := ScanTally(img, x, y, 0);
    var t1 := ScanTally(img, x, y, 1);
    RowCount(img, Empty, x, y - 1);
    RowCount(img, t0, x, y);
    RowCount(img, t1, x, y + 1);
    var n := Neighbourhood(img, x, y).n;
    assert n == (if 0 < y then a else 0) + a + (if y + 1 < h then a else 0);
    assert 1 <= a <= 3;
    if 0 < y && y + 1 < h {
      assert Span(y, h) == 3 && n == 3 * a;
    } else if 0 < y || y + 1 < h {
      assert Span(y, h) == 2 && n == 2 * a;
    } else {
      assert Span(y, h) == 1 && n == a;
    }
  }

  /** The divisor is never zero. */
  lemma CountPositive(img: Image, x: int, y: int)
    requires Rectangular(img) && InBounds(img, x, y)
    ensures Neighbourhood(img, x, y).n >= 1
  {
    CountIsProduct(img, x, y);
  }

  /** On an image at least 2 by 2: 4 neighbours at a corner, 6 on a border, 9 inside. */
  lemma CountCases(img: Image, x: int, y: int)
    requires Rectangular(img) && InBounds(img, x, y) && Width(img) >= 2 && |img| >= 2
    ensures (x == 0 || x == Width(img) - 1) && (y == 0 || y == |img| - 1) ==> Neighbourhood(img, x, y).n == 4
    ensures (x == 0 || x == Width(img) - 1) != (y == 0 || y == |img| - 1) ==> Neighbourhood(img, x, y).n == 6
    ensures 0 < x < Width(img) - 1 && 0 < y < |img| - 1 ==> Neighbourhood(img, x, y).n == 9
  {
    CountIsProduct(img, x, y);
  }

  lemma MulSucc(n: int, a: int)
    ensures (n + 1) * a == n * a + a
  {
  }

  /** Every in-bounds cell of the square around (x, y) has channel ch in [lo, hi]. */
  ghost predicate NeighboursBetween(img: Image, x: int, y: int, ch: Channel, lo: int, hi: int)
    requires Rectangular(img)
  {
    forall nx, ny :: InBounds(img, nx, ny) && Adjacent(x, y, nx, ny) ==> lo <= img[ny][nx].Get(ch) <= hi
  }

  /** The sum of channel ch lies between count * lo and count * hi. */
  predicate Bounded(t: Tally, ch: Channel, lo: int, hi: int)
  {
    t.n * lo <= t.Sum(ch) <= t.n * hi
  }

  /** Visiting a cell whose channel lies in [lo, hi] keeps the sum between count * lo and count * hi. */
  lemma VisitBounded(img: Image, t: Tally, nx: int, ny: int, ch: Channel, lo: int, hi: int)
    requires Rectangular(img) && Bounded(t, ch, lo, hi)
    requires InBounds(img, nx, ny) ==> lo <= img[ny][nx].Get(ch) <= hi
    ensures Bounded(Visit(img, t, nx, ny), ch, lo, hi)
  {
    MulSucc(t.n, lo);
    MulSucc(t.n, hi);
  }

  /** A run of column offsets over neighbours in [lo, hi] keeps the bound. */
  lemma {:induction false} RowBounded(img: Image, t: Tally, x: int, y: int, ny: int, dx: int, ch: Channel, lo: int, hi: int)
    requires Rectangular(img) && -1 <= dx <= 2 && -1 <= ny - y <= 1
    requires NeighboursBetween(img, x, y, ch, lo, hi) && Bounded(t, ch, lo, hi)
    ensures Bounded(RowTally(img, t, x, ny, dx), ch, lo, hi)
    decreases dx + 1
  {
    if dx != -1 {
      RowBounded(img, t, x, y, ny, dx - 1, ch, lo, hi);
      assert InBounds(img, x + dx - 1, ny) ==> Adjacent(x, y, x + dx - 1, ny);
      VisitBounded(img, RowTally(img, t, x, ny, dx - 1), x + dx - 1, ny, ch, lo, hi);
    }
  }

  /** A run of row offsets over neighbours in [lo, hi] keeps the bound. */
  lemma {:induction false} ScanBounded(img: Image, x: int, y: int, dy: int, ch: Channel, lo: int, hi: int)
    requires Rectangular(img) && -1 <= dy <= 2
    requires NeighboursBetween(img, x, y, ch, lo, hi)
    ensures Bounded(ScanTally(img, x, y, dy), ch, lo, hi)
    decreases dy + 1
  {
    if dy != -1 {
      var prev := ScanTally(img, x, y, dy - 1);
      ScanBounded(img, x, y, dy - 1, ch, lo, hi);
      RowBounded(img, prev, x, y, y + dy - 1, 2, ch, lo, hi);
      assert ScanTally(img, x, y, dy) == RowTally(img, prev, x, y + dy - 1, 2);
    }
  }

  lemma MulMono(n: nat, a: int, b: int)
    requires a <= b
    ensures n * a <= n * b
  {
  }

  lemma DivBounds(t: int, n: int)
    requires n > 0
    ensures n * (t / n) <= t < n * (t / n) + n
  {
  }

  /** A value between n * lo and n * hi, divided by n, lies between lo and hi. */
  lemma QuotientBetween(t: int, n: int, lo: int, hi: int)
    requires n > 0 && n * lo <= t <= n * hi
    ensures lo <= t / n <= hi
  {
    var q := t / n;
    DivBounds(t, n);
    if q < lo {
      MulMono(n, q + 1, lo);
      MulSucc(q, n);
      assert false;
    }
    if q > hi {
      MulMono(n, hi + 1, q);
      MulSucc(hi, n);
      assert false;
    }
  }

  /** When every in-bounds neighbour of (x, y) has channel ch in [lo, hi], so has the truncated mean. */
  lemma MeanBetween(img: Image, x: int, y: int, ch: Channel, lo: int, hi: int)
    requires Rectangular(img) && InBounds(img, x, y)
    requires NeighboursBetween(img, x, y, ch, lo, hi)
    ensures Neighbourhood(img, x, y).n > 0
    ensures lo <= Neighbourhood(img, x, y).Sum(ch) / Neighbourhood(img, x, y).n <= hi
  {
    CountPositive(img, x, y);
    ScanBounded(img, x, y, 2, ch, lo, hi);
    QuotientBetween(Neighbourhood(img, x, y).Sum(ch), Neighbourhood(img, x, y).n, lo, hi);
  }

  /** Channel ch of AverageColor, before the mean is known to fit a byte. */
  lemma AverageChannel(img: Image, x: int, y: int, ch: Channel)
    requires Rectangular(img) && InBounds(img, x, y) && Neighbourhood(img, x, y).n > 0
    ensures AverageColor(img, x, y).Get(ch) == ToByte(CDiv(Neighbourhood(img, x, y).Sum(ch), Neighbourhood(img, x, y).n))
  {
  }

  /** Each channel of AverageColor is the neighbourhood sum divided by the neighbour count: the
      quotient already lies in [0, 255], so the uint8_t cast loses nothing. */
  lemma AverageIsMean(img: Image, x: int, y: int, ch: Channel)
    requires Rectangular(img) && InBounds(img, x, y)
    ensures Neighbourhood(img, x, y).n > 0
    ensures AverageColor(img, x, y).Get(ch) == Neighbourhood(img, x, y).Sum(ch) / Neighbourhood(img, x, y).n
  {
    var t := Neighbourhood(img, x, y);
    MeanBetween(img, x, y, ch, 0, 255);
    AverageChannel(img, x, y, ch);
    assert t.Sum(ch) >= 0 by {
      ScanBounded(img, x, y, 2, ch, 0, 255);
    }
  }

  /** When every in-bounds neighbour of (x, y) has channel ch in [lo, hi], so has the average:
      it lies between the least and the greatest neighbour value. */
  lemma AverageBetween(img: Image, x: int, y: int, ch: Channel, lo: int, hi: int)
    requires Rectangular(img) && InBounds(img, x, y)
    requires NeighboursBetween(img, x, y, ch, lo, hi)
    ensures lo <= AverageColor(img, x, y).Get(ch) <= hi
  {
    AverageIsMean(img, x, y, ch);
    MeanBetween(img, x, y, ch, lo, hi);
  }

  /** A uniform image is a fixed point of the kernel. */
  lemma UniformFixedPoint(img: Image, c: Color, x: int, y: int)
    requires Rectangular(img) && InBounds(img, x, y) && Uniform(img, c)
    ensures AverageColor(img, x, y) == c
  {
    var a := AverageColor(img, x, y);
    forall ch: Channel ensures a.Get(ch) == c.Get(ch) {
      assert NeighboursBetween(img, x, y, ch, c.Get(ch), c.Get(ch));
      AverageBetween(img, x, y, ch, c.Get(ch), c.Get(ch));
    }
    assert a.Get(Red) == c.Get(Red) && a.Get(Green) == c.Get(Green) && a.Get(Blue) == c.Get(Blue);
  }

  /** The inner loop of the kernel: the column offsets -1 .. 1 of row offset dy, added to the
      running sums and count it receives. */
  method ScanRow(img: Image, x: int, y: int, dy: int, sumR: int, sumG: int, sumB: int, count: int)
    returns (sumR': int, sumG': int, sumB': int, count': int)
    requires Rectangular(img) && InBounds(img, x, y)
    ensures Tally(sumR', sumG', sumB', count') == RowTally(img, Tally(sumR, sumG, sumB, count), x, y + dy, 2)
  {
    sumR', sumG', sumB', count' := sumR, sumG, sumB, count;
    var dx := -1;
    while dx <= 1
      invariant -1 <= dx <= 2
      invariant Tally(sumR', sumG', sumB', count') == RowTally(img, Tally(sumR, sumG, sumB, count), x, y + dy, dx)
    {
      var nx, ny := x + dx, y + dy;
      if nx >= 0 && ny >= 0 && nx < |img[0]| && ny < |img| {
        sumR' := sumR' + img[ny][nx].r;
        sumG' := sumG' + img[ny][nx].g;
        sumB' := sumB' + img[ny][nx].b;
        count' := count' + 1;
      }
      dx := dx + 1;
    }
  }

  /** The kernel as the source runs it: the row-offset loop over ScanRow, then one truncating
      division per channel. */
  method ComputeAverageColor(img: Image, x: int, y: int) returns (c: Color)
    requires Rectangular(img) && InBounds(img, x, y)
    ensures c == AverageColor(img, x, y)
  {
    var sumR, sumG, sumB, count := 0, 0, 0, 0;
    var dy := -1;
    while dy <= 1
      invariant -1 <= dy <= 2
      invariant Tally(sumR, sumG, sumB, count) == ScanTally(img, x, y, dy)
    {
      sumR, sumG, sumB, count := ScanRow(img, x, y, dy, sumR, sumG, sumB, count);
      dy := dy + 1;
    }
    CountPositive(img, x, y);
    c := Color(ToByte(CDiv(sumR, count)), ToByte(CDiv(sumG, count)), ToByte(CDiv(sumB, count)));
  }
}
