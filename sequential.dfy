/**
 * The single-threaded blur: a copy of the input whose every cell is replaced by
 * the kernel's average of the input's neighbourhood. The output is written into
 * a buffer that starts as a copy of the input, as the engine does, and the
 * kernel always reads the untouched input, never the buffer.
 */
module Sequential {
  import opened Pixels
  import opened Average

  /** The blurred image: the input's shape, with every cell the kernel's average. */
  function Blurred(img: Image): (out: Image)
    requires Rectangular(img)
    ensures |out| == |img| && Width(out) == Width(img) && Rectangular(out)
  {
    seq(|img|, y requires 0 <= y < |img| =>
      seq(|img[y]|, x requires 0 <= x < |img[y]| => AverageColor(img, x, y)))
  }

  /** Cell (x, y) of the blurred image is the kernel's average at (x, y) of the input. */
  lemma BlurredCell(img: Image, x: int, y: int)
    requires Rectangular(img) && InBounds(img, x, y)
    ensures Blurred(img)[y][x] == AverageColor(img, x, y)
  {
  }

  /** The rows of a buffer, as an image. */
  function Contents(a: array2<Color>): (img: Image)
    reads a
    ensures |img| == a.Length0 && forall y :: 0 <= y < |img| ==> |img[y]| == a.Length1
  {
    seq(a.Length0, y requires 0 <= y < a.Length0 reads a =>
      seq(a.Length1, x requires 0 <= x < a.Length1 reads a => a[y, x]))
  }

  /** A fresh buffer holding a copy of img (the engine's `result = input`). */
  method Copy(img: Image) returns (a: array2<Color>)
    requires Rectangular(img)
    ensures fresh(a) && a.Length0 == |img| && a.Length1 == Width(img)
    ensures forall y, x :: 0 <= y < a.Length0 && 0 <= x < a.Length1 ==> a[y, x] == img[y][x]
  {
    a := new Color[|img|, Width(img)]((y, x) requires 0 <= y < |img| && 0 <= x < Width(img) => img[y][x]);
  }

  /** A buffer of img's shape that agrees with it everywhere holds img. */
  lemma ContentsEqual(a: array2<Color>, img: Image)
    requires a.Length0 == |img| && forall y :: 0 <= y < |img| ==> |img[y]| == a.Length1
    requires forall y, x :: 0 <= y < a.Length0 && 0 <= x < a.Length1 ==> a[y, x] == img[y][x]
    ensures Contents(a) == img
  {
    var c := Contents(a);
    forall y | 0 <= y < |img|
      ensures c[y] == img[y]
    {
    }
  }

  /** The engine's SequentialBlur: one pass over the rows and, within each row, over the columns,
      writing the kernel's average of the input into the copied buffer. */
  method SequentialBlur(input: Image) returns (output: Image)
    requires Rectangular(input)
    ensures output == Blurred(input)
  {
    var result := Copy(input);
    var y := 0;
    while y < |input|
      invariant 0 <= y <= |input|
      invariant forall i, j :: 0 <= i < |input| && 0 <= j < Width(input) ==>
        result[i, j] == if i < y then AverageColor(input, j, i) else input[i][j]
    {
      var x := 0;
      while x < |input[y]|
        invariant 0 <= x <= |input[y]|
        invariant forall i, j :: 0 <= i < |input| && 0 <= j < Width(input) ==>
          result[i, j] == if i < y || (i == y && j < x) then AverageColor(input, j, i) else input[i][j]
      {
        var c := ComputeAverageColor(input, x, y);
        result[y, x] := c;
        x := x + 1;
      }
      y := y + 1;
    }
    forall i, j | 0 <= i < result.Length0 && 0 <= j < result.Length1
      ensures result[i, j] == Blurred(input)[i][j]
    {
      BlurredCell(input, j, i);
    }
    ContentsEqual(result, Blurred(input));
    output := Contents(result);
  }

  /** Blurring leaves a uniform image unchanged. */
  lemma BlurUniform(img: Image, c: Color)
    requires Rectangular(img) && Uniform(img, c)
    ensures Blurred(img) == img
  {
    var out := Blurred(img);
    forall y | 0 <= y < |img|
      ensures out[y] == img[y]
    {
      forall x | 0 <= x < |img[y]|
        ensures out[y][x] == img[y][x]
      {
        UniformFixedPoint(img, c, x, y);
      }
    }
  }

  /** Every cell of img has channel ch in [lo, hi]. */
  ghost predicate ChannelBetween(img: Image, ch: Channel, lo: int, hi: int)
  {
    forall y, x :: 0 <= y < |img| && 0 <= x < |img[y]| ==> lo <= img[y][x].Get(ch) <= hi
  }

  /** Blurring never takes a channel outside the range of the input's values of that channel. */
  lemma BlurBetween(img: Image, ch: Channel, lo: int, hi: int)
    requires Rectangular(img) && ChannelBetween(img, ch, lo, hi)
    ensures ChannelBetween(Blurred(img), ch, lo, hi)
  {
    var out: Image := Blurred(img);
    forall y, x | 0 <= y < |out| && 0 <= x < |out[y]|
      ensures lo <= out[y][x].Get(ch) <= hi
    {
      assert NeighboursBetween(img, x, y, ch, lo, hi);
      AverageBetween(img, x, y, ch, lo, hi);
    }
  }

  /** The 3x3 image, black except for a red corner at (0, 0). */
  function RedCorner(): (img: Image)
    ensures Rectangular(img) && |img| == 3 && Width(img) == 3
  {
    var k := Color(0, 0, 0);
    [[Color(255, 0, 0), k, k], [k, k, k], [k, k, k]]
  }

  /** The red corner is one of the 4 cells around the corner: 255 / 4 truncates to 63. */
  lemma RedCornerAtCorner()
    ensures Blurred(RedCorner())[0][0] == Color(63, 0, 0)
  {
    var img := RedCorner();
    BlurredCell(img, 0, 0);
    AverageIsMean(img, 0, 0, Red);
    AverageIsMean(img, 0, 0, Green);
    AverageIsMean(img, 0, 0, Blue);
  }

  /** The red corner is one of the 9 cells around the centre: 255 / 9 truncates to 28. */
  lemma RedCornerAtCentre()
    ensures Blurred(RedCorner())[1][1] == Color(28, 0, 0)
  {
    var img := RedCorner();
    BlurredCell(img, 1, 1);
    AverageIsMean(img, 1, 1, Red);
    AverageIsMean(img, 1, 1, Green);
    AverageIsMean(img, 1, 1, Blue);
  }

  /** Blurring does change a non-uniform image: the red corner drops from 255 to 63. */
  lemma RedCornerChanges()
    ensures Blurred(RedCorner()) != RedCorner()
  {
    RedCornerAtCorner();
    assert Blurred(RedCorner())[0][0] != RedCorner()[0][0];
  }

  /** An image of h rows of w cells, all of colour c. */
  function Filled(h: nat, w: nat, c: Color): (img: Image)
    ensures |img| == h && Rectangular(img) && Uniform(img, c)
    ensures h > 0 ==> Width(img) == w
  {
    seq(h, _ => seq(w, _ => c))
  }

  /** A 4x4 image of grey (100, 100, 100) blurs to itself. */
  lemma GreySquareBlur()
    ensures Blurred(Filled(4, 4, Color(100, 100, 100))) == Filled(4, 4, Color(100, 100, 100))
  {
    BlurUniform(Filled(4, 4, Color(100, 100, 100)), Color(100, 100, 100));
  }
}
