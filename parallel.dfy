/**
 * The multi-threaded blur. Every worker runs the strip task on its own strip of
 * rows, reading only the input and writing only its rows of the shared result
 * buffer; the caller then joins them all. The model runs the workers one after
 * another in the order they are started: since the strips are disjoint and no
 * worker reads the buffer, every order of completion leaves the same buffer
 * (StripsCommute).
 */
module Parallel {
  import opened Pixels
  import opened Average
  import opened Sequential
  import opened Strips

  /** The image buf with the rows [startY, endY) replaced by those of target. */
  function CopyRows(buf: Image, target: Image, startY: int, endY: int): (out: Image)
    requires |buf| == |target|
    ensures |out| == |buf|
    ensures forall y :: 0 <= y < |buf| ==> out[y] == if startY <= y < endY then target[y] else buf[y]
  {
    seq(|buf|, y requires 0 <= y < |buf| => if startY <= y < endY then target[y] else buf[y])
  }

  /** Two strip tasks over disjoint rows give the same buffer whichever finishes first. */
  lemma StripsCommute(buf: Image, target: Image, s1: int, e1: int, s2: int, e2: int)
    requires |buf| == |target|
    requires e1 <= s2 || e2 <= s1
    ensures CopyRows(CopyRows(buf, target, s1, e1), target, s2, e2)
         == CopyRows(CopyRows(buf, target, s2, e2), target, s1, e1)
  {
  }

  /** The buffer after copying the strips 0 .. i - 1 of target, in that order, into buf. */
  function StripsCopied(buf: Image, target: Image, t: int, i: int): (out: Image)
    requires |buf| == |target| && t >= 1 && 0 <= i <= t
    ensures |out| == |buf|
    decreases i
  {
    if i == 0 then buf
    else CopyRows(StripsCopied(buf, target, t, i - 1), target, StripStart(|buf|, t, i - 1), StripEnd(|buf|, t, i - 1))
  }

  /** After the first i strips, the rows before StripStart(i) are target's and the others buf's. */
  lemma {:induction false} StripsCopiedPrefix(buf: Image, target: Image, t: int, i: int, y: int)
    requires |buf| == |target| && t >= 1 && 0 <= i < t && 0 <= y < |buf|
    ensures StripsCopied(buf, target, t, i)[y] == if y < StripStart(|buf|, t, i) then target[y] else buf[y]
    decreases i
  {
    if i > 0 {
      StripsCopiedPrefix(buf, target, t, i - 1, y);
      StripBounds(|buf|, t, i - 1);
      StripsTile(|buf|, t);
      assert StripEnd(|buf|, t, i - 1) == StripStart(|buf|, t, i);
    }
  }

  /** Once all t strips are copied, the buffer is target. */
  lemma AllStripsCopied(buf: Image, target: Image, t: int)
    requires |buf| == |target| && t >= 1
    ensures StripsCopied(buf, target, t, t) == target
  {
    StripsTile(|buf|, t);
    StripBounds(|buf|, t, t - 1);
    var out := StripsCopied(buf, target, t, t);
    forall y | 0 <= y < |buf|
      ensures out[y] == target[y]
    {
      StripsCopiedPrefix(buf, target, t, t - 1, y);
    }
  }

  /** The engine's blurTask: rows startY .. endY - 1 of the result buffer receive the kernel's
      average of the input; every other cell keeps its value. As a value, the buffer becomes
      CopyRows of its old contents with the blurred image's rows. */
  method BlurTask(input: Image, result: array2<Color>, startY: int, endY: int)
    requires Rectangular(input) && result.Length0 == |input| && result.Length1 == Width(input)
    requires startY < endY ==> 0 <= startY && endY <= |input|
    modifies result
    ensures forall i, j :: 0 <= i < result.Length0 && 0 <= j < result.Length1 ==>
      result[i, j] == if startY <= i < endY then AverageColor(input, j, i) else old(result[i, j])
    ensures Contents(result) == CopyRows(old(Contents(result)), Blurred(input), startY, endY)
  {
    ghost var prior := Contents(result);
    var y := startY;
    while y < endY
      invariant startY <= y && (y <= endY || y == startY)
      invariant forall i, j :: 0 <= i < result.Length0 && 0 <= j < result.Length1 ==>
        result[i, j] == if startY <= i < y then AverageColor(input, j, i) else prior[i][j]
    {
      var x := 0;
      while x < |input[y]|
        invariant 0 <= x <= |input[y]|
        invariant forall i, j :: 0 <= i < result.Length0 && 0 <= j < result.Length1 ==>
          result[i, j] == if startY <= i < y || (i == y && j < x) then AverageColor(input, j, i) else prior[i][j]
      {
        var c := ComputeAverageColor(input, x, y);
        result[y, x] := c;
        x := x + 1;
      }
      y := y + 1;
    }
    ghost var after := CopyRows(prior, Blurred(input), startY, endY);
    forall i, j | 0 <= i < result.Length0 && 0 <= j < result.Length1
      ensures result[i, j] == after[i][j]
    {
      BlurredCell(input, j, i);
    }
    ContentsEqual(result, after);
  }

  /** The body of the engine's ParallelBlur for a positive thread count: the strip height, one
      strip task per strip in start order, and the join. Each task turns the buffer into the
      next step of StripsCopied; after the last one every row holds the blurred image. */
  method RunWorkers(input: Image, result: array2<Color>, numThreads: int)
    requires Rectangular(input) && result.Length0 == |input| && result.Length1 == Width(input)
    requires numThreads >= 1 && Contents(result) == input
    modifies result
    ensures Contents(result) == Blurred(input)
  {
    var imgHeight := |input|;
    var stripHeight := CDiv(imgHeight, numThreads);
    var i := 0;
    while i < numThreads
      invariant 0 <= i <= numThreads
      invariant Contents(result) == StripsCopied(input, Blurred(input), numThreads, i)
    {
      var startY := i * stripHeight;
      var endY := if i == numThreads - 1 then imgHeight else (i + 1) * stripHeight;
      assert startY == StripStart(imgHeight, numThreads, i) && endY == StripEnd(imgHeight, numThreads, i);
      StripBounds(imgHeight, numThreads, i);
      BlurTask(input, result, startY, endY);
      i := i + 1;
    }
    AllStripsCopied(input, Blurred(input), numThreads);
  }

  /** The engine's ParallelBlur: the result starts as a copy of the input, and the rows are cut
      into numThreads strips, one strip task per strip. With at least one thread the result is
      the sequential blur. With a negative count the strip loop runs zero times, so no task is
      started and the result is the unblurred copy. */
  method ParallelBlur(input: Image, numThreads: int) returns (output: Image)
    requires Rectangular(input) && numThreads != 0
    ensures numThreads >= 1 ==> output == Blurred(input)
    ensures numThreads < 0 ==> output == input
  {
    var result := Copy(input);
    ContentsEqual(result, input);
    if numThreads >= 1 {
      RunWorkers(input, result, numThreads);
    }
    output := Contents(result);
  }
}
