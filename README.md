# Box blur of image.hpp, modelled in Dafny

This project models the image-processing core of `image.hpp`: a 3x3 box blur over an
RGB image stored as rows of pixels. The blur comes in two forms. `SequentialBlur` is
one pass over all cells. `ParallelBlur` cuts the rows into strips, one strip per
worker thread.

The model is split by concern:

- `pixels.dfy` (module `Pixels`):
  - the `Color` struct, with three channels in [0, 255];
  - the `Image` type, a sequence of rows;
  - the two C++ integer operations the kernel uses: `int` division truncated toward
    zero (`CDiv`) and the narrowing cast to `uint8_t` (`ToByte`, reduction modulo 256).
- `average.dfy` (module `Average`):
  - `computeAverageColor`, as the method `ComputeAverageColor`. Its nested offset loops
    keep three channel sums and a count; the inner loop over column offsets is the
    method `ScanRow`.
  - The specification replays the same scan as a fold over a `Tally` (three sums and a
    count). `Visit` is one cell, `RowTally` is one row of offsets, `ScanTally` runs the
    row offsets. `AverageColor` divides the sums by the count.
- `sequential.dfy` (module `Sequential`): `SequentialBlur`, working on a two-dimensional
  buffer that starts as a copy of the input. `Blurred` is its specification.
- `strips.dfy` (module `Strips`): the rule that assigns rows to workers.
  - `stripHeight = height / numThreads`.
  - Strip `i` is `[i * stripHeight, (i + 1) * stripHeight)`.
  - The last strip runs to `height` instead.
- `parallel.dfy` (module `Parallel`):
  - `blurTask` as the method `BlurTask`, which writes one strip of the shared result
    buffer;
  - `ParallelBlur`, which copies the input and, for a positive thread count, hands the
    buffer to `RunWorkers`, which starts one task per strip;
  - the value-level schedule of strips: `CopyRows` is one task's effect on the buffer, and
    `StripsCopied` is the buffer after the first `i` tasks. `BlurTask` promises the first,
    and `RunWorkers` keeps the second as its loop invariant.

The main results are these:

- Both `SequentialBlur` and `ParallelBlur`, for every `numThreads >= 1`, return
  `Blurred(input)`. So the two are equal cell for cell.
- The divisor of the kernel is never zero. It equals `Span(x, width) * Span(y, height)`:
  4 at a corner, 6 on a border and 9 inside.
- Each output channel is the exact floor of the mean. It lies between the least and the
  greatest value of that channel in the neighbourhood. So the `uint8_t` cast loses nothing.
- A uniform image is a fixed point of the blur.
- The strips lie inside the image and tile `[0, height)` with no gap and no overlap. This
  also holds when `height % numThreads != 0` (the last strip takes the remainder) and
  when `numThreads > height` (every strip but the last is empty).
- A strip task changes only the cells of its own rows.

Nothing reads the result buffer: every kernel call reads the untouched input. The input is
an immutable value in the model (the C++ code takes it as `const Image&`), so no operation
modifies it.

**The thread count.** The code never checks `numThreads`.

- `numThreads == 0` divides by zero at `image.hpp:85`. The model therefore requires
  `numThreads != 0`.
- For a negative count, the strip loop at `image.hpp:97` runs zero times and no task
  starts. `ParallelBlur` then returns the copy made at `image.hpp:82`, which is the
  unblurred input. The model states exactly that. `Sequential.RedCornerChanges` shows
  that this copy differs from the blurred image.

## Model

| member | source | states |
|---|---|---|
| Pixels.ToByte | image.hpp:62 | the `uint8_t` cast is the identity on [0, 255] and otherwise agrees with its argument modulo 256 |
| Pixels.CDiv | image.hpp:85 | C++ `int` division: for a positive divisor it is the floor quotient of a non-negative dividend and the negated floor quotient of a non-positive one |
| Average.RowCount | image.hpp:47-58 | a full row of column offsets adds `Span(x, width)` to the count when the row exists, and nothing when it lies outside the image |
| Average.CountIsProduct | image.hpp:46-59 | the count of in-bounds neighbours is `Span(x, width) * Span(y, height)` and lies between 1 and 9, so the division at line 62 never divides by zero |
| Average.CountPositive | image.hpp:62 | the divisor is at least 1 for every in-bounds cell |
| Average.CountCases | image.hpp:46-59 | on an image of at least 2x2: 4 neighbours at a corner, 6 on a border, 9 inside |
| Average.VisitBounded | image.hpp:53-56 | adding a cell whose channel lies in [lo, hi] keeps the sum between count·lo and count·hi |
| Average.RowBounded | image.hpp:47-58 | a run of column offsets over neighbours in [lo, hi] keeps the sum between count·lo and count·hi |
| Average.ScanBounded | image.hpp:46-59 | the whole 3x3 scan keeps the sum between count·lo and count·hi |
| Average.QuotientBetween | image.hpp:62 | a value between n·lo and n·hi, divided by n > 0, lies in [lo, hi] |
| Average.MeanBetween | image.hpp:62 | the truncated mean of neighbours whose channel lies in [lo, hi] lies in [lo, hi] |
| Average.AverageIsMean | image.hpp:62 | each channel of the kernel's colour is exactly the floor of sum / count: the quotient is in [0, 255], so the cast is lossless |
| Average.AverageBetween | image.hpp:41-63 | each output channel lies between the least and the greatest value of that channel in the neighbourhood |
| Average.UniformFixedPoint | image.hpp:41-63 | on a uniform image the kernel returns the image's colour |
| Average.ScanRow | image.hpp:47-58 | the inner loop over dx adds exactly the in-bounds cells of row offset dy to the running sums and count (the fold `RowTally`) |
| Average.ComputeAverageColor | image.hpp:41-63 | the kernel returns `AverageColor`: per channel, the truncated sum over the in-bounds neighbours divided by their count, cast to `uint8_t` |
| Sequential.Blurred | image.hpp:66-75 | the blurred image has the input's height and width and is rectangular |
| Sequential.BlurredCell | image.hpp:70-72 | cell (x, y) of the blurred image is the kernel's average at (x, y) of the input |
| Sequential.Copy | image.hpp:67 | `result = input`: a fresh buffer of the input's dimensions holding every input cell |
| Sequential.SequentialBlur | image.hpp:66-75 | the output is `Blurred(input)`: same dimensions, every cell the kernel's average of the unchanged input |
| Sequential.BlurUniform | image.hpp:66-75 | blurring a uniform image returns it unchanged |
| Sequential.BlurBetween | image.hpp:66-75 | blurring never takes a channel outside the range of that channel's input values |
| Sequential.RedCornerAtCorner | image.hpp:41-63 | a single red corner of 255 blurs, at the corner, to 255 / 4 = 63 |
| Sequential.RedCornerAtCentre | image.hpp:41-63 | the same corner blurs, at the centre, to 255 / 9 = 28 |
| Sequential.RedCornerChanges | image.hpp:66-75 | blurring changes a non-uniform image |
| Sequential.GreySquareBlur | image.hpp:66-75 | a 4x4 image of grey (100, 100, 100) blurs to itself |
| Strips.StripHeightFloor | image.hpp:85 | with numThreads >= 1, stripHeight is the floor of height / numThreads: `numThreads · stripHeight <= height < numThreads · stripHeight + numThreads` |
| Strips.StripBounds | image.hpp:98-99 | every strip satisfies `0 <= startY <= endY <= height` |
| Strips.StripsTile | image.hpp:97-102 | the first strip starts at row 0, the last ends at the height, each other strip ends where the next starts |
| Strips.StripsOrdered | image.hpp:98-99 | an earlier strip ends no later than a later one starts |
| Strips.StripsDisjoint | image.hpp:97-102 | no row belongs to two strips |
| Strips.Owner | image.hpp:97-102 | every row of the image lies in some strip (the one it returns) |
| Strips.StripsCover | image.hpp:97-102 | every row lies in exactly one strip |
| Strips.LastStripRemainder | image.hpp:99 | the last strip has stripHeight + height % numThreads rows |
| Strips.MoreWorkersThanRows | image.hpp:85-99 | with more threads than rows, stripHeight is 0, every strip but the last is empty and the last is the whole image |
| Parallel.StripsCommute | image.hpp:97-107 | two strip tasks over disjoint rows, each of which turns the buffer into `CopyRows` of it (the effect `BlurTask` promises), leave the same buffer whichever finishes first |
| Parallel.StripsCopiedPrefix | image.hpp:97-102 | after the first i strips, exactly the rows before `StripStart(i)` are replaced |
| Parallel.AllStripsCopied | image.hpp:97-107 | once all strips are done every row is replaced: the strips leave no row out |
| Parallel.BlurTask | image.hpp:88-94 | rows startY .. endY - 1 of the result receive the kernel's average of the input; every other cell keeps its old value; an empty range is a no-op. As a whole image, the buffer becomes `CopyRows` of its old contents with the rows of `Blurred(input)` |
| Parallel.RunWorkers | image.hpp:84-107 | for numThreads >= 1 and a buffer holding the input, the buffer ends as `Blurred(input)`; its loop invariant is that after the first i tasks the buffer is `StripsCopied(input, Blurred(input), numThreads, i)` |
| Parallel.ParallelBlur | image.hpp:81-110 | for numThreads >= 1 the result is `Blurred(input)`, the same image as `SequentialBlur`; for a negative count it is the unblurred copy of the input |

## Left out

- The threads are not modelled. `std::thread`, `emplace_back` and `join` (image.hpp:83, 101, 105-107) become a sequential loop that runs the strip tasks in start order. `StripsCommute` shows that the order does not matter. The strips are disjoint and no task reads the result buffer, so finer interleavings also leave the same buffer. The model does not state that as an interleaving semantics.
- `Parallel.RunWorkers`: the strip height, the strip loop and the join (image.hpp:84-107) are a method of their own, which `ParallelBlur` calls when `numThreads >= 1`. For a negative count `ParallelBlur` skips the call; the source computes the strip height and runs the strip loop zero times, which changes nothing. The split only keeps the proof small.
- `Average.ScanRow`: the inner `dx` loop of `computeAverageColor` (image.hpp:47-58) is its own method, called from the `dy` loop, rather than nested inline. The branches, bounds check and updates are the source's. The split only keeps the proof small.
- Ragged images are left out. `computeAverageColor` bounds-checks columns against `img[0].size()`, while `SequentialBlur` and `blurTask` loop to `input[y].size()`. When a row is shorter than row 0, the kernel reads past its end at image.hpp:53. When a row is two or more cells longer than row 0, a cell at its end has no neighbour inside the checked bounds, so the count is 0 and image.hpp:62 divides by zero. A row exactly one cell longer happens to work: in `[[a], [b, c]]`, cell (1, 1) averages `a` and `b`, with a count of 2. So the code is undefined on most ragged images. The model requires, as an invariant on every image, that every row has row 0's width.
- The random image generator `generateRandomImage` is left out. It uses `rand`, `srand` and the clock.
- The timing helper `measureExecutionTime` is left out. It uses `std::chrono` and console output.
- The mutex and atomic counter benchmark `demonstrateAtomicOperations` is left out. It is unrelated to the blur and consists of concurrency and timing.
- The console renderer `displayImageWithColor` is left out, because it is I/O.
- The driver `main.cpp` is left out, because it consists of I/O and timing calls.
- The conversions between `size_t` and `int` are not modelled: `input.size()` narrowed to `int imgHeight` at image.hpp:84, and the `size_t` loop indices `x` and `y` passed as `int` to `computeAverageColor` at image.hpp:71 and `x` at image.hpp:91. Neither is the `int` range of the channel sums. Heights above `INT_MAX` are out of scope; the sums of nine bytes never overflow.
- The default argument `numThreads = 4` is left out. Every call passes the count explicitly.
