# Travelling ant — a verified model

The travelling ant starts on a source cell of the grid of non-negative integer
coordinates. It may step right, up, left or down onto any cell whose decimal
digit sum (digits of x plus digits of y) is at most `max_sum`. The program counts
the cells the ant can reach. It runs a breadth-first flood fill with three parts:

- a visitation record: a hash map from cell to `CellState`;
- a first-in first-out work queue;
- a counter.

The source is recorded as Attainable with the counter at 1, and the source is
never tested against the digit-sum rule itself.

The model has two modules:

- `AntGrid` (`grid_cell.dfy`) covers the library part. It holds the `Cell`
  datatype with its three digit-sum functions, the `CellState` enum and
  `AdjacentCells`.
  - The digit sums are read off the decimal numeral, as the source does.
    `Digits` produces the numeral and is proved to be the unique well-formed
    numeral of the number.
  - Each digit sum is then proved equal to the arithmetic digit sum `DigitSum`.
- `AntSearch` (`reachability.dfy`) covers the search loop of the program.
  - `CountReachable` is the `while` loop over the queue.
  - `ScanNeighbours` is the inner `for` loop over the neighbours of the popped cell.
  - The visitation record is a `map<Cell, CellState>`, the queue a `seq<Cell>`
    and the counter a `nat`.
  - `Visit` is the body of the inner loop for one neighbour. For the admitted
    case, its contract gives the record, the queue and the counter after the
    step; otherwise it says all three are unchanged.
  - `ScanNeighbours` states its whole new state in terms of `Fresh`, the
    popped cell's neighbours in scan order that are unrecorded and admissible.
    The record gains exactly those cells, the queue has them appended in that
    order, and the counter rises by their number.
  - `CountReachable` is proved against an independent definition of what is
    reachable. `Region(source, maxSum)` is the set of cells reached by a walk
    from the source through admissible cells.

The main result is stated in `CountReachable`. When the loop ends:

- the record's keys are exactly `Region`;
- every entry is Attainable;
- the record is closed under admissible steps;
- the counter equals the number of reachable cells.

Termination is proved, not assumed. The proof uses a wall value `w`:

- `w` is larger than both source coordinates;
- the digit sum of `w` alone exceeds `maxSum`, so no admitted cell can have a
  coordinate equal to `w`;
- every walk is therefore confined to the box below `w` in both coordinates;
- the loop measure is the set of unrecorded cells in that box, followed by the
  queue length.

The set of all admissible cells is not bounded: every power of ten has digit sum
1 (`AntSearch.AdmissibleUnbounded`). So the loop does not end because the
admissible cells are finite. It ends because the ant's connected part of them is
finite.

## Model

| member | source | states |
|---|---|---|
| AntGrid.Cell | src/lib.rs:10-19 | a cell is a pair of non-negative coordinates compared by value; `Cell::new(x, y)` is the constructor `Cell(x, y)` |
| AntGrid.CellState | src/lib.rs:42-47 | the three states a recorded cell can have: Attainable, NotAttainable, Unknown |
| AntGrid.Sum | src/lib.rs:26 | the `.sum()` of the digit values, added from the front |
| AntGrid.SumAppend | src/lib.rs:26 | appending a digit adds its value to the sum |
| AntGrid.Digits | src/lib.rs:21-27 | `x.to_string()` as a digit sequence: a well-formed numeral (digits below ten, no leading zero), of length one exactly for numbers below ten |
| AntGrid.DigitsDenote | src/lib.rs:21-27 | the numeral denotes the number it was produced from |
| AntGrid.DigitsUnique | src/lib.rs:21-27 | any well-formed numeral of n is exactly `Digits(n)`, so the decimal text is determined by the number |
| AntGrid.SumOfDigitsIsDigitSum | src/lib.rs:21-27 | adding up the numeral's digits gives the arithmetic digit sum (last digit plus digit sum of the quotient by ten) |
| AntGrid.DigitSumZero | src/lib.rs:21-27 | a digit sum is zero exactly for the number zero |
| AntGrid.Cell.SumOfDigitsX | src/lib.rs:21-27 | the sum of the digits of x's decimal text equals the arithmetic digit sum of x |
| AntGrid.Cell.SumOfDigitsY | src/lib.rs:29-35 | the sum of the digits of y's decimal text equals the arithmetic digit sum of y |
| AntGrid.Cell.SumOfDigits | src/lib.rs:37-39 | the cell's digit sum is the digit sum of x plus that of y, and it is zero exactly at the origin |
| AntGrid.SumOfDigitsExample | src/lib.rs:125-129 | the cell (25, 2010184) has digit sum 23 |
| AntGrid.AdjacentCells | src/lib.rs:106-119 | length is 2 plus one per positive coordinate; right and up come first, left is third when x > 0, down is last when y > 0; the cell itself is not listed |
| AntGrid.AdjacentAreNeighbours | src/lib.rs:92-119 | the listed cells are exactly the cells one step away along one axis with non-negative coordinates, each listed once |
| AntGrid.AdjacentSymmetric | src/lib.rs:106-119 | b is adjacent to a exactly when a is adjacent to b |
| AntGrid.AdjacentOfOrigin | src/lib.rs:99-104 | the origin's adjacent cells are (1,0) then (0,1) |
| AntGrid.AdjacentExceptBottom | src/lib.rs:131-139 | (1027,0) has three adjacent cells, among them (1026,0), (1028,0) and (1027,1) |
| AntSearch.Admissible | src/main.rs:48 | the admission test: the cell's digit sum is at most max_sum |
| AntSearch.AdmissibleIsSumTest | src/main.rs:48 | Admissible holds exactly when `sum_of_digits() <= max_sum` |
| AntSearch.Checked | src/main.rs:42-46 | a cell counts as checked exactly when the record holds it with a state other than Unknown; a missing entry reads as Unknown |
| AntSearch.Visit | src/main.rs:42-52 | for one neighbour: if it is unrecorded and admissible, the record gains it as Attainable, the queue has it appended and the counter rises by one; otherwise all three are unchanged; the search invariant is kept either way |
| AntSearch.Fresh | src/main.rs:41-52 | the neighbours a scan enqueues, in scan order; there are at most as many as there are cells scanned |
| AntSearch.FreshMembers | src/main.rs:41-52 | a cell is among them exactly when it is scanned, unrecorded before the scan and admissible |
| AntSearch.FreshNext | src/main.rs:41-52 | scanning one more neighbour adds it at the end exactly when it is unrecorded and admissible; it was not among the cells already scanned |
| AntSearch.TrackNext | src/main.rs:41-52 | after each visited neighbour, the record is the original record plus the admissible cells scanned so far, the queue is the original queue followed by `Fresh` of them, and the counter has risen by their number |
| AntSearch.ScanNeighbours | src/main.rs:41-53 | scanning the popped cell's neighbours: the record's keys become the old keys plus exactly the unrecorded admissible neighbours; the queue becomes the old queue followed by them in right/up/left/down order; the counter rises by their number; the search invariant is kept; afterwards the popped cell and every other cell not waiting in the queue has all its admissible neighbours recorded |
| AntSearch.CountReachable | src/main.rs:33-54 | the loop ends; the record's keys are exactly the reachable region; every entry is Attainable; every recorded cell other than the source is admissible; the record is closed under admissible steps; the counter equals the region's size and is at least 1 |
| AntSearch.OriginCounts | src/main.rs:33-54 | from the origin the count is 1 with max_sum 0 and 3 with max_sum 1 |
| AntSearch.InRegion | src/main.rs:33-54 | a cell is in the region exactly when an admissible walk from the source ends at it |
| AntSearch.RegionHasSource | src/main.rs:34-36 | the source is in its own region, whatever its digit sum |
| AntSearch.RegionAdmissible | src/main.rs:48 | every region cell other than the source passes the digit-sum rule |
| AntSearch.RegionClosed | src/main.rs:41-53 | every admissible neighbour of a region cell is in the region |
| AntSearch.RegionLeast | src/main.rs:33-54 | the region is contained in every set that holds the source and is closed under admissible steps |
| AntSearch.ReachableStep | src/main.rs:48-50 | an admissible neighbour of a reachable cell is reachable |
| AntSearch.RegionAtZero | src/main.rs:48 | with max_sum 0 the region holds at most the source and the origin |
| AntSearch.RegionFromOriginAtZero | src/main.rs:33-54 | with max_sum 0 the region of the origin is the origin alone |
| AntSearch.RegionFromOriginWithinOne | src/main.rs:33-54 | with max_sum 1 the region of the origin is (0,0), (1,0) and (0,1) |
| AntSearch.WalkInsideWall | src/main.rs:38-54 | every cell of an admissible walk, not only its last, lies strictly inside the wall, so the search stays in a finite box |
| AntSearch.Wall | src/main.rs:38-54 | the wall value exceeds both source coordinates and its digit sum exceeds max_sum |
| AntSearch.NinesDigitSum | src/main.rs:38-54 | the k-digit all-nines number has digit sum 9k, which is how the wall is found |
| AntSearch.AdmissibleUnbounded | src/main.rs:48 | the admissible cells are unbounded: for max_sum 1 there is an admissible cell beyond any bound |
| AntSearch.DiscoveredReachable | src/main.rs:48-50 | every recorded cell is reachable, by the chain of cells it was discovered from |
| AntSearch.FinishedIsRegion | src/main.rs:38 | once the queue is empty, the recorded cells are closed and equal the region |
| AntSearch.PopKeeps | src/main.rs:39 | taking the head off the queue keeps the invariant, and the head is recorded and not left in the rest of the queue |
| AntSearch.AdmitKeeps | src/main.rs:48-51 | recording an unrecorded, admissible neighbour as Attainable and enqueueing it keeps the invariant |

## Left out

- `get_max_sum` and `get_source_cell` (src/lib.rs:49-90) are terminal I/O. The
  source cell and `max_sum` are parameters of `CountReachable`.
- The `clap` argument struct, its parsing and the final `println!`
  (src/main.rs:8-31, 56) are command-line glue. `CountReachable` returns the
  counter, together with the record.
- `derive`d `Debug`, `Clone`, `Hash` and equality: `Cell` is a datatype, so
  equality is structural and hashing is not modelled.
- `Cell.new` is the datatype constructor `Cell(x, y)`.
- AntGrid.Cell: coordinates, digit sums and the counter are unbounded naturals.
  The source's `u32` would overflow in `cell.x + 1` or `cell.y + 1` at
  `u32::MAX`, and would panic in a debug build. That is not modelled.
- AntGrid.Digits: `to_string()`, `chars()` and `to_digit(10).unwrap()` are
  modelled as arithmetic on digit values, not on characters. `unwrap` cannot
  fail on a decimal numeral.
- AntGrid.CellState: the third variant is spelled `Uknown` in the source and
  `Unknown` here. `NotAttainable` is declared but never written by the loop,
  as in the source.
- AntSearch.CountReachable: the queue is a sequence. Popping the front is
  `queue[1..]` and pushing is `queue + [c]`, with no ring buffer.
