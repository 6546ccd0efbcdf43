/**
  The travelling ant's reachability count: a breadth-first flood fill from a
  source cell over cells whose digit sum is at most maxSum, with a visitation
  record, a first-in first-out work queue and a counter.
 */
module AntSearch {
  import opened AntGrid

  /**
    The admission rule applied to every discovered neighbour: the cell's digit
    sum is at most maxSum (Cell.SumOfDigits equals the sum used here).
   */
  predicate Admissible(c: Cell, maxSum: nat)
  {
    DigitSum(c.x) + DigitSum(c.y) <= maxSum
  }

  /** Admissible is the test the search applies, the cell's digit sum against maxSum. */
  lemma AdmissibleIsSumTest(c: Cell, maxSum: nat)
    ensures Admissible(c, maxSum) <==> c.SumOfDigits() <= maxSum
  {
  }

  /**
    Whether the visitation record has already decided c: a recorded
    Attainable or NotAttainable counts, a missing entry reads as Unknown.
   */
  function Checked(grid: map<Cell, CellState>, c: Cell): (b: bool)
    ensures b <==> c in grid && grid[c] != Unknown
  {
    match (if c in grid then grid[c] else Unknown)
    case Attainable => true
    case NotAttainable => true
    case Unknown => false
  }

  /** Consecutive cells of p are neighbours. */
  ghost predicate Steps(p: seq<Cell>)
  {
    forall i :: 0 < i < |p| ==> p[i] in AdjacentCells(p[i - 1])
  }

  /**
    A walk the ant can take from source: it starts at source, moves to a
    neighbour at each step, and every cell after the first is admissible.
   */
  ghost predicate AdmissibleWalk(p: seq<Cell>, source: Cell, maxSum: nat)
  {
    && |p| >= 1
    && p[0] == source
    && Steps(p)
    && forall i :: 0 < i < |p| ==> Admissible(p[i], maxSum)
  }

  ghost predicate Reachable(source: Cell, maxSum: nat, c: Cell)
  {
    exists p :: AdmissibleWalk(p, source, maxSum) && p[|p| - 1] == c
  }

  lemma {:induction false} WalkPrefix(p: seq<Cell>, source: Cell, maxSum: nat)
    requires AdmissibleWalk(p, source, maxSum) && |p| > 1
    ensures AdmissibleWalk(p[..|p| - 1], source, maxSum)
  {
  }

  lemma {:induction false} WalkExtend(p: seq<Cell>, source: Cell, maxSum: nat, n: Cell)
    requires AdmissibleWalk(p, source, maxSum)
    requires n in AdjacentCells(p[|p| - 1]) && Admissible(n, maxSum)
    ensures AdmissibleWalk(p + [n], source, maxSum)
  {
  }

  // ---------------------------------------------------------------------
  // A wall bounds the explored region, which makes the search terminate.
  // ---------------------------------------------------------------------

  function Pow10(k: nat): (r: nat)
    ensures r > k
  {
    if k == 0 then 1 else 10 * Pow10(k - 1)
  }

  /** The all-nines number with k digits has digit sum 9k. */
  lemma {:induction false} NinesDigitSum(k: nat)
    ensures DigitSum(Pow10(k) - 1) == 9 * k
  {
    if k > 0 {
      var m := Pow10(k - 1) - 1;
      assert Pow10(k) - 1 == 10 * m + 9;
      if m > 0 {
        assert (10 * m + 9) / 10 == m && (10 * m + 9) % 10 == 9;
      }
      NinesDigitSum(k - 1);
    }
  }

  /** Every power of ten has digit sum 1. */
  lemma {:induction false} PowerDigitSum(k: nat)
    ensures DigitSum(Pow10(k)) == 1
  {
    if k > 0 {
      assert Pow10(k) / 10 == Pow10(k - 1) && Pow10(k) % 10 == 0;
      PowerDigitSum(k - 1);
    }
  }

  /**
    The admissible cells alone are not a bounded set: already for maxSum 1 there
    are admissible cells beyond any bound. Termination rests on the wall below.
   */
  lemma AdmissibleUnbounded(bound: nat)
    ensures exists c :: Admissible(c, 1) && c.x > bound
  {
    PowerDigitSum(bound);
    assert Admissible(Cell(Pow10(bound), 0), 1);
  }

  /**
    A coordinate value the ant can never take: it lies beyond the source and
    its digit sum alone exceeds maxSum.
   */
  ghost function Wall(source: Cell, maxSum: nat): (w: nat)
    ensures w > source.x && w > source.y
    ensures DigitSum(w) > maxSum
  {
    var k := maxSum + source.x + source.y + 1;
    NinesDigitSum(k);
    assert Pow10(k) - 1 > source.x && Pow10(k) - 1 > source.y && DigitSum(Pow10(k) - 1) > maxSum;
    var w: nat :| w > source.x && w > source.y && DigitSum(w) > maxSum;
    w
  }

  /** The cells both of whose coordinates are below w. */
  ghost function Box(w: nat): (b: set<Cell>)
    ensures forall c :: c in b <==> c.x < w && c.y < w
  {
    var b := set x: nat, y: nat | x < w && y < w :: Cell(x, y);
    assert forall c: Cell :: c.x < w && c.y < w ==> c in b by {
      forall c: Cell | c.x < w && c.y < w ensures c in b {
        assert c == Cell(c.x, c.y);
      }
    }
    b
  }

  /** An admissible neighbour of a cell inside the wall is inside the wall too. */
  lemma NeighbourInsideWall(a: Cell, b: Cell, source: Cell, maxSum: nat)
    requires a in Box(Wall(source, maxSum))
    requires b in AdjacentCells(a) && Admissible(b, maxSum)
    ensures b in Box(Wall(source, maxSum))
  {
  }

  /** Every cell of an admissible walk lies strictly inside the wall. */
  lemma {:induction false} WalkInsideWall(p: seq<Cell>, source: Cell, maxSum: nat)
    requires AdmissibleWalk(p, source, maxSum)
    ensures forall i :: 0 <= i < |p| ==> p[i] in Box(Wall(source, maxSum))
    decreases |p|
  {
    if |p| > 1 {
      var q := p[..|p| - 1];
      WalkPrefix(p, source, maxSum);
      WalkInsideWall(q, source, maxSum);
      assert q[|q| - 1] == p[|p| - 2];
      NeighbourInsideWall(p[|p| - 2], p[|p| - 1], source, maxSum);
      forall i | 0 <= i < |p| - 1 ensures p[i] in Box(Wall(source, maxSum)) {
        assert p[i] == q[i];
      }
    }
  }

  // ---------------------------------------------------------------------
  // The region the ant can reach.
  // ---------------------------------------------------------------------

  /** All cells reachable from source by an admissible walk (finite, inside the wall). */
  ghost function Region(source: Cell, maxSum: nat): (r: set<Cell>)
  {
    set c | c in Box(Wall(source, maxSum)) && Reachable(source, maxSum, c)
  }

  lemma InRegion(source: Cell, maxSum: nat, c: Cell)
    ensures c in Region(source, maxSum) <==> Reachable(source, maxSum, c)
  {
    if Reachable(source, maxSum, c) {
      var p :| AdmissibleWalk(p, source, maxSum) && p[|p| - 1] == c;
      WalkInsideWall(p, source, maxSum);
      assert p[|p| - 1] in Box(Wall(source, maxSum));
    }
  }

  /** Every admissible neighbour of a cell of S is in S. */
  ghost predicate ClosedAt(c: Cell, s: set<Cell>, maxSum: nat)
  {
    forall n :: n in AdjacentCells(c) && Admissible(n, maxSum) ==> n in s
  }

  ghost predicate Closed(s: set<Cell>, maxSum: nat)
  {
    forall c :: c in s ==> ClosedAt(c, s, maxSum)
  }

  lemma {:induction false} WalkStaysIn(p: seq<Cell>, source: Cell, maxSum: nat, s: set<Cell>)
    requires AdmissibleWalk(p, source, maxSum)
    requires source in s && Closed(s, maxSum)
    ensures p[|p| - 1] in s
    decreases |p|
  {
    if |p| > 1 {
      WalkPrefix(p, source, maxSum);
      var q := p[..|p| - 1];
      WalkStaysIn(q, source, maxSum, s);
      var a, b := q[|q| - 1], p[|p| - 1];
      assert a == p[|p| - 2];
      assert b in AdjacentCells(a) && Admissible(b, maxSum);
      assert ClosedAt(a, s, maxSum);
    }
  }

  /** The region is the least set that holds the source and is closed under admissible steps. */
  lemma RegionLeast(source: Cell, maxSum: nat, s: set<Cell>)
    requires source in s && Closed(s, maxSum)
    ensures Region(source, maxSum) <= s
  {
    forall c | c in Region(source, maxSum) ensures c in s {
      InRegion(source, maxSum, c);
      var p :| AdmissibleWalk(p, source, maxSum) && p[|p| - 1] == c;
      WalkStaysIn(p, source, maxSum, s);
    }
  }

  /** The source is always in its own region, whatever its digit sum. */
  lemma RegionHasSource(source: Cell, maxSum: nat)
    ensures source in Region(source, maxSum)
  {
    assert AdmissibleWalk([source], source, maxSum);
    InRegion(source, maxSum, source);
  }

  /** Every cell of the region other than the source is admissible. */
  lemma RegionAdmissible(source: Cell, maxSum: nat, c: Cell)
    requires c in Region(source, maxSum) && c != source
    ensures Admissible(c, maxSum)
  {
  }

  lemma ReachableStep(source: Cell, maxSum: nat, c: Cell, n: Cell)
    requires Reachable(source, maxSum, c)
    requires n in AdjacentCells(c) && Admissible(n, maxSum)
    ensures Reachable(source, maxSum, n)
  {
    var p :| AdmissibleWalk(p, source, maxSum) && p[|p| - 1] == c;
    WalkExtend(p, source, maxSum, n);
    assert (p + [n])[|p + [n]| - 1] == n;
  }

  /** The region is closed under admissible steps. */
  lemma RegionClosed(source: Cell, maxSum: nat)
    ensures Closed(Region(source, maxSum), maxSum)
  {
    var r := Region(source, maxSum);
    forall c, n | c in r && n in AdjacentCells(c) && Admissible(n, maxSum)
      ensures n in r
    {
      InRegion(source, maxSum, c);
      ReachableStep(source, maxSum, c, n);
      InRegion(source, maxSum, n);
    }
  }

  /** With maxSum 0 the only cell the ant can enter is the origin. */
  lemma RegionAtZero(source: Cell)
    ensures Region(source, 0) <= {source, Cell(0, 0)}
  {
    var s := {source, Cell(0, 0)};
    forall c, n | c in s && n in AdjacentCells(c) && Admissible(n, 0) ensures n in s {
      DigitSumZero(n.x);
      DigitSumZero(n.y);
      assert n.x == 0 && n.y == 0;
      assert n == Cell(0, 0);
    }
    RegionLeast(source, 0, s);
  }

  // ---------------------------------------------------------------------
  // The search.
  // ---------------------------------------------------------------------

  /**
    Bookkeeping that shows every recorded cell is reachable: each recorded
    cell other than the source was discovered from a recorded parent that is
    its neighbour and was discovered earlier (smaller dist).
   */
  ghost predicate Discovered(source: Cell, maxSum: nat, grid: set<Cell>,
                             dist: map<Cell, nat>, parent: map<Cell, Cell>)
  {
    && dist.Keys == grid
    && source in grid
    && (forall c :: c in grid && c != source ==> Admissible(c, maxSum) && c in parent)
    && forall c {:trigger parent[c]} :: c in grid && c != source && c in parent ==>
         && parent[c] in grid
         && c in AdjacentCells(parent[c])
         && dist[parent[c]] < dist[c]
  }

  lemma {:induction false} DiscoveredReachable(source: Cell, maxSum: nat, grid: set<Cell>,
                                                dist: map<Cell, nat>, parent: map<Cell, Cell>, c: Cell)
    requires Discovered(source, maxSum, grid, dist, parent) && c in grid
    ensures Reachable(source, maxSum, c)
    decreases dist[c]
  {
    if c == source {
      assert AdmissibleWalk([source], source, maxSum);
    } else {
      var b := parent[c];
      DiscoveredReachable(source, maxSum, grid, dist, parent, b);
      var p :| AdmissibleWalk(p, source, maxSum) && p[|p| - 1] == b;
      WalkExtend(p, source, maxSum, c);
      assert (p + [c])[|p + [c]| - 1] == c;
    }
  }

  /**
    What holds of the search state between steps: the record stays inside
    the wall, holds only Attainable, and every recorded cell was discovered;
    the queue holds recorded cells, each at most once.
   */
  ghost predicate SearchInv(source: Cell, maxSum: nat, grid: map<Cell, CellState>, queue: seq<Cell>,
                            dist: map<Cell, nat>, parent: map<Cell, Cell>)
  {
    && grid.Keys <= Box(Wall(source, maxSum))
    && (forall c :: c in grid ==> grid[c] == Attainable)
    && Discovered(source, maxSum, grid.Keys, dist, parent)
    && (forall i :: 0 <= i < |queue| ==> queue[i] in grid)
    && (forall i, j :: 0 <= i < j < |queue| ==> queue[i] != queue[j])
  }

  /** Every recorded cell that is no longer waiting in the queue has all its admissible neighbours recorded. */
  ghost predicate ClosedBeyond(s: set<Cell>, queue: seq<Cell>, maxSum: nat)
  {
    forall c :: c in s && c !in queue ==> ClosedAt(c, s, maxSum)
  }

  /** The first k neighbours of c are recorded or inadmissible. */
  ghost predicate ScannedUpTo(c: Cell, k: nat, s: set<Cell>, maxSum: nat)
  {
    forall j :: 0 <= j < k && j < |AdjacentCells(c)| && Admissible(AdjacentCells(c)[j], maxSum) ==>
      AdjacentCells(c)[j] in s
  }

  /**
    The cells of cs, in their order, that are not in known and are admissible:
    what scanning cs appends to the queue.
   */
  function Fresh(cs: seq<Cell>, known: set<Cell>, maxSum: nat): (r: seq<Cell>)
    ensures |r| <= |cs|
  {
    if cs == [] then []
    else
      var last := cs[|cs| - 1];
      Fresh(cs[..|cs| - 1], known, maxSum) + (if last !in known && Admissible(last, maxSum) then [last] else [])
  }

  /** Fresh keeps exactly the cells of cs that are not in known and are admissible. */
  lemma {:induction false} FreshMembers(cs: seq<Cell>, known: set<Cell>, maxSum: nat)
    ensures forall n :: n in Fresh(cs, known, maxSum) <==> n in cs && n !in known && Admissible(n, maxSum)
    decreases |cs|
  {
    if cs != [] {
      var front := cs[..|cs| - 1];
      FreshMembers(front, known, maxSum);
      assert cs == front + [cs[|cs| - 1]];
    }
  }

  /** Scanning one more neighbour of c appends that neighbour at most, and it was not scanned before. */
  lemma FreshNext(c: Cell, k: nat, known: set<Cell>, maxSum: nat)
    requires k < |AdjacentCells(c)|
    ensures AdjacentCells(c)[k] !in AdjacentCells(c)[..k]
    ensures forall n :: n in AdjacentCells(c)[..k + 1] <==> n in AdjacentCells(c)[..k] || n == AdjacentCells(c)[k]
    ensures var n := AdjacentCells(c)[k];
            Fresh(AdjacentCells(c)[..k + 1], known, maxSum) ==
              Fresh(AdjacentCells(c)[..k], known, maxSum) + (if n !in known && Admissible(n, maxSum) then [n] else [])
  {
    var cs := AdjacentCells(c);
    AdjacentAreNeighbours(c);
    assert cs[..k + 1][..k] == cs[..k];
    assert cs[..k + 1] == cs[..k] + [cs[k]];
  }

  /**
    After one more neighbour of c is visited, the record, the queue and the
    counter are still what scanning the neighbours so far adds to their
    values before the scan.
   */
  lemma TrackNext(c: Cell, k: nat, maxSum: nat, grid0: map<Cell, CellState>, queue0: seq<Cell>, counter0: nat,
                  grid: map<Cell, CellState>, queue: seq<Cell>, counter: nat,
                  grid': map<Cell, CellState>, queue': seq<Cell>, counter': nat)
    requires k < |AdjacentCells(c)|
    requires forall n :: n in grid <==> n in grid0 || (n in AdjacentCells(c)[..k] && Admissible(n, maxSum))
    requires queue == queue0 + Fresh(AdjacentCells(c)[..k], grid0.Keys, maxSum)
    requires counter == counter0 + |Fresh(AdjacentCells(c)[..k], grid0.Keys, maxSum)|
    requires var n := AdjacentCells(c)[k];
             n !in grid && Admissible(n, maxSum) ==>
               grid' == grid[n := Attainable] && queue' == queue + [n] && counter' == counter + 1
    requires var n := AdjacentCells(c)[k];
             !(n !in grid && Admissible(n, maxSum)) ==>
               grid' == grid && queue' == queue && counter' == counter
    ensures forall n :: n in grid' <==> n in grid0 || (n in AdjacentCells(c)[..k + 1] && Admissible(n, maxSum))
    ensures queue' == queue0 + Fresh(AdjacentCells(c)[..k + 1], grid0.Keys, maxSum)
    ensures counter' == counter0 + |Fresh(AdjacentCells(c)[..k + 1], grid0.Keys, maxSum)|
  {
    FreshNext(c, k, grid0.Keys, maxSum);
    var n := AdjacentCells(c)[k];
    assert n in grid <==> n in grid0;
    if n !in grid && Admissible(n, maxSum) {
      assert queue' == queue0 + (Fresh(AdjacentCells(c)[..k], grid0.Keys, maxSum) + [n]);
    } else {
      assert Fresh(AdjacentCells(c)[..k], grid0.Keys, maxSum) + [] == Fresh(AdjacentCells(c)[..k], grid0.Keys, maxSum);
    }
  }

  /** Once every neighbour of c is scanned, each admissible one is recorded. */
  lemma ScannedAll(c: Cell, known: set<Cell>, s: set<Cell>, maxSum: nat)
    requires forall n :: n in s <==> n in known || (n in AdjacentCells(c) && Admissible(n, maxSum))
    ensures ScannedUpTo(c, |AdjacentCells(c)|, s, maxSum)
  {
  }

  lemma StartKeeps(source: Cell, maxSum: nat)
    ensures SearchInv(source, maxSum, map[source := Attainable], [source], map[source := 0], map[])
    ensures ClosedBeyond({source}, [source], maxSum)
  {
  }

  /** Taking the head off the queue keeps the invariant, with the head still counted as pending. */
  lemma PopKeeps(source: Cell, maxSum: nat, grid: map<Cell, CellState>, queue: seq<Cell>,
                 dist: map<Cell, nat>, parent: map<Cell, Cell>)
    requires SearchInv(source, maxSum, grid, queue, dist, parent) && |queue| > 0
    ensures SearchInv(source, maxSum, grid, queue[1..], dist, parent)
    ensures queue[0] in grid && queue[0] !in queue[1..]
    ensures queue == [queue[0]] + queue[1..]
  {
  }

  /** Recording a cell discovered from a recorded neighbour keeps the discovery bookkeeping. */
  lemma DiscoverKeeps(source: Cell, maxSum: nat, grid: set<Cell>, dist: map<Cell, nat>,
                      parent: map<Cell, Cell>, current: Cell, n: Cell)
    requires Discovered(source, maxSum, grid, dist, parent)
    requires current in grid && n in AdjacentCells(current) && n !in grid && Admissible(n, maxSum)
    ensures Discovered(source, maxSum, grid + {n}, dist[n := dist[current] + 1], parent[n := current])
  {
  }

  /** Appending an unrecorded cell that is then recorded keeps the queue's guarantees. */
  lemma EnqueueKeeps(grid: set<Cell>, queue: seq<Cell>, n: Cell)
    requires forall i :: 0 <= i < |queue| ==> queue[i] in grid
    requires forall i, j :: 0 <= i < j < |queue| ==> queue[i] != queue[j]
    requires n !in grid
    ensures forall i :: 0 <= i < |queue + [n]| ==> (queue + [n])[i] in grid + {n}
    ensures forall i, j :: 0 <= i < j < |queue + [n]| ==> (queue + [n])[i] != (queue + [n])[j]
  {
  }

  /** Recording a cell and putting it in the queue keeps every non-pending cell closed. */
  lemma ClosedBeyondKeeps(s: set<Cell>, current: Cell, queue: seq<Cell>, maxSum: nat, n: Cell)
    requires ClosedBeyond(s, [current] + queue, maxSum)
    ensures ClosedBeyond(s + {n}, [current] + (queue + [n]), maxSum)
  {
  }

  /** Recording an admissible, unrecorded neighbour of the current cell keeps the invariant. */
  lemma AdmitKeeps(source: Cell, maxSum: nat, grid: map<Cell, CellState>, queue: seq<Cell>,
                   dist: map<Cell, nat>, parent: map<Cell, Cell>, current: Cell, n: Cell)
    requires SearchInv(source, maxSum, grid, queue, dist, parent)
    requires current in grid && n in AdjacentCells(current) && n !in grid && Admissible(n, maxSum)
    ensures SearchInv(source, maxSum, grid[n := Attainable], queue + [n],
                      dist[n := dist[current] + 1], parent[n := current])
  {
    var grid' := grid[n := Attainable];
    assert grid'.Keys == grid.Keys + {n};
    assert grid'.Keys <= Box(Wall(source, maxSum)) by {
      NeighbourInsideWall(current, n, source, maxSum);
    }
    assert Discovered(source, maxSum, grid'.Keys, dist[n := dist[current] + 1], parent[n := current]) by {
      DiscoverKeeps(source, maxSum, grid.Keys, dist, parent, current, n);
    }
    EnqueueKeeps(grid.Keys, queue, n);
  }

  /** Once all neighbours of the current cell are scanned, it is closed and need no longer count as pending. */
  lemma ScanDone(current: Cell, s: set<Cell>, queue: seq<Cell>, maxSum: nat)
    requires ClosedBeyond(s, [current] + queue, maxSum)
    requires ScannedUpTo(current, |AdjacentCells(current)|, s, maxSum)
    ensures ClosedBeyond(s, queue, maxSum)
  {
  }

  /** Recording new cells inside a bound leaves fewer unrecorded cells inside it. */
  lemma Shrinks(box: set<Cell>, a: set<Cell>, b: set<Cell>)
    requires a <= b <= box && a != b
    ensures box - b < box - a
  {
  }

  /** When the queue is empty, the recorded cells are exactly the region. */
  lemma FinishedIsRegion(source: Cell, maxSum: nat, grid: map<Cell, CellState>,
                         dist: map<Cell, nat>, parent: map<Cell, Cell>)
    requires SearchInv(source, maxSum, grid, [], dist, parent)
    requires ClosedBeyond(grid.Keys, [], maxSum)
    ensures Closed(grid.Keys, maxSum)
    ensures grid.Keys == Region(source, maxSum)
  {
    forall c | c in grid ensures c in Region(source, maxSum) {
      DiscoveredReachable(source, maxSum, grid.Keys, dist, parent, c);
      InRegion(source, maxSum, c);
    }
    RegionLeast(source, maxSum, grid.Keys);
  }

  /**
    The body of the scan for one neighbour adjCell of current: if it is
    unchecked and admissible, it is appended to the queue, recorded as
    Attainable and counted.
   */
  method Visit(source: Cell, maxSum: nat, current: Cell, adjCell: Cell, grid0: map<Cell, CellState>,
               queue0: seq<Cell>, counter0: nat, ghost dist0: map<Cell, nat>, ghost parent0: map<Cell, Cell>)
    returns (grid: map<Cell, CellState>, queue: seq<Cell>, counter: nat,
             ghost dist: map<Cell, nat>, ghost parent: map<Cell, Cell>)
    requires SearchInv(source, maxSum, grid0, queue0, dist0, parent0)
    requires counter0 == |grid0|
    requires current in grid0 && current !in queue0 && adjCell in AdjacentCells(current)
    requires ClosedBeyond(grid0.Keys, [current] + queue0, maxSum)
    ensures SearchInv(source, maxSum, grid, queue, dist, parent)
    ensures counter == |grid|
    ensures current in grid && current !in queue
    ensures ClosedBeyond(grid.Keys, [current] + queue, maxSum)
    ensures adjCell !in grid0 && Admissible(adjCell, maxSum) ==>
              grid == grid0[adjCell := Attainable] && queue == queue0 + [adjCell] && counter == counter0 + 1
    ensures !(adjCell !in grid0 && Admissible(adjCell, maxSum)) ==>
              grid == grid0 && queue == queue0 && counter == counter0
  {
    grid, queue, counter, dist, parent := grid0, queue0, counter0, dist0, parent0;
    var cellChecked := Checked(grid, adjCell);
    if !cellChecked && adjCell.SumOfDigits() <= maxSum {
      AdmitKeeps(source, maxSum, grid, queue, dist, parent, current, adjCell);
      ClosedBeyondKeeps(grid.Keys, current, queue, maxSum, adjCell);
      queue := queue + [adjCell];
      grid := grid[adjCell := Attainable];
      counter := counter + 1;
      dist := dist[adjCell := dist[current] + 1];
      parent := parent[adjCell := current];
    }
  }

  /**
    One step of the search: scans the neighbours of current, a cell just
    taken off the queue, in the order AdjacentCells gives them, and records
    and enqueues each one that is unrecorded and admissible.
   */
  method ScanNeighbours(source: Cell, maxSum: nat, current: Cell, grid0: map<Cell, CellState>,
                        queue0: seq<Cell>, counter0: nat, ghost dist0: map<Cell, nat>, ghost parent0: map<Cell, Cell>)
    returns (grid: map<Cell, CellState>, queue: seq<Cell>, counter: nat,
             ghost dist: map<Cell, nat>, ghost parent: map<Cell, Cell>)
    requires SearchInv(source, maxSum, grid0, queue0, dist0, parent0)
    requires counter0 == |grid0|
    requires current in grid0 && current !in queue0
    requires ClosedBeyond(grid0.Keys, [current] + queue0, maxSum)
    ensures SearchInv(source, maxSum, grid, queue, dist, parent)
    ensures counter == |grid|
    ensures ClosedBeyond(grid.Keys, queue, maxSum)
    ensures grid.Keys == grid0.Keys + (set n | n in AdjacentCells(current) && n !in grid0 && Admissible(n, maxSum))
    ensures queue == queue0 + Fresh(AdjacentCells(current), grid0.Keys, maxSum)
    ensures counter == counter0 + |Fresh(AdjacentCells(current), grid0.Keys, maxSum)|
    ensures grid.Keys == grid0.Keys ==> queue == queue0
  {
    grid, queue, counter, dist, parent := grid0, queue0, counter0, dist0, parent0;
    var adjacent := AdjacentCells(current);
    for i := 0 to |adjacent|
      invariant SearchInv(source, maxSum, grid, queue, dist, parent)
      invariant counter == |grid|
      invariant current in grid && current !in queue
      invariant ClosedBeyond(grid.Keys, [current] + queue, maxSum)
      invariant forall n :: n in grid <==> n in grid0 || (n in adjacent[..i] && Admissible(n, maxSum))
      invariant queue == queue0 + Fresh(adjacent[..i], grid0.Keys, maxSum)
      invariant counter == counter0 + |Fresh(adjacent[..i], grid0.Keys, maxSum)|
    {
      ghost var grid1, queue1, counter1 := grid, queue, counter;
      grid, queue, counter, dist, parent := Visit(source, maxSum, current, adjacent[i], grid, queue, counter, dist, parent);
      TrackNext(current, i, maxSum, grid0, queue0, counter0, grid1, queue1, counter1, grid, queue, counter);
    }
    assert adjacent[..|adjacent|] == adjacent;
    ScannedAll(current, grid0.Keys, grid.Keys, maxSum);
    ScanDone(current, grid.Keys, queue, maxSum);
  }

  /**
    The breadth-first count. Returns the counter and the final visitation
    record: the record holds exactly the cells reachable from the source,
    all of them Attainable, and the counter is their number.
   */
  method CountReachable(source: Cell, maxSum: nat) returns (counter: nat, grid: map<Cell, CellState>)
    ensures counter == |grid| && counter >= 1
    ensures source in grid
    ensures forall c :: c in grid ==> grid[c] == Attainable
    ensures forall c :: c in grid && c != source ==> Admissible(c, maxSum)
    ensures Closed(grid.Keys, maxSum)
    ensures grid.Keys == Region(source, maxSum)
    ensures counter == |Region(source, maxSum)|
  {
    ghost var box := Box(Wall(source, maxSum));
    grid := map[source := Attainable];
    var queue := [source];
    counter := 1;
    ghost var dist: map<Cell, nat> := map[source := 0];
    ghost var parent: map<Cell, Cell> := map[];
    StartKeeps(source, maxSum);

    while |queue| > 0
      invariant SearchInv(source, maxSum, grid, queue, dist, parent)
      invariant counter == |grid|
      invariant ClosedBeyond(grid.Keys, queue, maxSum)
      decreases box - grid.Keys, |queue|
    {
      ghost var keys0, queue0 := grid.Keys, queue;
      PopKeeps(source, maxSum, grid, queue, dist, parent);
      var current := queue[0];
      queue := queue[1..];
      grid, queue, counter, dist, parent := ScanNeighbours(source, maxSum, current, grid, queue, counter, dist, parent);
      if grid.Keys != keys0 {
        Shrinks(box, keys0, grid.Keys);
      }
    }
    FinishedIsRegion(source, maxSum, grid, dist, parent);
  }

  /** The count from the origin is 1 for maxSum 0 and 3 for maxSum 1. */
  method OriginCounts() returns (withZero: nat, withOne: nat)
    ensures withZero == 1 && withOne == 3
  {
    var grid;
    withZero, grid := CountReachable(Cell(0, 0), 0);
    RegionFromOriginAtZero();
    withOne, grid := CountReachable(Cell(0, 0), 1);
    RegionFromOriginWithinOne();
  }

  lemma RegionFromOriginAtZero()
    ensures Region(Cell(0, 0), 0) == {Cell(0, 0)}
    ensures |Region(Cell(0, 0), 0)| == 1
  {
    var o := Cell(0, 0);
    var r := Region(o, 0);
    assert r <= {o} by {
      RegionAtZero(o);
      assert {o, o} == {o};
    }
    RegionHasSource(o, 0);
    SetOfOne(o, r);
  }

  lemma SetOfOne(a: Cell, s: set<Cell>)
    requires a in s && s <= {a}
    ensures s == {a} && |s| == 1
  {
  }

  /** Near the origin, the cells of digit sum at most 1 are the origin and its two neighbours. */
  lemma SmallDigitSum(c: Cell)
    requires c.x <= 2 && c.y <= 2 && Admissible(c, 1)
    ensures c in {Cell(0, 0), Cell(1, 0), Cell(0, 1)}
  {
  }

  lemma ClosedNearOrigin()
    ensures Closed({Cell(0, 0), Cell(1, 0), Cell(0, 1)}, 1)
  {
    var s := {Cell(0, 0), Cell(1, 0), Cell(0, 1)};
    forall c, n | c in s && n in AdjacentCells(c) && Admissible(n, 1) ensures n in s {
      AdjacentAreNeighbours(c);
      assert IsNeighbour(c, n);
      SmallDigitSum(n);
    }
  }

  lemma SetOfThree(a: Cell, b: Cell, c: Cell, s: set<Cell>)
    requires a in s && b in s && c in s && s <= {a, b, c}
    requires a != b && b != c && a != c
    ensures s == {a, b, c} && |s| == 3
  {
  }

  lemma RegionFromOriginWithinOne()
    ensures Region(Cell(0, 0), 1) == {Cell(0, 0), Cell(1, 0), Cell(0, 1)}
    ensures |Region(Cell(0, 0), 1)| == 3
  {
    var o := Cell(0, 0);
    var s := {Cell(0, 0), Cell(1, 0), Cell(0, 1)};
    var r := Region(Cell(0, 0), 1);
    assert r <= s by {
      ClosedNearOrigin();
      RegionLeast(o, 1, s);
    }
    assert AdmissibleWalk([o], o, 1);
    ReachableStep(o, 1, o, Cell(1, 0));
    ReachableStep(o, 1, o, Cell(0, 1));
    RegionHasSource(o, 1);
    InRegion(o, 1, Cell(1, 0));
    InRegion(o, 1, Cell(0, 1));
    SetOfThree(Cell(0, 0), Cell(1, 0), Cell(0, 1), r);
  }
}
