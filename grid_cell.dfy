/**
  Cells of the travelling ant's grid: a cell is a pair of non-negative
  coordinates, it has a decimal digit sum, and it has up to four orthogonal
  neighbours with non-negative coordinates.
 */
module AntGrid {

  /** Sum of a sequence of naturals, added from the front as an iterator would. */
  function Sum(s: seq<nat>): (total: nat)
  {
    if s == [] then 0 else Sum(s[..|s| - 1]) + s[|s| - 1]
  }

  lemma {:induction false} SumAppend(s: seq<nat>, d: nat)
    ensures Sum(s + [d]) == Sum(s) + d
  {
  }

  /** Value of a most-significant-first sequence of decimal digits. */
  function FromDigits(ds: seq<nat>): (n: nat)
  {
    if ds == [] then 0 else FromDigits(ds[..|ds| - 1]) * 10 + ds[|ds| - 1]
  }

  /** A well-formed decimal numeral: at least one digit, each below ten, and no leading zero. */
  ghost predicate IsNumeral(ds: seq<nat>)
  {
    && |ds| >= 1
    && (forall i :: 0 <= i < |ds| ==> ds[i] < 10)
    && (|ds| > 1 ==> ds[0] != 0)
  }

  /** The digits of n as its decimal text shows them, most significant first; 0 is "0". */
  function Digits(n: nat): (ds: seq<nat>)
    ensures IsNumeral(ds)
    ensures |ds| == 1 <==> n < 10
    decreases n
  {
    if n < 10 then [n] else Digits(n / 10) + [n % 10]
  }

  /** The numeral of n denotes n. */
  lemma {:induction false} DigitsDenote(n: nat)
    ensures FromDigits(Digits(n)) == n
    decreases n
  {
    if n >= 10 {
      var front := Digits(n / 10);
      assert (front + [n % 10])[..|front|] == front;
      DigitsDenote(n / 10);
    }
  }

  lemma {:induction false} FromDigitsZero(ds: seq<nat>)
    requires FromDigits(ds) == 0
    ensures forall i :: 0 <= i < |ds| ==> ds[i] == 0
    decreases |ds|
  {
    if ds != [] {
      var front := ds[..|ds| - 1];
      FromDigitsZero(front);
      forall i | 0 <= i < |ds| ensures ds[i] == 0 {
        if i < |ds| - 1 { assert ds[i] == front[i]; }
      }
    }
  }

  /** Digits(n) is the only well-formed numeral of n. */
  lemma {:induction false} DigitsUnique(ds: seq<nat>, n: nat)
    requires IsNumeral(ds) && FromDigits(ds) == n
    ensures ds == Digits(n)
    decreases |ds|
  {
    var front, d := ds[..|ds| - 1], ds[|ds| - 1];
    assert n == FromDigits(front) * 10 + d;
    if |front| == 0 {
      assert ds == [d];
    } else {
      assert front[0] == ds[0];
      if FromDigits(front) == 0 {
        FromDigitsZero(front);
        assert false;
      }
      assert n / 10 == FromDigits(front) && n % 10 == d;
      assert IsNumeral(front) by {
        forall i | 0 <= i < |front| ensures front[i] < 10 { assert front[i] == ds[i]; }
      }
      DigitsUnique(front, n / 10);
      assert ds == front + [d];
    }
  }

  /** Arithmetic digit sum: the last digit plus the digit sum of the rest. */
  function DigitSum(n: nat): (sum: nat)
    decreases n
  {
    if n < 10 then n else n % 10 + DigitSum(n / 10)
  }

  /** Adding up the numeral's digits gives the arithmetic digit sum. */
  lemma {:induction false} SumOfDigitsIsDigitSum(n: nat)
    ensures Sum(Digits(n)) == DigitSum(n)
    decreases n
  {
    if n >= 10 {
      SumAppend(Digits(n / 10), n % 10);
      SumOfDigitsIsDigitSum(n / 10);
    }
  }

  /** Only zero has digit sum zero. */
  lemma {:induction false} DigitSumZero(n: nat)
    ensures DigitSum(n) == 0 <==> n == 0
    decreases n
  {
    if n >= 10 {
      DigitSumZero(n / 10);
    }
  }

  /** A cell of the grid: two non-negative coordinates, compared by value. */
  datatype Cell = Cell(x: nat, y: nat)
  {
    /** Sum of the decimal digits of x, read off its decimal text. */
    function SumOfDigitsX(): (s: nat)
      ensures s == DigitSum(x)
    {
      SumOfDigitsIsDigitSum(x);
      Sum(Digits(x))
    }

    /** Sum of the decimal digits of y, read off its decimal text. */
    function SumOfDigitsY(): (s: nat)
      ensures s == DigitSum(y)
    {
      SumOfDigitsIsDigitSum(y);
      Sum(Digits(y))
    }

    /** Digit sum of the whole cell: the two coordinates' digit sums added. */
    function SumOfDigits(): (s: nat)
      ensures s == DigitSum(x) + DigitSum(y)
      ensures s == 0 <==> x == 0 && y == 0
    {
      DigitSumZero(x);
      DigitSumZero(y);
      SumOfDigitsX() + SumOfDigitsY()
    }
  }

  lemma SumOfDigitsExample()
    ensures Cell(25, 2010184).SumOfDigits() == 23
  {
    assert DigitSum(25) == 7;
    assert DigitSum(20) == 2;
    assert DigitSum(201) == 3;
    assert DigitSum(2010) == 3;
    assert DigitSum(20101) == 4;
    assert DigitSum(201018) == 12;
    assert DigitSum(2010184) == 16;
  }

  /**
    Status a cell can have in the visitation record. Absence from the record
    reads as Unknown.
   */
  datatype CellState = Attainable | NotAttainable | Unknown

  /** a and b differ by exactly one in exactly one coordinate. */
  predicate IsNeighbour(a: Cell, b: Cell)
  {
    || (a.y == b.y && (a.x + 1 == b.x || b.x + 1 == a.x))
    || (a.x == b.x && (a.y + 1 == b.y || b.y + 1 == a.y))
  }

  /**
    The orthogonal neighbours of c that have non-negative coordinates, in the
    order right, up, left (when x > 0), down (when y > 0).
   */
  function AdjacentCells(c: Cell): (r: seq<Cell>)
    ensures |r| == 2 + (if c.x > 0 then 1 else 0) + (if c.y > 0 then 1 else 0)
    ensures c !in r
    ensures r[0] == Cell(c.x + 1, c.y) && r[1] == Cell(c.x, c.y + 1)
    ensures c.x > 0 ==> r[2] == Cell(c.x - 1, c.y)
    ensures c.y > 0 ==> r[|r| - 1] == Cell(c.x, c.y - 1)
  {
    var rightUp := [Cell(c.x + 1, c.y), Cell(c.x, c.y + 1)];
    var withLeft := if c.x > 0 then rightUp + [Cell(c.x - 1, c.y)] else rightUp;
    if c.y > 0 then withLeft + [Cell(c.x, c.y - 1)] else withLeft
  }

  /** The adjacent cells are exactly the neighbours, and none is listed twice. */
  lemma AdjacentAreNeighbours(c: Cell)
    ensures forall n :: n in AdjacentCells(c) <==> IsNeighbour(c, n)
    ensures forall i, j :: 0 <= i < j < |AdjacentCells(c)| ==> AdjacentCells(c)[i] != AdjacentCells(c)[j]
  {
  }

  /** Adjacency is symmetric. */
  lemma AdjacentSymmetric(a: Cell, b: Cell)
    ensures b in AdjacentCells(a) <==> a in AdjacentCells(b)
  {
  }

  lemma AdjacentOfOrigin()
    ensures AdjacentCells(Cell(0, 0)) == [Cell(1, 0), Cell(0, 1)]
  {
  }

  lemma AdjacentExceptBottom()
    ensures |AdjacentCells(Cell(1027, 0))| == 3
    ensures Cell(1026, 0) in AdjacentCells(Cell(1027, 0))
    ensures Cell(1028, 0) in AdjacentCells(Cell(1027, 0))
    ensures Cell(1027, 1) in AdjacentCells(Cell(1027, 0))
  {
  }
}
