/** Cell matrices shared by the board and the pieces: a matrix is a sequence of
    rows, a row a sequence of integer cell tags, and the tag 0 means "empty". */
module Cells {

  type Matrix = seq<seq<int>>

  /** The tag of an empty cell. */
  const EMPTY_CELL: int := 0

  /** A row every one of whose cells is occupied (vacuously true of an empty
      row): exactly a row in which the empty tag does not occur. */
  predicate IsFull(row: seq<int>): (full: bool)
    ensures full <==> EMPTY_CELL !in row
  {
    forall i :: 0 <= i < |row| ==> row[i] != EMPTY_CELL
  }

  /** Every cell of the matrix holds 0 or 1. */
  predicate IsBinary(m: Matrix)
  {
    forall r, c :: 0 <= r < |m| && 0 <= c < |m[r]| ==> m[r][c] == 0 || m[r][c] == 1
  }

  /** Number of occupied cells of a row; it reaches the row's length exactly
      when the row is full. */
  function RowCount(row: seq<int>): (n: nat)
    ensures n <= |row|
    ensures n == |row| <==> IsFull(row)
  {
    if row == [] then 0
    else (if row[0] != EMPTY_CELL then 1 else 0) + RowCount(row[1..])
  }

  /** Number of occupied cells of a matrix. */
  function Count(m: Matrix): nat
  {
    if m == [] then 0 else RowCount(m[0]) + Count(m[1..])
  }

  lemma {:induction false} RowCountAppend(a: seq<int>, b: seq<int>)
    ensures RowCount(a + b) == RowCount(a) + RowCount(b)
  {
    if a != [] {
      assert (a + b)[0] == a[0] && (a + b)[1..] == a[1..] + b;
      RowCountAppend(a[1..], b);
    } else {
      assert a + b == b;
    }
  }

  lemma {:induction false} CountAppend(a: Matrix, b: Matrix)
    ensures Count(a + b) == Count(a) + Count(b)
  {
    if a != [] {
      assert (a + b)[0] == a[0] && (a + b)[1..] == a[1..] + b;
      CountAppend(a[1..], b);
    } else {
      assert a + b == b;
    }
  }

  /** A row of zeros has no occupied cell. */
  lemma {:induction false} RowCountZeros(row: seq<int>)
    requires forall i :: 0 <= i < |row| ==> row[i] == EMPTY_CELL
    ensures RowCount(row) == 0
  {
    if row != [] {
      RowCountZeros(row[1..]);
    }
  }

  /** Two matrices whose rows have pairwise equal counts have equal counts. */
  lemma {:induction false} CountRowwise(a: Matrix, b: Matrix)
    requires |a| == |b|
    requires forall i :: 0 <= i < |a| ==> RowCount(a[i]) == RowCount(b[i])
    ensures Count(a) == Count(b)
  {
    if a != [] {
      CountRowwise(a[1..], b[1..]);
    }
  }

  /** A matrix none of whose rows has an occupied cell has none at all. */
  lemma {:induction false} NoCellsCount(m: Matrix)
    requires forall i :: 0 <= i < |m| ==> RowCount(m[i]) == 0
    ensures Count(m) == 0
  {
    if m != [] {
      NoCellsCount(m[1..]);
    }
  }

  // ---------------------------------------------------------------------
  // Sums, used to count cells row by row and column by column

  function Sum(v: seq<nat>): nat
  {
    if v == [] then 0 else v[0] + Sum(v[1..])
  }

  /** 1 for an occupied cell, 0 for an empty one. */
  function Bits(row: seq<int>): (b: seq<nat>)
    ensures |b| == |row|
  {
    seq(|row|, i requires 0 <= i < |row| => if row[i] != EMPTY_CELL then 1 else 0)
  }

  /** The number of occupied cells in each row. */
  function RowCounts(m: Matrix): (v: seq<nat>)
    ensures |v| == |m|
  {
    seq(|m|, i requires 0 <= i < |m| => RowCount(m[i]))
  }

  /** v placed at offset x in a window of n slots, zero elsewhere. */
  function Shifted(v: seq<nat>, x: int, n: nat): (w: seq<nat>)
    ensures |w| == n
  {
    seq(n, c requires 0 <= c < n => if 0 <= c - x < |v| then v[c - x] else 0)
  }

  lemma {:induction false} RowCountIsSum(row: seq<int>)
    ensures RowCount(row) == Sum(Bits(row))
  {
    if row != [] {
      assert Bits(row)[1..] == Bits(row[1..]);
      RowCountIsSum(row[1..]);
    }
  }

  lemma {:induction false} CountIsSum(m: Matrix)
    ensures Count(m) == Sum(RowCounts(m))
  {
    if m != [] {
      assert RowCounts(m)[1..] == RowCounts(m[1..]);
      CountIsSum(m[1..]);
    }
  }

  /** A sum of pointwise sums is the sum of the sums. */
  lemma {:induction false} SumPointwise(w: seq<nat>, u: seq<nat>, v: seq<nat>)
    requires |w| == |u| == |v|
    requires forall i :: 0 <= i < |w| ==> w[i] == u[i] + v[i]
    ensures Sum(w) == Sum(u) + Sum(v)
  {
    if w != [] {
      SumPointwise(w[1..], u[1..], v[1..]);
    }
  }

  lemma {:induction false} SumZeros(v: seq<nat>)
    requires forall i :: 0 <= i < |v| ==> v[i] == 0
    ensures Sum(v) == 0
  {
    if v != [] {
      SumZeros(v[1..]);
    }
  }

  /** A single value a at slot x of a window of n slots. */
  lemma {:induction false} SumSingle(a: nat, x: int, n: nat)
    ensures Sum(Shifted([a], x, n)) == if 0 <= x < n then a else 0
    decreases n
  {
    if n > 0 {
      assert Shifted([a], x, n)[1..] == Shifted([a], x - 1, n - 1);
      SumSingle(a, x - 1, n - 1);
    }
  }

  /** Shifting v into a window keeps its sum when every non-zero entry lands
      inside the window. */
  lemma {:induction false} SumShifted(v: seq<nat>, x: int, n: nat)
    requires forall i :: 0 <= i < |v| && v[i] != 0 ==> 0 <= x + i < n
    ensures Sum(Shifted(v, x, n)) == Sum(v)
  {
    if v == [] {
      SumZeros(Shifted(v, x, n));
    } else {
      var w, head, tail := Shifted(v, x, n), Shifted([v[0]], x, n), Shifted(v[1..], x + 1, n);
      forall c | 0 <= c < n
        ensures w[c] == head[c] + tail[c]
      {
        if 0 <= c - x < |v| && c - x > 0 {
          assert v[c - x] == v[1..][c - x - 1];
        }
      }
      SumPointwise(w, head, tail);
      SumSingle(v[0], x, n);
      SumShifted(v[1..], x + 1, n);
    }
  }
}
