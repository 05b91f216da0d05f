/** The seven piece shapes and the clockwise rotation of a shape. */
module Pieces {
  import opened Cells

  /** A piece shape: a non-empty rectangular matrix with non-empty rows. */
  predicate IsShape(s: Matrix)
  {
    |s| > 0 && |s[0]| > 0 && forall i :: 0 <= i < |s| ==> |s[i]| == |s[0]|
  }

  /** The seven shapes in their initial orientation, in the order
      I, T, L, J, O and the two three-row shapes the game calls S and Z;
      each is a 0/1 rectangle with exactly four occupied cells. */
  function Tetrominos(): (shapes: seq<Matrix>)
    ensures |shapes| == 7
    ensures forall k :: 0 <= k < |shapes| ==>
      IsShape(shapes[k]) && IsBinary(shapes[k]) && Count(shapes[k]) == 4
  {
    [
      [[1, 1, 1, 1]],
      [[1, 1, 1], [0, 1, 0]],
      [[1, 1, 1], [1, 0, 0]],
      [[1, 1, 1], [0, 0, 1]],
      [[1, 1], [1, 1]],
      [[1, 1], [0, 1], [0, 1]],
      [[1, 1], [1, 0], [1, 0]]
    ]
  }

  function Reverse(v: seq<int>): (r: seq<int>)
    ensures |r| == |v|
    ensures forall i :: 0 <= i < |v| ==> r[i] == v[|v| - 1 - i]
  {
    if v == [] then [] else Reverse(v[1..]) + [v[0]]
  }

  /** Column i of a matrix, read top to bottom. */
  function Column(s: Matrix, i: nat): seq<int>
    requires forall j :: 0 <= j < |s| ==> i < |s[j]|
  {
    seq(|s|, j requires 0 <= j < |s| => s[j][i])
  }

  /** The clockwise quarter turn: row i of the result is column i of the
      shape, read bottom to top. */
  function Rotated(s: Matrix): (r: Matrix)
    requires IsShape(s)
    ensures IsShape(r)
    ensures |r| == |s[0]| && |r[0]| == |s|
    ensures forall i, j :: 0 <= i < |r| && 0 <= j < |r[i]| ==> r[i][j] == s[|s| - 1 - j][i]
  {
    seq(|s[0]|, i requires 0 <= i < |s[0]| => Reverse(Column(s, i)))
  }

  /** Rotation keeps the shape's 0/1 cells 0/1. */
  lemma RotatedBinary(s: Matrix)
    requires IsShape(s) && IsBinary(s)
    ensures IsBinary(Rotated(s))
  {
    var r := Rotated(s);
    forall i, j | 0 <= i < |r| && 0 <= j < |r[i]|
      ensures r[i][j] == 0 || r[i][j] == 1
    {
      assert r[i][j] == s[|s| - 1 - j][i];
    }
  }

  /** t is s turned by a half turn: same dimensions, cell (i, j) of t is
      cell (h-1-i, w-1-j) of s. */
  ghost predicate IsHalfTurn(t: Matrix, s: Matrix)
    requires IsShape(s)
  {
    |t| == |s| &&
    (forall i :: 0 <= i < |t| ==> |t[i]| == |s[0]|) &&
    (forall i, j :: 0 <= i < |s| && 0 <= j < |s[0]| ==> t[i][j] == s[|s| - 1 - i][|s[0]| - 1 - j])
  }

  /** Two quarter turns are the half turn. */
  lemma RotatedTwice(s: Matrix)
    requires IsShape(s)
    ensures IsShape(Rotated(Rotated(s))) && IsHalfTurn(Rotated(Rotated(s)), s)
  {
    var r1 := Rotated(s);
    var r2 := Rotated(r1);
    forall i, j | 0 <= i < |s| && 0 <= j < |s[0]|
      ensures r2[i][j] == s[|s| - 1 - i][|s[0]| - 1 - j]
    {
      assert r2[i][j] == r1[|r1| - 1 - j][i];
    }
  }

  /** A half turn of a half turn is the original. */
  lemma HalfTurnTwice(a: Matrix, b: Matrix, c: Matrix)
    requires IsShape(b) && IsShape(c)
    requires IsHalfTurn(a, b) && IsHalfTurn(b, c)
    ensures a == c
  {
    forall i | 0 <= i < |c|
      ensures a[i] == c[i]
    {
      forall j | 0 <= j < |c[i]|
        ensures a[i][j] == c[i][j]
      {
        assert a[i][j] == b[|b| - 1 - i][|b[0]| - 1 - j];
      }
    }
  }

  /** Four quarter turns give back the original shape. */
  lemma RotatedFourTimes(s: Matrix)
    requires IsShape(s)
    ensures Rotated(Rotated(Rotated(Rotated(s)))) == s
  {
    var h := Rotated(Rotated(s));
    RotatedTwice(s);
    RotatedTwice(h);
    HalfTurnTwice(Rotated(Rotated(h)), h, s);
  }

  lemma {:induction false} ReverseCount(v: seq<int>)
    ensures RowCount(Reverse(v)) == RowCount(v)
  {
    if v != [] {
      ReverseCount(v[1..]);
      RowCountAppend(Reverse(v[1..]), [v[0]]);
    }
  }

  /** rows[i] with a[i] put in front, for every i. */
  function PrependColumn(a: seq<int>, rows: Matrix): (m: Matrix)
    requires |a| == |rows|
  {
    seq(|a|, i requires 0 <= i < |a| => [a[i]] + rows[i])
  }

  lemma {:induction false} PrependColumnCount(a: seq<int>, rows: Matrix)
    requires |a| == |rows|
    ensures Count(PrependColumn(a, rows)) == RowCount(a) + Count(rows)
  {
    if a != [] {
      var m := PrependColumn(a, rows);
      assert m[1..] == PrependColumn(a[1..], rows[1..]);
      RowCountAppend([a[0]], rows[0]);
      PrependColumnCount(a[1..], rows[1..]);
    }
  }

  /** The w columns of a matrix whose rows all have width w. */
  function Columns(s: Matrix, w: nat): (m: Matrix)
    requires forall j :: 0 <= j < |s| ==> |s[j]| == w
  {
    seq(w, i requires 0 <= i < w => Column(s, i))
  }

  /** Counting cells column by column gives the same total as row by row. */
  lemma {:induction false} ColumnsCount(s: Matrix, w: nat)
    requires forall j :: 0 <= j < |s| ==> |s[j]| == w
    ensures Count(Columns(s, w)) == Count(s)
  {
    if s == [] {
      var m := Columns(s, w);
      forall i | 0 <= i < w ensures RowCount(m[i]) == 0 {
        RowCountZeros(m[i]);
      }
      NoCellsCount(m);
    } else {
      var t := s[1..];
      forall i | 0 <= i < w
        ensures Column(s, i) == [s[0][i]] + Column(t, i)
      {
      }
      assert Columns(s, w) == PrependColumn(s[0], Columns(t, w));
      PrependColumnCount(s[0], Columns(t, w));
      ColumnsCount(t, w);
    }
  }


  /** Rotation keeps the number of occupied cells. */
  lemma RotatedCount(s: Matrix)
    requires IsShape(s)
    ensures Count(Rotated(s)) == Count(s)
  {
    var w := |s[0]|;
    var cols := Columns(s, w);
    var r := Rotated(s);
    forall i | 0 <= i < w
      ensures RowCount(r[i]) == RowCount(cols[i])
    {
      assert r[i] == Reverse(Column(s, i));
      ReverseCount(Column(s, i));
    }
    CountRowwise(r, cols);
    ColumnsCount(s, w);
  }
}
