/**
 * A square matrix of bits: n rows of n cells, all clear when created, read
 * and written one cell at a time, listed row by row (the set columns of a
 * row) and rendered as text, "1 " or "0 " per cell and a line break after
 * each row.
 */
module BitMatrices {
  import opened Base

  /** The line break the rendering puts after each row (the platform's own in the library). */
  const NewLine: string := "\n"

  /** The rendering of one cell. */
  function Cell(b: bool): string
  {
    if b then "1 " else "0 "
  }

  /** A row rendered cell by cell in column order, two characters per cell. */
  function RenderRow(row: seq<bool>): (r: string)
    ensures |r| == 2 * |row|
    decreases |row|
  {
    if |row| == 0 then ""
    else RenderRow(row[..|row| - 1]) + Cell(row[|row| - 1])
  }

  /** Cell j of a row is rendered at characters 2j and 2j + 1: its digit, then a space. */
  lemma {:induction false} RenderRowCells(row: seq<bool>)
    ensures forall j :: 0 <= j < |row| ==> RenderRow(row)[2 * j] == (if row[j] then '1' else '0')
    ensures forall j :: 0 <= j < |row| ==> RenderRow(row)[2 * j + 1] == ' '
    decreases |row|
  {
    if |row| > 0 {
      var k := |row| - 1;
      var init := row[..k];
      RenderRowCells(init);
      assert RenderRow(row) == RenderRow(init) + Cell(row[k]);
      forall j | 0 <= j < k
        ensures RenderRow(row)[2 * j] == RenderRow(init)[2 * j] && RenderRow(row)[2 * j + 1] == RenderRow(init)[2 * j + 1]
      {
      }
    }
  }

  /** The rows rendered one after another, each followed by the line break. */
  function Render(rows: seq<seq<bool>>): string
    decreases |rows|
  {
    if |rows| == 0 then ""
    else Render(rows[..|rows| - 1]) + RenderRow(rows[|rows| - 1]) + NewLine
  }

  /** Rows of one width w render to 2w + 1 characters each. */
  lemma {:induction false} RenderLength(rows: seq<seq<bool>>, w: nat)
    requires forall i :: 0 <= i < |rows| ==> |rows[i]| == w
    ensures |Render(rows)| == |rows| * (2 * w + 1)
    decreases |rows|
  {
    if |rows| > 0 {
      var k := |rows| - 1;
      RenderLength(rows[..k], w);
      assert |rows| * (2 * w + 1) == k * (2 * w + 1) + (2 * w + 1);
    }
  }

  /** Rendering the first rows gives a prefix of the whole rendering. */
  lemma {:induction false} RenderPrefix(rows: seq<seq<bool>>, i: nat)
    requires i <= |rows|
    ensures Render(rows[..i]) <= Render(rows)
    decreases |rows|
  {
    if i < |rows| {
      var k := |rows| - 1;
      RenderPrefix(rows[..k], i);
      assert rows[..k][..i] == rows[..i];
    } else {
      assert rows[..i] == rows;
    }
  }

  /**
   * Line i of the rendering, row i rendered and then the line break, sits
   * between the renderings of the first i and the first i + 1 rows (whose
   * lengths RenderLength gives).
   */
  lemma RenderLine(rows: seq<seq<bool>>, i: nat)
    requires i < |rows|
    ensures |Render(rows[..i])| <= |Render(rows[..i + 1])| <= |Render(rows)|
    ensures Render(rows)[|Render(rows[..i])|..|Render(rows[..i + 1])|] == RenderRow(rows[i]) + NewLine
  {
    var pre := Render(rows[..i + 1]);
    RenderPrefix(rows, i + 1);
    assert rows[..i + 1][..i] == rows[..i];
    assert pre == Render(rows[..i]) + (RenderRow(rows[i]) + NewLine);
    assert Render(rows)[..|pre|] == pre;
  }

  class BitMatrix {
    /** The cells, row by row. */
    const data: array2<bool>
    /** The dimension: the number of rows and of cells per row. */
    const dim: int

    ghost predicate Valid()
    {
      dim >= 0 && data.Length0 == dim && data.Length1 == dim
    }

    /** The cells as a sequence of rows. */
    ghost function Rows(): (rows: seq<seq<bool>>)
      reads data
      ensures |rows| == data.Length0
      ensures forall i :: 0 <= i < data.Length0 ==> |rows[i]| == data.Length1
      ensures forall i, j :: 0 <= i < data.Length0 && 0 <= j < data.Length1 ==> rows[i][j] == data[i, j]
    {
      seq(data.Length0, i requires 0 <= i < data.Length0 reads data =>
        seq(data.Length1, j requires 0 <= j < data.Length1 reads data => data[i, j]))
    }

    /** An n by n matrix with every cell clear. */
    constructor (n: nat)
      ensures Valid() && dim == n && fresh(data)
      ensures forall i, j :: 0 <= i < n && 0 <= j < n ==> !data[i, j]
    {
      data := new bool[n, n]((_, _) => false);
      dim := n;
    }

    /** new BitMatrix(n): a negative dimension is refused, otherwise an n by n matrix with every cell clear. */
    static method New(n: int) returns (r: Result<BitMatrix>)
      ensures r.Err? <==> n < 0
      ensures r.Err? ==> r.error == NegativeDimension
      ensures r.Ok? ==> fresh(r.value) && fresh(r.value.data) && r.value.Valid() && r.value.dim == n
      ensures r.Ok? ==> forall i, j :: 0 <= i < n && 0 <= j < n ==> !r.value.data[i, j]
    {
      if n < 0 {
        return Err(NegativeDimension);
      }
      var m := new BitMatrix(n);
      return Ok(m);
    }

    /** The cell at (row, col); a position outside the matrix is refused. */
    function GetValue(row: int, col: int): (r: Result<bool>)
      requires Valid()
      reads data
      ensures r.Ok? <==> 0 <= row < dim && 0 <= col < dim
      ensures r.Err? ==> r.error == InvalidIndex
      ensures r.Ok? ==> r.value == Rows()[row][col]
    {
      if 0 <= row < data.Length0 && 0 <= col < data.Length1 then Ok(data[row, col])
      else Err(InvalidIndex)
    }

    /**
     * Sets the cell at (row, col) to value: a later GetValue there returns
     * value and no other cell changes. A position outside the matrix is
     * refused and nothing changes.
     */
    method SetValue(row: int, col: int, value: bool) returns (r: Outcome)
      requires Valid()
      modifies data
      ensures r == Pass <==> 0 <= row < dim && 0 <= col < dim
      ensures r.Fail? ==> r.error == InvalidIndex
      ensures r == Pass ==> GetValue(row, col) == Ok(value)
      ensures forall i, j :: 0 <= i < dim && 0 <= j < dim && (i != row || j != col) ==> data[i, j] == old(data[i, j])
    {
      if !(0 <= row < data.Length0 && 0 <= col < data.Length1) {
        return Fail(InvalidIndex);
      }
      data[row, col] := value;
      r := Pass;
    }

    /** The columns set in row i, in ascending order; a row outside the matrix is refused. */
    method GetArray(i: int) returns (r: Result<seq<int>>)
      requires Valid()
      ensures r.Ok? <==> 0 <= i < dim
      ensures r.Err? ==> r.error == InvalidIndex
      ensures r.Ok? ==> forall j :: j in r.value <==> 0 <= j < dim && Rows()[i][j]
      ensures r.Ok? ==> forall k, l :: 0 <= k < l < |r.value| ==> r.value[k] < r.value[l]
    {
      if !(0 <= i < data.Length0) {
        return Err(InvalidIndex);
      }
      var a := [];
      for j := 0 to data.Length1
        invariant forall c :: c in a <==> 0 <= c < j && data[i, c]
        invariant forall k, l :: 0 <= k < l < |a| ==> a[k] < a[l]
        invariant forall k :: 0 <= k < |a| ==> a[k] < j
      {
        if data[i, j] {
          a := a + [j];
        }
      }
      r := Ok(a);
    }

    /** The text rendering: for each row, "1 " or "0 " per cell in column order, then the line break. */
    method ToString() returns (s: string)
      requires Valid()
      ensures s == Render(Rows())
      ensures |s| == dim * (2 * dim + 1)
    {
      ghost var rows := Rows();
      s := "";
      for i := 0 to data.Length0
        invariant s == Render(rows[..i])
      {
        var line := RowText(i);
        assert rows[..i + 1][..i] == rows[..i];
        s := s + line;
        s := s + NewLine;
      }
      assert rows[..data.Length0] == rows;
      RenderLength(rows, dim);
    }

    /** The cells of row i rendered in column order (the inner loop of ToString). */
    method RowText(i: int) returns (t: string)
      requires Valid() && 0 <= i < dim
      ensures t == RenderRow(Rows()[i])
    {
      ghost var row := Rows()[i];
      t := "";
      for j := 0 to data.Length1
        invariant t == RenderRow(row[..j])
      {
        assert row[..j + 1][..j] == row[..j];
        t := t + Cell(data[i, j]);
      }
      assert row[..data.Length1] == row;
    }
  }
}
