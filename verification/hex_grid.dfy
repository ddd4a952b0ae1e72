/**
 The hex grid of the mockup: a rectangular block of `width` columns by `height`
 rows laid out with odd rows shifted half a hex, each cell converted to cube
 coordinates (q, r, s) centred on the origin and keyed by the string "q,r,s".
 */
module HexGrid {
  import opened Wrappers
  import Decimal

  /** The configured grid size of the mockup. */
  const GridWidth: nat := 10
  const GridHeight: nat := 8

  datatype Layout = Layout(width: nat, height: nat) {
    /** Subtracted from q and r so that the grid is centred on the origin. */
    function QOffset(): nat { width / 2 }
    function ROffset(): nat { height / 2 }

    predicate InRange(row: int, col: int) {
      0 <= row < height && 0 <= col < width
    }
  }

  const DefaultLayout: Layout := Layout(GridWidth, GridHeight)

  /**
   One hex. Its key "q,r,s" is fixed by its coordinates when the cell is made,
   so it is given here as a member computed from them. The terrain is not
   stored in the cell but in the game state, keyed by that id.
   */
  datatype Cell = Cell(q: int, r: int, s: int) {
    /** The key reads back into exactly this cell's coordinates. */
    function Id(): (id: string)
      ensures ParseCubeId(id) == Some((q, r, s))
    {
      CubeIdRoundTrip(q, r, s);
      CubeId(q, r, s)
    }
  }

  /** The cube-coordinate constraint every hex must satisfy. */
  predicate OnCubePlane(c: Cell) {
    c.q + c.r + c.s == 0
  }

  /** The key "q,r,s", each coordinate written in decimal. */
  function CubeId(q: int, r: int, s: int): string {
    Decimal.IntToString(q) + "," + Decimal.IntToString(r) + "," + Decimal.IntToString(s)
  }

  /** Position of the first `c` in `s`, or `|s|` when there is none. */
  function IndexOf(s: string, c: char): (k: nat)
    ensures k <= |s|
    ensures k < |s| ==> s[k] == c
    ensures forall j :: 0 <= j < k ==> s[j] != c
    decreases |s|
  {
    if |s| == 0 then 0
    else if s[0] == c then 0
    else 1 + IndexOf(s[1..], c)
  }

  /** Splitting `a + [c] + b` at its first `c` gives back `a` and `b` when `a` holds no `c`. */
  lemma IndexOfJoin(a: string, c: char, b: string)
    requires c !in a
    ensures var s := a + [c] + b; IndexOf(s, c) == |a| && s[..|a|] == a && s[|a| + 1..] == b
  {
    var s := a + [c] + b;
    assert s[|a|] == c;
    assert s[..|a|] == a;
    assert s[|a| + 1..] == b;
  }

  /** Reads an id back into its three coordinates; the inverse of `CubeId`. */
  function ParseCubeId(id: string): Option<(int, int, int)> {
    var i := IndexOf(id, ',');
    if i == |id| then None
    else
      var rest := id[i + 1..];
      var j := IndexOf(rest, ',');
      if j == |rest| then None
      else
        match (Decimal.ParseInt(id[..i]), Decimal.ParseInt(rest[..j]), Decimal.ParseInt(rest[j + 1..]))
        case (Some(q), Some(r), Some(s)) => Some((q, r, s))
        case _ => None
  }

  /** Three comma-free parts joined by commas are split back and parsed part by part. */
  lemma ParseJoined(a: string, b: string, c: string)
    requires ',' !in a && ',' !in b
    requires Decimal.ParseInt(a).Some? && Decimal.ParseInt(b).Some? && Decimal.ParseInt(c).Some?
    ensures ParseCubeId(a + [','] + (b + [','] + c))
      == Some((Decimal.ParseInt(a).value, Decimal.ParseInt(b).value, Decimal.ParseInt(c).value))
  {
    var rest := b + [','] + c;
    var id := a + [','] + rest;
    IndexOfJoin(a, ',', rest);
    IndexOfJoin(b, ',', c);
    var i := IndexOf(id, ',');
    assert id[..i] == a && id[i + 1..] == rest;
    var j := IndexOf(rest, ',');
    assert rest[..j] == b && rest[j + 1..] == c;
  }

  /** Splitting an id at its two commas and parsing each part gives back (q, r, s). */
  lemma CubeIdRoundTrip(q: int, r: int, s: int)
    ensures ParseCubeId(CubeId(q, r, s)) == Some((q, r, s))
  {
    var a, b, c := Decimal.IntToString(q), Decimal.IntToString(r), Decimal.IntToString(s);
    assert CubeId(q, r, s) == a + [','] + (b + [','] + c);
    Decimal.IntToStringRoundTrip(q);
    Decimal.IntToStringRoundTrip(r);
    Decimal.IntToStringRoundTrip(s);
    ParseJoined(a, b, c);
  }

  /** Two ids are equal exactly when their coordinates are. */
  lemma CubeIdInjective(q1: int, r1: int, s1: int, q2: int, r2: int, s2: int)
    ensures CubeId(q1, r1, s1) == CubeId(q2, r2, s2) <==> (q1, r1, s1) == (q2, r2, s2)
  {
    CubeIdRoundTrip(q1, r1, s1);
    CubeIdRoundTrip(q2, r2, s2);
  }

  /**
   The cell at offset position (row, col). The mockup computes `row & 1`, which
   for a non-negative row is `row % 2`, so the halving below is exact.
   */
  function OffsetToCell(layout: Layout, row: nat, col: nat): (c: Cell)
    ensures OnCubePlane(c)
    ensures c.r == row - layout.ROffset()
    ensures CubeToOffset(layout, c.q, c.r) == (row, col)
  {
    var q := col - (row - row % 2) / 2 - layout.QOffset();
    var r := row - layout.ROffset();
    Cell(q, r, -q - r)
  }

  /** Recovers the offset position from cube coordinates (q, r). */
  function CubeToOffset(layout: Layout, q: int, r: int): (int, int) {
    var row := r + layout.ROffset();
    (row, q + row / 2 + layout.QOffset())
  }

  /** Distinct offset positions give distinct (q, r), hence distinct cells and ids. */
  lemma OffsetToCellInjective(layout: Layout, row1: nat, col1: nat, row2: nat, col2: nat)
    ensures var c1, c2 := OffsetToCell(layout, row1, col1), OffsetToCell(layout, row2, col2);
      (c1.q, c1.r) == (c2.q, c2.r) <==> (row1, col1) == (row2, col2)
    ensures OffsetToCell(layout, row1, col1).Id() == OffsetToCell(layout, row2, col2).Id() <==> (row1, col1) == (row2, col2)
  {
    var c1, c2 := OffsetToCell(layout, row1, col1), OffsetToCell(layout, row2, col2);
    CubeIdInjective(c1.q, c1.r, c1.s, c2.q, c2.r, c2.s);
  }

  /** Positions (row, c) for c in 0 .. n-1, in column order: the inner loop. */
  function RowPositions(row: nat, n: nat): (ps: seq<(nat, nat)>)
    ensures |ps| == n
    ensures forall col :: 0 <= col < n ==> ps[col] == (row, col)
  {
    if n == 0 then []
    else RowPositions(row, n - 1) + [(row, n - 1)]
  }

  /** Positions of rows 0 .. n-1, each row appended whole: the outer loop. */
  function Positions(width: nat, n: nat): (ps: seq<(nat, nat)>)
    ensures |ps| == n * width
  {
    if n == 0 then []
    else Positions(width, n - 1) + RowPositions(n - 1, width)
  }

  lemma MulMonotone(a: nat, b: nat, w: nat)
    requires a <= b
    ensures a * w <= b * w
  {
  }

  lemma RowMajorBound(row: nat, col: nat, rows: nat, w: nat)
    requires row < rows && col < w
    ensures row * w + col < rows * w
  {
    MulMonotone(row + 1, rows, w);
  }

  /** An index below `rows * w` splits into a row below `rows` and a column below `w`. */
  lemma RowMajorSplit(i: nat, rows: nat, w: nat)
    requires i < rows * w
    ensures w > 0 && i / w < rows && i == (i / w) * w + i % w
  {
  }

  /** The position of (row, col) in the enumeration is row * width + col. */
  lemma {:induction false} PositionsIndexed(width: nat, n: nat, row: nat, col: nat)
    requires row < n && col < width
    ensures row * width + col < |Positions(width, n)|
    ensures Positions(width, n)[row * width + col] == (row, col)
  {
    var prev, last := Positions(width, n - 1), RowPositions(n - 1, width);
    var k := row * width + col;
    assert Positions(width, n) == prev + last;
    if row < n - 1 {
      RowMajorBound(row, col, n - 1, width);
      PositionsIndexed(width, n - 1, row, col);
      assert (prev + last)[k] == prev[k];
    } else {
      assert k == |prev| + col;
      assert (prev + last)[k] == last[col];
    }
  }

  /** Every index of the enumeration holds its own row-major position. */
  lemma PositionAt(width: nat, n: nat, i: nat)
    requires i < |Positions(width, n)|
    ensures width > 0 && i / width < n
    ensures Positions(width, n)[i] == (i / width, i % width)
  {
    RowMajorSplit(i, n, width);
    PositionsIndexed(width, n, i / width, i % width);
  }

  /**
   The grid in the order the mockup builds it: row by row, and within a row
   column by column, each position converted to its cell.
   */
  function BuildGrid(layout: Layout): (grid: seq<Cell>)
    ensures |grid| == layout.width * layout.height
  {
    var ps := Positions(layout.width, layout.height);
    seq(|ps|, i requires 0 <= i < |ps| => OffsetToCell(layout, ps[i].0, ps[i].1))
  }

  /** The cell for (row, col) sits at index row * width + col. */
  lemma GridIndex(layout: Layout, row: nat, col: nat)
    requires layout.InRange(row, col)
    ensures row * layout.width + col < |BuildGrid(layout)|
    ensures BuildGrid(layout)[row * layout.width + col] == OffsetToCell(layout, row, col)
  {
    var ps := Positions(layout.width, layout.height);
    var k := row * layout.width + col;
    PositionsIndexed(layout.width, layout.height, row, col);
    assert ps[k].0 == row && ps[k].1 == col;
    assert BuildGrid(layout)[k] == OffsetToCell(layout, ps[k].0, ps[k].1);
  }

  /** Each stored cell is the conversion of its own row-major position. */
  lemma GridCellAt(layout: Layout, i: nat)
    requires i < |BuildGrid(layout)|
    ensures layout.width > 0
    ensures layout.InRange(i / layout.width, i % layout.width)
    ensures BuildGrid(layout)[i] == OffsetToCell(layout, i / layout.width, i % layout.width)
  {
    PositionAt(layout.width, layout.height, i);
  }

  /** Every generated cell satisfies q + r + s == 0. */
  lemma GridOnCubePlane(layout: Layout)
    ensures forall c :: c in BuildGrid(layout) ==> OnCubePlane(c)
  {
  }

  /**
   All cells of a row share r = row - ROffset, the row being index / width,
   so r stays within the row range.
   */
  lemma GridRowsShareR(layout: Layout)
    ensures forall i :: 0 <= i < |BuildGrid(layout)| ==>
      BuildGrid(layout)[i].r == i / layout.width - layout.ROffset()
    ensures forall c :: c in BuildGrid(layout) ==>
      -(layout.ROffset() as int) <= c.r <= layout.height - 1 - layout.ROffset()
  {
    var grid := BuildGrid(layout);
    forall i | 0 <= i < |grid|
      ensures grid[i].r == i / layout.width - layout.ROffset()
      ensures -(layout.ROffset() as int) <= grid[i].r <= layout.height - 1 - layout.ROffset()
    {
      GridCellAt(layout, i);
    }
  }

  /** Moving one column right within a row keeps r and increases q by exactly one. */
  lemma GridQStep(layout: Layout, row: nat, col: nat)
    requires layout.InRange(row, col + 1)
    ensures row * layout.width + col + 1 < |BuildGrid(layout)|
    ensures BuildGrid(layout)[row * layout.width + col + 1].q == BuildGrid(layout)[row * layout.width + col].q + 1
    ensures BuildGrid(layout)[row * layout.width + col + 1].r == row - layout.ROffset()
    ensures BuildGrid(layout)[row * layout.width + col].r == row - layout.ROffset()
  {
    GridIndex(layout, row, col);
    GridIndex(layout, row, col + 1);
  }

  /** Cells at different indices differ in (q, r) and in id. */
  lemma GridCellsDistinct(layout: Layout, i: nat, j: nat)
    requires i < j < |BuildGrid(layout)|
    ensures var grid := BuildGrid(layout); (grid[i].q, grid[i].r) != (grid[j].q, grid[j].r)
    ensures BuildGrid(layout)[i].Id() != BuildGrid(layout)[j].Id()
  {
    var w := layout.width;
    GridCellAt(layout, i);
    GridCellAt(layout, j);
    RowMajorSplit(i, layout.height, w);
    RowMajorSplit(j, layout.height, w);
    OffsetToCellInjective(layout, i / w, i % w, j / w, j % w);
  }

  /** The ids of the grid are pairwise distinct, so each is a key for exactly one cell. */
  lemma GridIdsDistinct(layout: Layout)
    ensures forall i, j :: 0 <= i < j < |BuildGrid(layout)| ==> BuildGrid(layout)[i].Id() != BuildGrid(layout)[j].Id()
  {
    forall i, j | 0 <= i < j < |BuildGrid(layout)|
      ensures BuildGrid(layout)[i].Id() != BuildGrid(layout)[j].Id()
    {
      GridCellsDistinct(layout, i, j);
    }
  }

  /** With the mockup's 10 x 8 grid the first cell is (-5, -4, 9). */
  lemma DefaultFirstCell()
    ensures BuildGrid(DefaultLayout)[0] == Cell(-5, -4, 9)
  {
    GridIndex(DefaultLayout, 0, 0);
  }

  /** Its key, as the template literal renders it, is "-5,-4,9". */
  lemma DefaultFirstCellId()
    ensures CubeId(-5, -4, 9) == "-5,-4,9"
  {
  }
}
