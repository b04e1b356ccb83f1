/** The range-table interpolator: pick the distance bracket, locate the
    grid cell that encloses (distance, relative elevation) in that
    bracket's table and blend its four corner values bilinearly. */
module RangeTable {
  import opened Wrappers
  import opened Ammo

  /** A range table: rows are distance samples, columns relative-elevation
      samples. */
  type Table = seq<seq<real>>

  /** Conversion of a number to an integer by truncation toward zero. */
  function Trunc(x: real): (n: int)
    ensures 0.0 <= x ==> n as real <= x < n as real + 1.0
    ensures x < 0.0 ==> n as real - 1.0 < x <= n as real
  {
    if 0.0 <= x then x.Floor else -((-x).Floor)
  }

  predicate ElevationInRange(relElevation: real) {
    TableElevationMin <= relElevation <= TableElevationMax
  }

  /** The bracket whose half-open interval holds `distance`, tried in the
      order NEAR, MEDIUM, FAR. */
  function SelectBracket(distance: real): (r: Option<AmmoClass>)
    ensures forall b: AmmoClass :: r == Some(b) <==> b.InBracket(distance)
    ensures r.None? <==> !(NearMin <= distance < FarMax)
  {
    if NearMin <= distance < NearMax then Some(Near)
    else if MediumMin <= distance < MediumMax then Some(Medium)
    else if FarMin <= distance < FarMax then Some(Far)
    else None
  }

  /** The table of bracket `b`: the tables are passed in declared order. */
  function TableFor(b: AmmoClass, tableNear: Table, tableMedium: Table, tableFar: Table): (t: Table)
    ensures t == [tableNear, tableMedium, tableFar][b.Rank()]
  {
    match b
    case Near => tableNear
    case Medium => tableMedium
    case Far => tableFar
  }

  /** Row of the cell that holds `distance` in bracket `b`'s table. */
  function Row(distance: real, b: AmmoClass): (row: int)
    ensures b.Min() <= distance ==>
      0 <= row && b.Min() + row as real * TableDistanceStep <= distance < b.Min() + (row + 1) as real * TableDistanceStep
  {
    Trunc((distance - b.Min()) / TableDistanceStep)
  }

  /** Column of the cell that holds `relElevation`. */
  function Col(relElevation: real): (col: int)
    ensures TableElevationMin <= relElevation ==>
      0 <= col && TableElevationMin + col as real * TableElevationStep <= relElevation
               && relElevation < TableElevationMin + (col + 1) as real * TableElevationStep
  {
    Trunc((relElevation - TableElevationMin) / TableElevationStep)
  }

  /** Fractional position of `distance` inside its cell, along the distance axis. */
  function Alpha(distance: real, b: AmmoClass): (alpha: real)
    requires b.Min() <= distance
    ensures 0.0 <= alpha < 1.0
    ensures alpha * TableDistanceStep == distance - b.Min() - Row(distance, b) as real * TableDistanceStep
  {
    (distance - (b.Min() + Row(distance, b) as real * TableDistanceStep)) / TableDistanceStep
  }

  /** Fractional position of `relElevation` inside its cell, along the elevation axis. */
  function Beta(relElevation: real): (beta: real)
    requires TableElevationMin <= relElevation
    ensures 0.0 <= beta < 1.0
    ensures beta * TableElevationStep == relElevation - TableElevationMin - Col(relElevation) as real * TableElevationStep
  {
    (relElevation - (TableElevationMin + Col(relElevation) as real * TableElevationStep)) / TableElevationStep
  }

  /** Cell (row, col) and its neighbours (row + 1, col + 1) exist in `t`. */
  predicate CellInBounds(t: Table, row: int, col: int) {
    0 <= row && 0 <= col && row + 1 < |t| && col + 1 < |t[row]| && col + 1 < |t[row + 1]|
  }

  /** The four corner values of a cell: "top" is the lower distance row,
      "left" the lower elevation column. */
  datatype Cell = Cell(leftTop: real, leftBottom: real, rightTop: real, rightBottom: real) {

    function Min(): (m: real)
      ensures m <= leftTop && m <= leftBottom && m <= rightTop && m <= rightBottom
      ensures m == leftTop || m == leftBottom || m == rightTop || m == rightBottom
    {
      var a := if leftTop <= leftBottom then leftTop else leftBottom;
      var c := if rightTop <= rightBottom then rightTop else rightBottom;
      if a <= c then a else c
    }

    function Max(): (m: real)
      ensures leftTop <= m && leftBottom <= m && rightTop <= m && rightBottom <= m
      ensures m == leftTop || m == leftBottom || m == rightTop || m == rightBottom
    {
      var a := if leftTop <= leftBottom then leftBottom else leftTop;
      var c := if rightTop <= rightBottom then rightBottom else rightTop;
      if a <= c then c else a
    }
  }

  /** The cell whose blend at its corners reproduces the four table
      entries: `alpha` moves down the rows, `beta` across the columns. */
  function CellAt(t: Table, row: int, col: int): (c: Cell)
    requires CellInBounds(t, row, col)
    ensures Bilinear(c, 0.0, 0.0) == t[row][col] && Bilinear(c, 1.0, 0.0) == t[row + 1][col]
    ensures Bilinear(c, 0.0, 1.0) == t[row][col + 1] && Bilinear(c, 1.0, 1.0) == t[row + 1][col + 1]
  {
    Cell(t[row][col], t[row + 1][col], t[row][col + 1], t[row + 1][col + 1])
  }

  /** Linear blend of `x` (weight 1 - t) and `y` (weight t). */
  function Lerp(x: real, y: real, t: real): (v: real)
    ensures v == x + t * (y - x)
    ensures t == 0.0 ==> v == x
    ensures t == 1.0 ==> v == y
  {
    (1.0 - t) * x + t * y
  }

  /** Blend along the distance axis with `alpha`, then along the
      elevation axis with `beta`: each corner is weighted by the product of
      its two one-axis weights. */
  function Bilinear(c: Cell, alpha: real, beta: real): (v: real)
    ensures v == (1.0 - alpha) * (1.0 - beta) * c.leftTop + alpha * (1.0 - beta) * c.leftBottom
               + (1.0 - alpha) * beta * c.rightTop + alpha * beta * c.rightBottom
  {
    var left := Lerp(c.leftTop, c.leftBottom, alpha);
    var right := Lerp(c.rightTop, c.rightBottom, alpha);
    Lerp(left, right, beta)
  }

  /** A linear blend with a weight in [0, 1] lies between its two ends. */
  lemma LerpBetween(x: real, y: real, t: real)
    requires 0.0 <= t <= 1.0
    ensures x <= y ==> x <= Lerp(x, y, t) <= y
    ensures y <= x ==> y <= Lerp(x, y, t) <= x
  {
    var d := y - x;
    assert Lerp(x, y, t) == x + t * d;
    assert Lerp(x, y, t) == y - (1.0 - t) * d;
    ScaleSign(t, d);
    ScaleSign(1.0 - t, d);
  }

  /** A non-negative weight keeps the sign of what it scales. */
  lemma ScaleSign(w: real, d: real)
    requires 0.0 <= w
    ensures 0.0 <= d ==> 0.0 <= w * d
    ensures d <= 0.0 ==> w * d <= 0.0
  {
  }

  /** For weights in [0, 1] the four corner weights of `Bilinear` are
      non-negative and sum to one: the blend is a convex combination. */
  lemma BilinearWeights(alpha: real, beta: real)
    requires 0.0 <= alpha <= 1.0 && 0.0 <= beta <= 1.0
    ensures 0.0 <= (1.0 - alpha) * (1.0 - beta) && 0.0 <= alpha * (1.0 - beta)
    ensures 0.0 <= (1.0 - alpha) * beta && 0.0 <= alpha * beta
    ensures (1.0 - alpha) * (1.0 - beta) + alpha * (1.0 - beta) + (1.0 - alpha) * beta + alpha * beta == 1.0
  {
    ScaleSign(1.0 - alpha, 1.0 - beta);
    ScaleSign(alpha, 1.0 - beta);
    ScaleSign(1.0 - alpha, beta);
    ScaleSign(alpha, beta);
  }

  /** The bilinear blend lies between the smallest and the largest of the
      four corners. */
  lemma BilinearBounded(c: Cell, alpha: real, beta: real)
    requires 0.0 <= alpha <= 1.0 && 0.0 <= beta <= 1.0
    ensures c.Min() <= Bilinear(c, alpha, beta) <= c.Max()
  {
    var left := Lerp(c.leftTop, c.leftBottom, alpha);
    var right := Lerp(c.rightTop, c.rightBottom, alpha);
    LerpBetween(c.leftTop, c.leftBottom, alpha);
    LerpBetween(c.rightTop, c.rightBottom, alpha);
    LerpBetween(left, right, beta);
  }

  /** What a caller must supply for a query: when the query reaches the
      table lookup, the selected table holds the enclosing cell. */
  predicate Readable(distance: real, relElevation: real, tableNear: Table, tableMedium: Table, tableFar: Table) {
    ElevationInRange(relElevation) ==>
      match SelectBracket(distance)
      case None => true
      case Some(b) => CellInBounds(TableFor(b, tableNear, tableMedium, tableFar), Row(distance, b), Col(relElevation))
  }

  /** Outcome of a table query. */
  datatype Elevation = ElevationOutOfRange | DistanceOutOfRange | Interpolated(value: real, ammo: AmmoClass) {

    /** The (elevation, label) pair the calculator returns. The two
        failure labels differ from each other and from every class label. */
    function ToTuple(): (t: (real, string))
      ensures t.1 == "None" <==> ElevationOutOfRange?
      ensures t.1 == "NONE" <==> DistanceOutOfRange?
      ensures !Interpolated? ==> t.0 == 0.0
      ensures Interpolated? ==> t == (value, ammo.Label())
    {
      match this
      case ElevationOutOfRange => (0.0, "None")
      case DistanceOutOfRange => (0.0, "NONE")
      case Interpolated(v, b) => (v, b.Label())
    }
  }

  /** Elevation for (distance, relElevation) interpolated from the range
      table of the bracket that contains the distance. */
  function CalculateElevation(distance: real, relElevation: real, tableNear: Table, tableMedium: Table, tableFar: Table): (r: Elevation)
    requires Readable(distance, relElevation, tableNear, tableMedium, tableFar)
    ensures r.ElevationOutOfRange? <==> !ElevationInRange(relElevation)
    ensures r.DistanceOutOfRange? <==> ElevationInRange(relElevation) && !(NearMin <= distance < FarMax)
    ensures r.Interpolated? ==> r.ammo.InBracket(distance)
    ensures r.Interpolated? ==>
      var t := TableFor(r.ammo, tableNear, tableMedium, tableFar);
      CellInBounds(t, Row(distance, r.ammo), Col(relElevation)) &&
      var cell := CellAt(t, Row(distance, r.ammo), Col(relElevation));
      r.value == Bilinear(cell, Alpha(distance, r.ammo), Beta(relElevation)) &&
      cell.Min() <= r.value <= cell.Max()
  {
    if relElevation > TableElevationMax || relElevation < TableElevationMin then
      ElevationOutOfRange
    else
      match SelectBracket(distance)
      case None => DistanceOutOfRange
      case Some(b) =>
        var table := TableFor(b, tableNear, tableMedium, tableFar);
        var cell := CellAt(table, Row(distance, b), Col(relElevation));
        var alpha := Alpha(distance, b);
        var beta := Beta(relElevation);
        BilinearBounded(cell, alpha, beta);
        Interpolated(Bilinear(cell, alpha, beta), b)
  }

  /** In the lookup branches `int()` truncation agrees with floor: the
      quotients are never negative. */
  lemma RowColAreFloors(distance: real, relElevation: real, b: AmmoClass)
    requires b.InBracket(distance) && ElevationInRange(relElevation)
    ensures Row(distance, b) == ((distance - b.Min()) / TableDistanceStep).Floor >= 0
    ensures Col(relElevation) == ((relElevation - TableElevationMin) / TableElevationStep).Floor >= 0
  {
  }

  /** At a grid point the interpolation returns the tabulated entry exactly. */
  lemma GridAligned(distance: real, relElevation: real, tableNear: Table, tableMedium: Table, tableFar: Table,
                    b: AmmoClass, k: nat, m: nat)
    requires b.InBracket(distance) && ElevationInRange(relElevation)
    requires distance - b.Min() == k as real * TableDistanceStep
    requires relElevation - TableElevationMin == m as real * TableElevationStep
    requires Readable(distance, relElevation, tableNear, tableMedium, tableFar)
    ensures var t := TableFor(b, tableNear, tableMedium, tableFar);
      k < |t| && m < |t[k]| &&
      CalculateElevation(distance, relElevation, tableNear, tableMedium, tableFar) == Interpolated(t[k][m], b)
  {
  }

  /** Within one table, neighbouring cells agree on their shared edge: the
      value at the far distance edge of a cell (alpha = 1) is the value at
      the near edge of the next cell (alpha = 0), and likewise across
      columns, so the surface interpolated from one table has no jump at
      cell boundaries. Across a bracket switch it may jump: see
      `BracketSwitch`. */
  lemma CellEdgesAgree(t: Table, row: int, col: int, alpha: real, beta: real)
    requires CellInBounds(t, row, col)
    ensures CellInBounds(t, row + 1, col) ==>
      Bilinear(CellAt(t, row, col), 1.0, beta) == Bilinear(CellAt(t, row + 1, col), 0.0, beta)
    ensures CellInBounds(t, row, col + 1) ==>
      Bilinear(CellAt(t, row, col), alpha, 1.0) == Bilinear(CellAt(t, row, col + 1), alpha, 0.0)
  {
  }

  /** Rows a table needs to serve its whole bracket: one per 50 m step of
      the bracket, plus one, since the last cell (row RowCount - 2) also
      reads the row after it. */
  function RowCount(b: AmmoClass): (n: nat)
    ensures (n - 1) as real * TableDistanceStep == b.Max() - b.Min()
  {
    match b
    case Near => 10
    case Medium => 31
    case Far => 42
  }

  /** Columns every row needs: at relative elevation 200 the cell column is
      80 and the lookup reads column 81. */
  const ColumnCount: nat := 82

  predicate Covers(t: Table, b: AmmoClass) {
    |t| >= RowCount(b) && forall i :: 0 <= i < RowCount(b) ==> |t[i]| >= ColumnCount
  }

  /** Every in-bracket distance lands in a cell whose lower-distance row is
      at most RowCount - 2; every in-range elevation in a cell whose
      column is at most ColumnCount - 2. */
  lemma CellIndexBounds(distance: real, relElevation: real, b: AmmoClass)
    requires b.InBracket(distance) && ElevationInRange(relElevation)
    ensures 0 <= Row(distance, b) <= RowCount(b) - 2
    ensures 0 <= Col(relElevation) <= ColumnCount - 2
  {
  }

  /** Tables that cover their brackets make every query readable. */
  lemma CoveringTablesSuffice(tableNear: Table, tableMedium: Table, tableFar: Table)
    requires Covers(tableNear, Near) && Covers(tableMedium, Medium) && Covers(tableFar, Far)
    ensures forall distance, relElevation :: Readable(distance, relElevation, tableNear, tableMedium, tableFar)
  {
  }

  /** Conversely, tables that serve every query must cover their brackets:
      the sizes in `Covers` are the least that work. */
  lemma CoveringTablesNeeded(tableNear: Table, tableMedium: Table, tableFar: Table, b: AmmoClass)
    requires forall distance, relElevation :: Readable(distance, relElevation, tableNear, tableMedium, tableFar)
    ensures Covers(TableFor(b, tableNear, tableMedium, tableFar), b)
  {
    var t := TableFor(b, tableNear, tableMedium, tableFar);
    GridPointCell(b, RowCount(b) - 2, tableNear, tableMedium, tableFar);
    forall i | 0 <= i < RowCount(b)
      ensures |t[i]| >= ColumnCount
    {
      GridPointCell(b, if i < RowCount(b) - 1 then i else i - 1, tableNear, tableMedium, tableFar);
    }
  }

  /** The query at grid row `row` of bracket `b` and relative elevation
      200 reads cell (row, ColumnCount - 2). */
  lemma GridPointCell(b: AmmoClass, row: int, tableNear: Table, tableMedium: Table, tableFar: Table)
    requires 0 <= row <= RowCount(b) - 2
    requires forall distance, relElevation :: Readable(distance, relElevation, tableNear, tableMedium, tableFar)
    ensures Row(b.Min() + row as real * TableDistanceStep, b) == row && Col(TableElevationMax) == ColumnCount - 2
    ensures CellInBounds(TableFor(b, tableNear, tableMedium, tableFar), row, ColumnCount - 2)
  {
    var distance := b.Min() + row as real * TableDistanceStep;
    assert Readable(distance, TableElevationMax, tableNear, tableMedium, tableFar);
    assert (distance - b.Min()) / TableDistanceStep == row as real;
    assert Row(distance, b) == row;
    assert Col(TableElevationMax) == ColumnCount - 2;
  }

  /** At the upper end of the NEAR and MEDIUM brackets the lookup switches
      table. Along a grid column, distances in the bracket's last 50 m
      blend its last two rows, tending to the last row as the distance
      approaches the bracket's end; at the end itself the next bracket's
      first row is returned. The result is continuous there only when the
      two rows agree. */
  lemma BracketSwitch(tableNear: Table, tableMedium: Table, tableFar: Table,
                      b: AmmoClass, distance: real, m: nat)
    requires Covers(tableNear, Near) && Covers(tableMedium, Medium) && Covers(tableFar, Far)
    requires b != Far && m <= ColumnCount - 2
    requires b.Max() - TableDistanceStep <= distance < b.Max()
    ensures var relElevation := TableElevationMin + m as real * TableElevationStep;
      var t := TableFor(b, tableNear, tableMedium, tableFar);
      var next := if b == Near then Medium else Far;
      var tNext := TableFor(next, tableNear, tableMedium, tableFar);
      CalculateElevation(distance, relElevation, tableNear, tableMedium, tableFar)
        == Interpolated(Lerp(t[RowCount(b) - 2][m], t[RowCount(b) - 1][m],
                             (distance - (b.Max() - TableDistanceStep)) / TableDistanceStep), b) &&
      CalculateElevation(b.Max(), relElevation, tableNear, tableMedium, tableFar)
        == Interpolated(tNext[0][m], next)
  {
    var relElevation := TableElevationMin + m as real * TableElevationStep;
    CoveringTablesSuffice(tableNear, tableMedium, tableFar);
    assert Row(distance, b) == RowCount(b) - 2;
    assert Col(relElevation) == m && Beta(relElevation) == 0.0;
    assert Alpha(distance, b) == (distance - (b.Max() - TableDistanceStep)) / TableDistanceStep;
    GridAligned(b.Max(), relElevation, tableNear, tableMedium, tableFar, if b == Near then Medium else Far, 0, m);
  }
}
