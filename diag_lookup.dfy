/** src/diag_lookup.rs (and the identical `DiagLookup` of src/overlay.rs): the tables that
    translate a board cell into its addresses in the two diagonal layouts. */
module DiagLookup {
  import opened Wrappers
  import opened Util

  /** `DiagLookup`: `main[r][c]` addresses cell (r, c) in the forward-diagonal layout,
      `rot[r][c]` in the layout of the board turned a quarter turn. */
  datatype Tables = Tables(main: seq<seq<Coord>>, rot: seq<seq<Coord>>)

  // ---------------------------------------------------------------------------
  // Reference definition of the tables

  /** Number of cells with row + col == d on a size-square board. */
  function DiagLen(size: nat, d: nat): nat
  {
    if d < size then d + 1 else if d < 2 * size - 1 then 2 * size - 1 - d else 0
  }

  /** Number of cells on the diagonals 0 .. d-1. */
  function CellsBefore(size: nat, d: nat): nat
  {
    if d == 0 then 0 else CellsBefore(size, d - 1) + DiagLen(size, d - 1)
  }

  /** Position of cell (r, c) along its diagonal, counted from the lower-left end. */
  function DiagPos(size: nat, r: nat, c: nat): nat
    requires r < size
  {
    if r + c < size then c else size - 1 - r
  }

  /** Entry of the `main` table: the diagonal is r + c, the position is DiagPos;
      cells off the board keep the initial `Coord(0, 0)`. */
  function MainEntry(size: nat, r: nat, c: nat): Coord
  {
    if r < size && c < size then Coord(r + c, DiagPos(size, r, c)) else Coord(0, 0)
  }

  /** Entry of the `rot` table: `rot` at the quarter-turned key holds `main` at the key. */
  function RotEntry(size: nat, r: nat, c: nat): Coord
  {
    if r < size && c < size then MainEntry(size, size - 1 - c, r) else Coord(0, 0)
  }

  /** The two BOARD_SIZE x BOARD_SIZE tables for a board of `size`. */
  function Table(size: nat): (t: Tables)
    ensures |t.main| == BOARD_SIZE && |t.rot| == BOARD_SIZE
    ensures forall r :: 0 <= r < BOARD_SIZE ==> |t.main[r]| == BOARD_SIZE && |t.rot[r]| == BOARD_SIZE
    ensures forall r, c :: 0 <= r < BOARD_SIZE && 0 <= c < BOARD_SIZE ==>
              t.main[r][c] == MainEntry(size, r, c) && t.rot[r][c] == RotEntry(size, r, c)
  {
    Tables(seq(BOARD_SIZE, r requires 0 <= r => seq(BOARD_SIZE, c requires 0 <= c => MainEntry(size, r, c))),
           seq(BOARD_SIZE, r requires 0 <= r => seq(BOARD_SIZE, c requires 0 <= c => RotEntry(size, r, c))))
  }

  // ---------------------------------------------------------------------------
  // Traversal order of DiagLookup::new

  /** The step of the traversal at which cell (r, c) is written. */
  ghost function VisitIndex(size: nat, r: nat, c: nat): nat
    requires r < size && c < size
  {
    CellsBefore(size, r + c) + DiagPos(size, r, c)
  }

  ghost predicate Visited(size: nat, r: nat, c: nat, total: nat)
  {
    r < size && c < size && VisitIndex(size, r, c) < total
  }

  lemma DiagPosBound(size: nat, r: nat, c: nat)
    requires r < size && c < size
    ensures DiagPos(size, r, c) < DiagLen(size, r + c)
  {
  }

  lemma {:induction false} CellsBeforeMonotone(size: nat, d1: nat, d2: nat)
    requires d1 <= d2
    ensures CellsBefore(size, d1) <= CellsBefore(size, d2)
    decreases d2
  {
    if d1 < d2 {
      CellsBeforeMonotone(size, d1, d2 - 1);
    }
  }

  lemma {:induction false} CellsBeforeUpper(size: nat, d: nat)
    requires d <= size
    ensures 2 * CellsBefore(size, d) == d * (d + 1)
  {
    if d > 0 {
      CellsBeforeUpper(size, d - 1);
    }
  }

  lemma {:induction false} CellsBeforeLower(size: nat, m: nat)
    requires m < size
    ensures 2 * CellsBefore(size, size + m) == size * (size + 1) + m * (2 * size - 1 - m)
  {
    if m == 0 {
      CellsBeforeUpper(size, size);
    } else {
      CellsBeforeLower(size, m - 1);
      assert CellsBefore(size, size + m) == CellsBefore(size, size + m - 1) + (size - m);
      assert m * (2 * size - 1 - m) == (m - 1) * (2 * size - 1 - (m - 1)) + 2 * (size - m);
    }
  }

  /** The diagonals of a size-square board hold size * size cells between them. */
  lemma TotalCells(size: nat)
    requires size >= 1
    ensures CellsBefore(size, 2 * size - 1) == size * size
  {
    CellsBeforeLower(size, size - 1);
    assert (size - 1) * (2 * size - 1 - (size - 1)) == (size - 1) * size;
  }

  lemma VisitIndexRange(size: nat, r: nat, c: nat)
    requires r < size && c < size
    ensures CellsBefore(size, r + c) <= VisitIndex(size, r, c) < CellsBefore(size, r + c + 1)
  {
    DiagPosBound(size, r, c);
  }

  lemma VisitIndexBound(size: nat, r: nat, c: nat)
    requires r < size && c < size
    ensures VisitIndex(size, r, c) < size * size
  {
    VisitIndexRange(size, r, c);
    CellsBeforeMonotone(size, r + c + 1, 2 * size - 1);
    TotalCells(size);
  }

  /** No two cells are visited at the same step. */
  lemma VisitIndexInjective(size: nat, r1: nat, c1: nat, r2: nat, c2: nat)
    requires r1 < size && c1 < size && r2 < size && c2 < size
    requires VisitIndex(size, r1, c1) == VisitIndex(size, r2, c2)
    ensures r1 == r2 && c1 == c2
  {
    VisitIndexRange(size, r1, c1);
    VisitIndexRange(size, r2, c2);
    if r1 + c1 < r2 + c2 {
      CellsBeforeMonotone(size, r1 + c1 + 1, r2 + c2);
    } else if r2 + c2 < r1 + c1 {
      CellsBeforeMonotone(size, r2 + c2 + 1, r1 + c1);
    }
  }

  /** The key (kr, kc) is the cell of step `total` and (vr, vc) is its diagonal address. */
  ghost predicate OnCell(size: nat, kr: nat, kc: nat, vr: nat, vc: nat, total: nat)
  {
    && kr < size && kc < size
    && VisitIndex(size, kr, kc) == total
    && vr == kr + kc
    && vc == DiagPos(size, kr, kc)
  }

  /** The reset counters of the loop give the first cell of the diagonal after kr + kc. */
  ghost predicate ResetsAhead(size: nat, kr: nat, kc: nat, krr: nat, kcr: nat)
  {
    && krr == (if kr + kc < size then kr + kc + 1 else size)
    && kcr == (if kr + kc < size then 1 else kr + kc - size + 2)
  }

  /** The cursor state of the loop in DiagLookup::new while it stands on cell (kr, kc). */
  ghost predicate Cursor(size: nat, kr: nat, kc: nat, vr: nat, vc: nat, krr: nat, kcr: nat, total: nat)
  {
    OnCell(size, kr, kc, vr, vc, total) && ResetsAhead(size, kr, kc, krr, kcr)
  }

  /** DiagLookup::new: walks the board one anti-diagonal at a time, from the top-left
      corner, writing each cell's diagonal address into `main` and, at the quarter-turned
      key, into `rot`. Size 1 would make `key_row -= 1` underflow. */
  method New(size: nat) returns (t: Tables)
    requires size <= BOARD_SIZE && size != 1
    ensures t == Table(size)
  {
    var main := new Coord[BOARD_SIZE, BOARD_SIZE]((_, _) => Coord(0, 0));
    var rot := new Coord[BOARD_SIZE, BOARD_SIZE]((_, _) => Coord(0, 0));
    var keyRowReset: nat := 1;
    var keyColReset: nat := 1;
    var keyRow: nat := 0;
    var keyCol: nat := 0;
    var valRow: nat := 0;
    var valCol: nat := 0;
    var total: nat := 0;
    var cells := size * size;
    while total < cells
      invariant total <= cells
      invariant total < cells ==> Cursor(size, keyRow, keyCol, valRow, valCol, keyRowReset, keyColReset, total)
      invariant MainWritten(main, size, total) && RotWritten(rot, size, total)
    {
      WriteCell(main, rot, size, keyRow, keyCol, valRow, valCol, total);
      keyRow, keyCol, valRow, valCol, keyRowReset, keyColReset :=
        Advance(size, keyRow, keyCol, valRow, valCol, keyRowReset, keyColReset, total);
      total := total + 1;
    }
    t := Tables(Rows(main), Rows(rot));
    RowsAreTable(size, main, rot, total);
  }

  /** The three branches that move the cursor of DiagLookup::new to the next cell. */
  method Advance(size: nat, keyRow: nat, keyCol: nat, valRow: nat, valCol: nat, keyRowReset: nat,
                 keyColReset: nat, ghost total: nat)
    returns (keyRow': nat, keyCol': nat, valRow': nat, valCol': nat, keyRowReset': nat, keyColReset': nat)
    requires size != 1 && Cursor(size, keyRow, keyCol, valRow, valCol, keyRowReset, keyColReset, total)
    ensures total + 1 < size * size ==>
      Cursor(size, keyRow', keyCol', valRow', valCol', keyRowReset', keyColReset', total + 1)
  {
    if keyRow == 0 && keyRowReset < size {
      // Reset from the top row to the left column
      AdvanceFromTopRow(size, keyCol, valRow, valCol, keyRowReset, keyColReset, total);
      keyRow', keyCol', keyRowReset' := keyRowReset, 0, keyRowReset + 1;
      valRow', valCol', keyColReset' := valRow + 1, 0, keyColReset;
    } else if keyCol == size - 1 && keyColReset < size {
      // Reset from the right column to the bottom row
      AdvanceFromRightColumn(size, keyRow, valRow, valCol, keyRowReset, keyColReset, total);
      keyRow', keyCol', keyColReset' := size - 1, keyColReset, keyColReset + 1;
      valRow', valCol', keyRowReset' := valRow + 1, 0, keyRowReset;
    } else {
      // Normal traversal up and to the right
      AdvanceAlong(size, keyRow, keyCol, valRow, valCol, keyRowReset, keyColReset, total);
      keyRow', keyCol', valCol' := keyRow - 1, keyCol + 1, valCol + 1;
      valRow', keyRowReset', keyColReset' := valRow, keyRowReset, keyColReset;
    }
  }

  /** `main` holds its final entry at every cell visited before step `total`, and the initial
      `Coord(0, 0)` elsewhere. */
  ghost predicate MainWritten(main: array2<Coord>, size: nat, total: nat)
    reads main
  {
    && main.Length0 == BOARD_SIZE && main.Length1 == BOARD_SIZE
    && forall r, c :: 0 <= r < BOARD_SIZE && 0 <= c < BOARD_SIZE ==>
         main[r, c] == (if Visited(size, r, c, total) then MainEntry(size, r, c) else Coord(0, 0))
  }

  /** `rot` holds its final entry at every cell whose quarter-turned key was visited before
      step `total`, and the initial `Coord(0, 0)` elsewhere. */
  ghost predicate RotWritten(rot: array2<Coord>, size: nat, total: nat)
    reads rot
  {
    && rot.Length0 == BOARD_SIZE && rot.Length1 == BOARD_SIZE
    && forall r, c :: 0 <= r < BOARD_SIZE && 0 <= c < BOARD_SIZE ==>
         rot[r, c] == (if r < size && c < size && Visited(size, size - 1 - c, r, total)
                       then RotEntry(size, r, c) else Coord(0, 0))
  }

  /** The two writes of one step of the traversal: `main` at the key, `rot` at the turned key. */
  method WriteCell(main: array2<Coord>, rot: array2<Coord>, size: nat, keyRow: nat, keyCol: nat,
                   valRow: nat, valCol: nat, ghost total: nat)
    requires main != rot && size <= BOARD_SIZE
    requires OnCell(size, keyRow, keyCol, valRow, valCol, total)
    requires MainWritten(main, size, total) && RotWritten(rot, size, total)
    modifies main, rot
    ensures MainWritten(main, size, total + 1) && RotWritten(rot, size, total + 1)
  {
    WriteStep(size, keyRow, keyCol, total);
    main[keyRow, keyCol] := Coord(valRow, valCol);
    var (keyRowRot, keyColRot) := RotateCw(size, keyRow, keyCol);
    rot[keyRowRot, keyColRot] := Coord(valRow, valCol);
  }

  /** The contents of a BOARD_SIZE x BOARD_SIZE array as a sequence of rows. */
  function Rows(a: array2<Coord>): (rows: seq<seq<Coord>>)
    requires a.Length0 == BOARD_SIZE && a.Length1 == BOARD_SIZE
    reads a
    ensures |rows| == BOARD_SIZE
    ensures forall r, c :: 0 <= r < BOARD_SIZE && 0 <= c < BOARD_SIZE ==> |rows[r]| == BOARD_SIZE && rows[r][c] == a[r, c]
  {
    seq(BOARD_SIZE, r requires 0 <= r < BOARD_SIZE reads a =>
      seq(BOARD_SIZE, c requires 0 <= c < BOARD_SIZE reads a => a[r, c]))
  }

  /** Once every cell is visited, the arrays hold the tables. */
  lemma RowsAreTable(size: nat, main: array2<Coord>, rot: array2<Coord>, total: nat)
    requires MainWritten(main, size, total) && RotWritten(rot, size, total)
    requires total == size * size
    ensures Tables(Rows(main), Rows(rot)) == Table(size)
  {
    AllVisited(size, total);
    var t := Table(size);
    forall r | 0 <= r < BOARD_SIZE
      ensures Rows(main)[r] == t.main[r] && Rows(rot)[r] == t.rot[r]
    {
    }
  }

  /** Writing the cursor cell at step `total` extends the visited region by exactly that cell. */
  lemma WriteStep(size: nat, kr: nat, kc: nat, total: nat)
    requires kr < size && kc < size && VisitIndex(size, kr, kc) == total
    ensures forall r: nat, c: nat :: Visited(size, r, c, total + 1) <==>
              Visited(size, r, c, total) || (r == kr && c == kc)
  {
    forall r: nat, c: nat | r < size && c < size && VisitIndex(size, r, c) == total
      ensures r == kr && c == kc
    {
      VisitIndexInjective(size, r, c, kr, kc);
    }
  }

  /** The top-row end of a diagonal is followed by the left-column start of the next. */
  lemma AdvanceFromTopRow(size: nat, kc: nat, vr: nat, vc: nat, krr: nat, kcr: nat, total: nat)
    requires Cursor(size, 0, kc, vr, vc, krr, kcr, total) && krr < size
    ensures Cursor(size, krr, 0, vr + 1, 0, krr + 1, kcr, total + 1)
  {
  }

  /** The right-column end of a diagonal is followed by the bottom-row start of the next. */
  lemma AdvanceFromRightColumn(size: nat, kr: nat, vr: nat, vc: nat, krr: nat, kcr: nat, total: nat)
    requires size >= 1 && Cursor(size, kr, size - 1, vr, vc, krr, kcr, total)
    requires !(kr == 0 && krr < size) && kcr < size
    ensures Cursor(size, size - 1, kcr, vr + 1, 0, krr, kcr + 1, total + 1)
  {
  }

  /** Inside a diagonal the walk moves up and to the right; the only cell with no successor
      is the bottom-right corner, visited last. */
  lemma AdvanceAlong(size: nat, kr: nat, kc: nat, vr: nat, vc: nat, krr: nat, kcr: nat, total: nat)
    requires size != 1 && Cursor(size, kr, kc, vr, vc, krr, kcr, total)
    requires !(kr == 0 && krr < size) && !(kc == size - 1 && kcr < size)
    ensures kr >= 1
    ensures total + 1 < size * size ==> Cursor(size, kr - 1, kc + 1, vr, vc + 1, krr, kcr, total + 1)
    ensures kc + 1 >= size ==> total + 1 == size * size
  {
    if kc + 1 < size {
      assert VisitIndex(size, kr - 1, kc + 1) == VisitIndex(size, kr, kc) + 1;
    } else {
      TotalCells(size);
    }
  }

  lemma AllVisited(size: nat, total: nat)
    requires total == size * size
    ensures forall r: nat, c: nat :: r < size && c < size ==> Visited(size, r, c, total)
  {
    forall r: nat, c: nat | r < size && c < size
      ensures Visited(size, r, c, total)
    {
      VisitIndexBound(size, r, c);
    }
  }

  // ---------------------------------------------------------------------------
  // The cache and the lookup

  /** `TABLES`: the tables for the sizes 2 through BOARD_SIZE, computed once; entry i is the
      table for size i + 2. */
  function Cache(): (cache: seq<Tables>)
    ensures |cache| == BOARD_SIZE - 1
    ensures forall i :: 0 <= i < |cache| ==> cache[i] == Table(i + 2)
  {
    [Table(2), Table(3), Table(4), Table(5), Table(6), Table(7), Table(8)]
  }

  /** `lookup`: the cell's address in the forward-diagonal layout and in the turned layout.
      A cell of the BOARD_SIZE grid outside the board reads the initial `Coord(0, 0)`. */
  function Lookup(size: nat, row: nat, col: nat): (r: (Coord, Coord))
    requires 2 <= size <= BOARD_SIZE && row < BOARD_SIZE && col < BOARD_SIZE
    ensures row < size && col < size ==>
              r.0 == Coord(row + col, DiagPos(size, row, col)) && r.1 == MainEntry(size, size - 1 - col, row)
    ensures !(row < size && col < size) ==> r == (Coord(0, 0), Coord(0, 0))
  {
    (Cache()[size - 2].main[row][col], Cache()[size - 2].rot[row][col])
  }

  // ---------------------------------------------------------------------------
  // The diagonal layouts are faithful renderings of the board

  /** The board cell stored at position j of diagonal k of the forward-diagonal layout. */
  function MainCell(size: nat, k: nat, j: nat): Option<(nat, nat)>
  {
    if k < size then
      if j <= k then Some((k - j, j)) else None
    else if k < 2 * size - 1 then
      if j <= 2 * size - 2 - k then Some((size - 1 - j, k - size + 1 + j)) else None
    else None
  }

  /** The board cell stored at position j of diagonal k of the turned layout. */
  function RotCell(size: nat, k: nat, j: nat): Option<(nat, nat)>
  {
    match MainCell(size, k, j)
    case None => None
    case Some((r, c)) => if r < size then Some(RotateCw(size, r, c)) else None
  }

  /** Every board cell has an address on one of the 2 * size - 1 diagonals, within the
      diagonal's length, in both layouts; so the addresses fit a BOARD_DIAG_SIZE layout. */
  lemma EntryBounds(size: nat, r: nat, c: nat)
    requires r < size <= BOARD_SIZE && c < size
    ensures MainEntry(size, r, c).row < 2 * size - 1 <= BOARD_DIAG_SIZE
    ensures MainEntry(size, r, c).col < DiagLen(size, MainEntry(size, r, c).row) <= size
    ensures RotEntry(size, r, c).row < 2 * size - 1
    ensures RotEntry(size, r, c).col < DiagLen(size, RotEntry(size, r, c).row)
  {
    DiagPosBound(size, r, c);
    DiagPosBound(size, size - 1 - c, r);
  }

  /** MainCell inverts the forward-diagonal address of every board cell ... */
  lemma MainCellOfEntry(size: nat, r: nat, c: nat)
    requires r < size && c < size
    ensures MainCell(size, MainEntry(size, r, c).row, MainEntry(size, r, c).col) == Some((r, c))
  {
  }

  /** ... and every address it accepts belongs to a board cell. */
  lemma EntryOfMainCell(size: nat, k: nat, j: nat)
    requires MainCell(size, k, j).Some?
    ensures MainCell(size, k, j).value.0 < size && MainCell(size, k, j).value.1 < size
    ensures MainEntry(size, MainCell(size, k, j).value.0, MainCell(size, k, j).value.1) == Coord(k, j)
  {
  }

  /** Distinct board cells get distinct addresses in both layouts. */
  lemma EntriesInjective(size: nat, r1: nat, c1: nat, r2: nat, c2: nat)
    requires r1 < size && c1 < size && r2 < size && c2 < size
    requires MainEntry(size, r1, c1) == MainEntry(size, r2, c2) || RotEntry(size, r1, c1) == RotEntry(size, r2, c2)
    ensures r1 == r2 && c1 == c2
  {
    if MainEntry(size, r1, c1) == MainEntry(size, r2, c2) {
      MainCellOfEntry(size, r1, c1);
      MainCellOfEntry(size, r2, c2);
    } else {
      MainCellOfEntry(size, size - 1 - c1, r1);
      MainCellOfEntry(size, size - 1 - c2, r2);
    }
  }

  /** RotCell inverts the turned address of every board cell ... */
  lemma RotCellOfEntry(size: nat, r: nat, c: nat)
    requires r < size && c < size
    ensures RotCell(size, RotEntry(size, r, c).row, RotEntry(size, r, c).col) == Some((r, c))
  {
    MainCellOfEntry(size, size - 1 - c, r);
  }

  /** ... and every address it accepts belongs to a board cell. */
  lemma EntryOfRotCell(size: nat, k: nat, j: nat)
    requires RotCell(size, k, j).Some?
    ensures RotCell(size, k, j).value.0 < size && RotCell(size, k, j).value.1 < size
    ensures RotEntry(size, RotCell(size, k, j).value.0, RotCell(size, k, j).value.1) == Coord(k, j)
  {
    EntryOfMainCell(size, k, j);
  }

  /** The 3 x 3 lookup tables drawn in the documentation of DiagLookup. */
  lemma DocumentedTables()
    ensures Table(3).main[0][..3] == [Coord(0, 0), Coord(1, 1), Coord(2, 2)]
    ensures Table(3).main[1][..3] == [Coord(1, 0), Coord(2, 1), Coord(3, 1)]
    ensures Table(3).main[2][..3] == [Coord(2, 0), Coord(3, 0), Coord(4, 0)]
    ensures Table(3).rot[0][..3] == [Coord(2, 0), Coord(1, 0), Coord(0, 0)]
    ensures Table(3).rot[1][..3] == [Coord(3, 0), Coord(2, 1), Coord(1, 1)]
    ensures Table(3).rot[2][..3] == [Coord(4, 0), Coord(3, 1), Coord(2, 2)]
  {
  }
}
