/** src/overlay.rs: the occupancy of one colour, kept four times over (rows, columns and the
    two diagonal directions) as 64-bit words in which bit p stands for position p. */
module Overlay {
  import opened Wrappers
  import opened Util
  import opened DiagLookup

  // ---------------------------------------------------------------------------
  // Runs of set bits

  /** Bits p .. p+n-1 of `w` are all set. */
  ghost predicate RunAt(w: U64, p: nat, n: nat)
  {
    forall j :: p <= j < p + n ==> j in w
  }

  /** `w` holds n consecutive set bits somewhere. */
  ghost predicate HasRun(w: U64, n: nat)
  {
    exists p :: RunAt(w, p, n)
  }

  lemma RunMember(w: U64, p: nat, n: nat, j: nat)
    requires RunAt(w, p, n) && p <= j < p + n
    ensures j in w
  {
  }

  lemma HasRunMonotone(w: U64, n: nat, m: nat)
    requires m <= n && HasRun(w, n)
    ensures HasRun(w, m)
  {
    var p :| RunAt(w, p, n);
    assert RunAt(w, p, m);
  }

  /** The longest run of set bits in `w`, capped at 4. */
  ghost function RunScore(w: U64): (n: nat)
    ensures n <= 4 && HasRun(w, n)
    ensures n < 4 ==> !HasRun(w, n + 1)
  {
    assert RunAt(w, 0, 0);
    if HasRun(w, 4) then 4
    else if HasRun(w, 3) then 3
    else if HasRun(w, 2) then 2
    else if HasRun(w, 1) then 1
    else 0
  }

  /** Only the empty word scores 0. */
  lemma RunScoreZero(w: U64)
    ensures RunScore(w) == 0 <==> w == {}
  {
    if w != {} {
      var p :| p in w;
      assert RunAt(w, p, 1);
    } else if RunScore(w) != 0 {
      HasRunMonotone(w, RunScore(w), 1);
      var p :| RunAt(w, p, 1);
      RunMember(w, p, 1, p);
    }
  }

  /** RunScore(w) == n follows from a run of n and the absence of a run of n + 1. */
  lemma RunScoreIs(w: U64, n: nat)
    requires 1 <= n <= 4 && HasRun(w, n)
    requires n < 4 ==> !HasRun(w, n + 1)
    ensures RunScore(w) == n
  {
    RunScoreIsLongestRun(w, n);
    if n < 4 {
      RunScoreIsLongestRun(w, n + 1);
    }
  }

  /** A run of length n is longer than every run in w exactly when RunScore(w) < n <= 4. */
  lemma RunScoreIsLongestRun(w: U64, n: nat)
    requires 1 <= n <= 4
    ensures HasRun(w, n) <==> n <= RunScore(w)
  {
    if HasRun(w, n) && RunScore(w) < n {
      HasRunMonotone(w, n, RunScore(w) + 1);
    }
    if n <= RunScore(w) {
      HasRunMonotone(w, RunScore(w), n);
    }
  }

  /** `row & (row >> 1)`: bit p survives when bits p and p+1 are both set. */
  function AndShr1(w: U64): U64
  {
    set p | p in w && NextSet(w, p)
  }

  predicate NextSet(w: U64, p: nat)
  {
    p + 1 in w
  }

  /** The word after k rounds of `row & (row >> 1)`. */
  function Shrink(w: U64, k: nat): U64
  {
    if k == 0 then w else AndShr1(Shrink(w, k - 1))
  }

  /** After k rounds, bit p is set iff bits p .. p+k of the original word were all set. */
  lemma {:induction false} ShrinkRuns(w: U64, k: nat)
    ensures forall p: nat :: p in Shrink(w, k) <==> RunAt(w, p, k + 1)
  {
    if k > 0 {
      ShrinkRuns(w, k - 1);
      forall p: nat
        ensures p in Shrink(w, k) <==> RunAt(w, p, k + 1)
      {
        if RunAt(w, p, k + 1) {
          assert RunAt(w, p, k) && RunAt(w, p + 1, k);
        }
        if p in Shrink(w, k) {
          var prev := Shrink(w, k - 1);
          assert p in AndShr1(prev);
          assert p in prev && NextSet(prev, p);
          assert RunAt(w, p, k) && RunAt(w, p + 1, k);
          forall j | p <= j < p + k + 1
            ensures j in w
          {
            if j < p + k {
              assert j in w;
            } else {
              assert p + k in w;
            }
          }
        }
      }
    }
  }

  lemma ShrinkEmpty(w: U64, k: nat)
    ensures Shrink(w, k) == {} <==> !HasRun(w, k + 1)
  {
    ShrinkRuns(w, k);
    if HasRun(w, k + 1) {
      var p :| RunAt(w, p, k + 1);
      assert p in Shrink(w, k);
    }
  }

  /** score_row: rounds of shift-and-AND until the word empties, at most three of them;
      the count is the longest run of set bits, capped at 4. */
  method ScoreRow(row0: U64) returns (score: int)
    ensures score == RunScore(row0)
  {
    var row := row0;
    if row == {} {
      RunScoreZero(row0);
      return 0;
    }
    var i := 1;
    while i < 4
      invariant 1 <= i <= 4
      invariant row == Shrink(row0, i - 1) && row != {}
    {
      row := AndShr1(row);
      if row == {} {
        ShrinkEmpty(row0, i);
        ShrinkEmpty(row0, i - 1);
        RunScoreIsLongestRun(row0, i);
        RunScoreIsLongestRun(row0, i + 1);
        break;
      }
      i := i + 1;
    }
    if i == 4 {
      ShrinkEmpty(row0, 3);
    }
    score := i;
  }

  /** is_row_win: four consecutive set bits. */
  method IsRowWin(row: U64) returns (win: bool)
    ensures win <==> HasRun(row, 4)
  {
    var score := ScoreRow(row);
    win := score >= 4;
  }

  /** The examples of the unit tests of score_row and is_row_win with a run of four, each
      hexadecimal word written as its set of bit positions. */
  lemma WinningRowExamples()
    ensures RunScore({0, 1, 2, 3}) == 4 && RunScore({1, 2, 3, 4}) == 4
    // 0xF000000000000000 and 0x1E00000000000000
    ensures RunScore({60, 61, 62, 63}) == 4 && RunScore({57, 58, 59, 60}) == 4
    // 0xAA02F20011002345
    ensures RunScore({0, 2, 6, 8, 9, 13, 24, 28, 41, 44, 45, 46, 47, 49, 57, 59, 61, 63}) == 4
  {
    assert RunAt({0, 1, 2, 3}, 0, 4);
    assert RunAt({1, 2, 3, 4}, 1, 4);
    assert RunAt({60, 61, 62, 63}, 60, 4);
    assert RunAt({57, 58, 59, 60}, 57, 4);
    assert RunAt({0, 2, 6, 8, 9, 13, 24, 28, 41, 44, 45, 46, 47, 49, 57, 59, 61, 63}, 44, 4);
  }

  /** The examples of the unit tests without a run of four. */
  lemma ShortRowExamples()
    ensures RunScore({}) == 0 && RunScore({0}) == 1 && RunScore({0, 1}) == 2 && RunScore({0, 1, 2}) == 3
    // 0xE000000000000000
    ensures RunScore({61, 62, 63}) == 3
    // 0xAA55000011002345
    ensures RunScore({0, 2, 6, 8, 9, 13, 24, 28, 48, 50, 52, 54, 57, 59, 61, 63}) == 2
  {
    RunScoreZero({});
    assert RunAt({0}, 0, 1);
    forall p: nat | RunAt({0}, p, 2) ensures false { RunMember({0}, p, 2, p + 1); }
    RunScoreIs({0}, 1);
    assert RunAt({0, 1}, 0, 2);
    forall p: nat | RunAt({0, 1}, p, 3) ensures false { RunMember({0, 1}, p, 3, p + 2); }
    RunScoreIs({0, 1}, 2);
    assert RunAt({0, 1, 2}, 0, 3);
    forall p: nat | RunAt({0, 1, 2}, p, 4) ensures false { RunMember({0, 1, 2}, p, 4, p + 3); }
    RunScoreIs({0, 1, 2}, 3);
    assert RunAt({61, 62, 63}, 61, 3);
    forall p: nat | RunAt({61, 62, 63}, p, 4) ensures false {
      RunMember({61, 62, 63}, p, 4, p);
      RunMember({61, 62, 63}, p, 4, p + 3);
    }
    RunScoreIs({61, 62, 63}, 3);
    var w: U64 := {0, 2, 6, 8, 9, 13, 24, 28, 48, 50, 52, 54, 57, 59, 61, 63};
    assert RunAt(w, 8, 2);
    forall p: nat | RunAt(w, p, 3)
      ensures false
    {
      RunMember(w, p, 3, p);
      RunMember(w, p, 3, p + 1);
      RunMember(w, p, 3, p + 2);
    }
    RunScoreIs(w, 2);
  }

  // ---------------------------------------------------------------------------
  // The agreement of the four layouts

  /** The board cell the optional address names is occupied in `m`. */
  ghost predicate Occupied(m: seq<U64>, cell: Option<(nat, nat)>)
  {
    cell.Some? && cell.value.0 < |m| && cell.value.1 in m[cell.value.0]
  }

  /** `main` holds board cells only. */
  ghost predicate OnBoard(size: nat, m: seq<U64>)
  {
    |m| == BOARD_SIZE && forall k: nat, p: nat :: k < BOARD_SIZE && p in m[k] ==> k < size && p < size
  }

  /** Bit r of `inv[c]` is bit c of `m[r]`. */
  ghost predicate InvertAgrees(m: seq<U64>, inv: seq<U64>)
  {
    && |m| == BOARD_SIZE && |inv| == BOARD_SIZE
    && (forall k: nat, p: nat :: k < BOARD_SIZE && p in inv[k] ==> p < BOARD_SIZE)
    && (forall k: nat, p: nat :: k < BOARD_SIZE && p < BOARD_SIZE ==> (p in inv[k] <==> k in m[p]))
  }

  /** A forward-diagonal word has bit j set exactly when the cell at position j of that
      diagonal is occupied. */
  ghost predicate DiagAgrees(size: nat, m: seq<U64>, dg: seq<U64>)
  {
    |dg| == BOARD_DIAG_SIZE && forall k: nat, p: nat :: k < BOARD_DIAG_SIZE ==> (p in dg[k] <==> Occupied(m, MainCell(size, k, p)))
  }

  /** The same for the layout of the turned board. */
  ghost predicate RotAgrees(size: nat, m: seq<U64>, dr: seq<U64>)
  {
    |dr| == BOARD_DIAG_SIZE && forall k: nat, p: nat :: k < BOARD_DIAG_SIZE ==> (p in dr[k] <==> Occupied(m, RotCell(size, k, p)))
  }

  /** The four layouts describe the same occupied board cells. */
  ghost predicate Agree(size: nat, m: seq<U64>, inv: seq<U64>, dg: seq<U64>, dr: seq<U64>)
  {
    OnBoard(size, m) && InvertAgrees(m, inv) && DiagAgrees(size, m, dg) && RotAgrees(size, m, dr)
  }

  /** The occupied board cells of a `main` layout. */
  ghost function CellsOf(size: nat, m: seq<U64>): set<(nat, nat)>
  {
    set r: nat, c: nat | r < size && c < size && r < |m| && c in m[r] :: (r, c)
  }

  /** Bit b of the word set (`on`) or cleared: `w | (1 << b)` or `w & (!0 ^ (1 << b))`. */
  function Put(w: U64, b: nat, on: bool): (r: U64)
    requires b < 64
    ensures forall q :: q in r <==> if q == b then on else q in w
  {
    if on then w + {b} else w - {b}
  }

  lemma OccupiedAfterPut(m: seq<U64>, row: nat, col: nat, on: bool, cell: Option<(nat, nat)>)
    requires row < |m| && col < 64
    ensures Occupied(m[row := Put(m[row], col, on)], cell) <==>
              if cell == Some((row, col)) then on else Occupied(m, cell)
  {
  }

  /** Exactly one address of each diagonal layout names a given board cell. */
  lemma AddressesOfCell(size: nat, row: nat, col: nat)
    requires row < size && col < size
    ensures forall k, p :: MainCell(size, k, p) == Some((row, col)) <==> Coord(k, p) == MainEntry(size, row, col)
    ensures forall k, p :: RotCell(size, k, p) == Some((row, col)) <==> Coord(k, p) == RotEntry(size, row, col)
  {
    MainCellOfEntry(size, row, col);
    RotCellOfEntry(size, row, col);
    forall k, p | MainCell(size, k, p).Some?
      ensures MainEntry(size, MainCell(size, k, p).value.0, MainCell(size, k, p).value.1) == Coord(k, p)
    {
      EntryOfMainCell(size, k, p);
    }
    forall k, p | RotCell(size, k, p).Some?
      ensures RotEntry(size, RotCell(size, k, p).value.0, RotCell(size, k, p).value.1) == Coord(k, p)
    {
      EntryOfRotCell(size, k, p);
    }
  }

  /** The addresses of any cell of the BOARD_SIZE grid fit the layouts (off-board cells read
      the address 0, 0). */
  lemma AddressBounds(size: nat, row: nat, col: nat)
    requires size <= BOARD_SIZE && row < BOARD_SIZE && col < BOARD_SIZE
    ensures MainEntry(size, row, col).row < BOARD_DIAG_SIZE && MainEntry(size, row, col).col < BOARD_SIZE
    ensures RotEntry(size, row, col).row < BOARD_DIAG_SIZE && RotEntry(size, row, col).col < BOARD_SIZE
  {
    if row < size && col < size {
      EntryBounds(size, row, col);
    }
  }

  lemma PutOnBoard(size: nat, m: seq<U64>, row: nat, col: nat, on: bool)
    requires OnBoard(size, m) && row < size <= BOARD_SIZE && col < size
    ensures OnBoard(size, m[row := Put(m[row], col, on)])
  {
  }

  lemma PutInvertAgrees(m: seq<U64>, inv: seq<U64>, row: nat, col: nat, on: bool)
    requires |m| == BOARD_SIZE && |inv| == BOARD_SIZE && InvertAgrees(m, inv)
    requires row < BOARD_SIZE && col < BOARD_SIZE
    ensures InvertAgrees(m[row := Put(m[row], col, on)], inv[col := Put(inv[col], row, on)])
  {
    var m', inv' := m[row := Put(m[row], col, on)], inv[col := Put(inv[col], row, on)];
    forall k: nat, p: nat | k < BOARD_SIZE
      ensures p in inv'[k] ==> p < BOARD_SIZE
      ensures p < BOARD_SIZE ==> (p in inv'[k] <==> k in m'[p])
    {
      assert p in inv'[k] <==> if k == col && p == row then on else p in inv[k];
      if p < BOARD_SIZE {
        assert k in m'[p] <==> if p == row && k == col then on else k in m[p];
      }
    }
  }

  lemma PutDiagAgrees(size: nat, m: seq<U64>, dg: seq<U64>, row: nat, col: nat, on: bool)
    requires size <= BOARD_SIZE && row < size && col < size && |m| == BOARD_SIZE && DiagAgrees(size, m, dg)
    ensures var e := MainEntry(size, row, col);
            e.row < BOARD_DIAG_SIZE && e.col < BOARD_SIZE &&
            DiagAgrees(size, m[row := Put(m[row], col, on)], dg[e.row := Put(dg[e.row], e.col, on)])
  {
    var e := MainEntry(size, row, col);
    EntryBounds(size, row, col);
    AddressesOfCell(size, row, col);
    forall k: nat, p: nat | k < BOARD_DIAG_SIZE
      ensures p in dg[e.row := Put(dg[e.row], e.col, on)][k] <==> Occupied(m[row := Put(m[row], col, on)], MainCell(size, k, p))
    {
      OccupiedAfterPut(m, row, col, on, MainCell(size, k, p));
    }
  }

  lemma PutRotAgrees(size: nat, m: seq<U64>, dr: seq<U64>, row: nat, col: nat, on: bool)
    requires size <= BOARD_SIZE && row < size && col < size && |m| == BOARD_SIZE && RotAgrees(size, m, dr)
    ensures var e := RotEntry(size, row, col);
            e.row < BOARD_DIAG_SIZE && e.col < BOARD_SIZE &&
            RotAgrees(size, m[row := Put(m[row], col, on)], dr[e.row := Put(dr[e.row], e.col, on)])
  {
    var e := RotEntry(size, row, col);
    EntryBounds(size, row, col);
    AddressesOfCell(size, row, col);
    forall k: nat, p: nat | k < BOARD_DIAG_SIZE
      ensures p in dr[e.row := Put(dr[e.row], e.col, on)][k] <==> Occupied(m[row := Put(m[row], col, on)], RotCell(size, k, p))
    {
      OccupiedAfterPut(m, row, col, on, RotCell(size, k, p));
    }
  }

  /** Setting or clearing a board cell in all four layouts keeps them in agreement, and adds the
      cell to, or removes it from, the occupied cells. */
  lemma PutAgrees(size: nat, m: seq<U64>, inv: seq<U64>, dg: seq<U64>, dr: seq<U64>, row: nat, col: nat, on: bool)
    requires size <= BOARD_SIZE && row < size && col < size && Agree(size, m, inv, dg, dr)
    ensures var e, f := MainEntry(size, row, col), RotEntry(size, row, col);
            && e.row < BOARD_DIAG_SIZE && e.col < BOARD_SIZE && f.row < BOARD_DIAG_SIZE && f.col < BOARD_SIZE
            && Agree(size, m[row := Put(m[row], col, on)], inv[col := Put(inv[col], row, on)],
                     dg[e.row := Put(dg[e.row], e.col, on)], dr[f.row := Put(dr[f.row], f.col, on)])
            && CellsOf(size, m[row := Put(m[row], col, on)]) ==
                 if on then CellsOf(size, m) + {(row, col)} else CellsOf(size, m) - {(row, col)}
  {
    PutOnBoard(size, m, row, col, on);
    PutInvertAgrees(m, inv, row, col, on);
    PutDiagAgrees(size, m, dg, row, col, on);
    PutRotAgrees(size, m, dr, row, col, on);
    PutCells(size, m, row, col, on);
  }

  /** Empty layouts agree, with no occupied cell. */
  lemma EmptyAgree(size: nat, m: seq<U64>, inv: seq<U64>, dg: seq<U64>, dr: seq<U64>)
    requires |m| == BOARD_SIZE && |inv| == BOARD_SIZE && |dg| == BOARD_DIAG_SIZE && |dr| == BOARD_DIAG_SIZE
    requires forall k :: 0 <= k < |m| ==> m[k] == {}
    requires forall k :: 0 <= k < |inv| ==> inv[k] == {}
    requires forall k :: 0 <= k < |dg| ==> dg[k] == {}
    requires forall k :: 0 <= k < |dr| ==> dr[k] == {}
    ensures Agree(size, m, inv, dg, dr) && CellsOf(size, m) == {}
  {
  }

  lemma PutCells(size: nat, m: seq<U64>, row: nat, col: nat, on: bool)
    requires |m| == BOARD_SIZE && row < size <= BOARD_SIZE && col < size
    ensures CellsOf(size, m[row := Put(m[row], col, on)]) ==
              if on then CellsOf(size, m) + {(row, col)} else CellsOf(size, m) - {(row, col)}
  {
  }

  // ---------------------------------------------------------------------------
  // Scores over a sequence of words

  /** The largest RunScore of the words (0 for no words). */
  ghost function MaxRun(ws: seq<U64>): (n: nat)
    ensures n <= 4
    ensures forall k :: 0 <= k < |ws| ==> RunScore(ws[k]) <= n
    ensures n == 0 || exists k :: 0 <= k < |ws| && RunScore(ws[k]) == n
  {
    if |ws| == 0 then 0 else Max(MaxRun(ws[..|ws| - 1]), RunScore(ws[|ws| - 1]))
  }

  /** One more word of the scan. */
  lemma MaxRunStep(ws: seq<U64>, i: nat)
    requires i < |ws|
    ensures MaxRun(ws[..i + 1]) == Max(MaxRun(ws[..i]), RunScore(ws[i]))
  {
    assert ws[..i + 1][..i] == ws[..i];
  }

  /** The maximum over two sequences of words is the larger of their maxima. */
  lemma {:induction false} MaxRunAppend(xs: seq<U64>, ys: seq<U64>)
    ensures MaxRun(xs + ys) == Max(MaxRun(xs), MaxRun(ys))
    decreases |ys|
  {
    if |ys| > 0 {
      var ys' := ys[..|ys| - 1];
      assert (xs + ys)[..|xs + ys| - 1] == xs + ys';
      MaxRunAppend(xs, ys');
    } else {
      assert xs + ys == xs;
    }
  }

  lemma MaxRunOfWords(a: seq<U64>, b: seq<U64>, c: seq<U64>, d: seq<U64>)
    ensures MaxRun(a + b + c + d) == Max(Max(Max(MaxRun(a), MaxRun(b)), MaxRun(c)), MaxRun(d))
  {
    MaxRunAppend(a, b);
    MaxRunAppend(a + b, c);
    MaxRunAppend(a + b + c, d);
  }

  /** Some word holds four consecutive set bits. */
  ghost predicate AnyWin(ws: seq<U64>)
  {
    exists k :: 0 <= k < |ws| && HasRun(ws[k], 4)
  }

  /** `score | ((score & 4) << 1)` for a score of at most 4: bit 2 of the score, moved up to
      bit 3. Below 8 bit 3 is clear, so the `|` is an addition. */
  function Boost(score: int): (r: int)
    requires 0 <= score <= 4
    ensures r == (if score == 4 then 12 else score)
  {
    score + 8 * ((score / 4) % 2)
  }

  /** The boosted maximum is 12 exactly when some word holds four in a row. */
  lemma BoostedMaxIsWin(ws: seq<U64>)
    ensures Boost(MaxRun(ws)) == 12 <==> AnyWin(ws)
    ensures Boost(MaxRun(ws)) in {0, 1, 2, 3, 12}
  {
    if AnyWin(ws) {
      var k :| 0 <= k < |ws| && HasRun(ws[k], 4);
      RunScoreIsLongestRun(ws[k], 4);
    }
    if MaxRun(ws) == 4 {
      var k :| 0 <= k < |ws| && RunScore(ws[k]) == 4;
      assert HasRun(ws[k], 4);
    }
  }

  /** Empty words have no runs at all. */
  lemma EmptyWords(ws: seq<U64>)
    requires forall k :: 0 <= k < |ws| ==> ws[k] == {}
    ensures MaxRun(ws) == 0 && !AnyWin(ws)
  {
    if MaxRun(ws) != 0 {
      var k :| 0 <= k < |ws| && RunScore(ws[k]) == MaxRun(ws);
      RunScoreZero(ws[k]);
    }

  }

  // ---------------------------------------------------------------------------
  // The overlay

  class Overlay {
    const size: nat
    /** main[r] bit c: cell (r, c) is occupied. */
    const main: array<U64>
    /** invert[c] bit r: cell (r, c) is occupied. */
    const invert: array<U64>
    /** diag[k] bit j: the cell at position j of diagonal k is occupied. */
    const diag: array<U64>
    /** diagRot[k] bit j: the same, on the board turned a quarter turn. */
    const diagRot: array<U64>
    /** The shared lookup tables. */
    const lookup: Tables

    ghost predicate Valid()
      reads this
    {
      && main.Length == BOARD_SIZE && invert.Length == BOARD_SIZE
      && diag.Length == BOARD_DIAG_SIZE && diagRot.Length == BOARD_DIAG_SIZE
      && main != invert && main != diag && main != diagRot
      && invert != diag && invert != diagRot && diag != diagRot
      && size <= BOARD_SIZE && lookup == Table(size)
    }

    /** The words of all four layouts, in the order `score` and `is_win_state` scan them. */
    ghost function Words(): seq<U64>
      reads this, main, invert, diag, diagRot
    {
      main[..] + invert[..] + diag[..] + diagRot[..]
    }

    /** The four layouts agree about which cells are occupied. */
    ghost predicate Consistent()
      reads this, main, invert, diag, diagRot
      requires Valid()
    {
      Agree(size, main[..], invert[..], diag[..], diagRot[..])
    }

    /** The occupied board cells, as `main` records them. */
    ghost function Cells(): set<(nat, nat)>
      reads this, main
    {
      CellsOf(size, main[..])
    }

    /** Overlay::new: every layout empty. */
    constructor(size: nat, lookup: Tables)
      requires size <= BOARD_SIZE && lookup == Table(size)
      ensures Valid() && Consistent() && Cells() == {}
      ensures this.size == size && this.lookup == lookup
      ensures forall k :: 0 <= k < |Words()| ==> Words()[k] == {}
      ensures fresh(main) && fresh(invert) && fresh(diag) && fresh(diagRot)
    {
      this.size := size;
      main := new U64[BOARD_SIZE](_ => {});
      invert := new U64[BOARD_SIZE](_ => {});
      diag := new U64[BOARD_DIAG_SIZE](_ => {});
      diagRot := new U64[BOARD_DIAG_SIZE](_ => {});
      this.lookup := lookup;
      new;
      EmptyAgree(size, main[..], invert[..], diag[..], diagRot[..]);
    }

    /** Overlay::set: sets the cell's bit in each layout, at the addresses the tables give.
        Any cell of the BOARD_SIZE grid is accepted; only cells on the board keep the layouts
        in agreement. */
    method Set(row: nat, col: nat)
      requires Valid() && row < BOARD_SIZE && col < BOARD_SIZE
      modifies main, invert, diag, diagRot
      ensures Valid()
      ensures main[..] == old(main[..])[row := old(main[row]) + {col}]
      ensures invert[..] == old(invert[..])[col := old(invert[col]) + {row}]
      ensures var e := MainEntry(size, row, col);
              e.row < BOARD_DIAG_SIZE && e.col < BOARD_SIZE &&
              diag[..] == old(diag[..])[e.row := old(diag[e.row]) + {e.col}]
      ensures var e := RotEntry(size, row, col);
              e.row < BOARD_DIAG_SIZE && e.col < BOARD_SIZE &&
              diagRot[..] == old(diagRot[..])[e.row := old(diagRot[e.row]) + {e.col}]
      ensures row < size && col < size && old(Consistent()) ==>
                Consistent() && Cells() == old(Cells()) + {(row, col)}
    {
      var (rowInvert, colInvert) := (col, row);
      var d := lookup.main[row][col];
      var dRot := lookup.rot[row][col];
      assert d == MainEntry(size, row, col) && dRot == RotEntry(size, row, col);
      AddressBounds(size, row, col);
      ghost var m, inv, dg, dr := main[..], invert[..], diag[..], diagRot[..];
      OrBit(main, row, col);
      OrBit(invert, rowInvert, colInvert);
      OrBit(diag, d.row, d.col);
      OrBit(diagRot, dRot.row, dRot.col);
      if row < size && col < size && Agree(size, m, inv, dg, dr) {
        PutAgrees(size, m, inv, dg, dr, row, col, true);
      }
    }

    /** Overlay::clear: clears the cell's bit in each layout. */
    method Clear(row: nat, col: nat)
      requires Valid() && row < BOARD_SIZE && col < BOARD_SIZE
      modifies main, invert, diag, diagRot
      ensures Valid()
      ensures main[..] == old(main[..])[row := old(main[row]) - {col}]
      ensures invert[..] == old(invert[..])[col := old(invert[col]) - {row}]
      ensures var e := MainEntry(size, row, col);
              e.row < BOARD_DIAG_SIZE && e.col < BOARD_SIZE &&
              diag[..] == old(diag[..])[e.row := old(diag[e.row]) - {e.col}]
      ensures var e := RotEntry(size, row, col);
              e.row < BOARD_DIAG_SIZE && e.col < BOARD_SIZE &&
              diagRot[..] == old(diagRot[..])[e.row := old(diagRot[e.row]) - {e.col}]
      ensures row < size && col < size && old(Consistent()) ==>
                Consistent() && Cells() == old(Cells()) - {(row, col)}
    {
      var (rowInvert, colInvert) := (col, row);
      var d := lookup.main[row][col];
      var dRot := lookup.rot[row][col];
      assert d == MainEntry(size, row, col) && dRot == RotEntry(size, row, col);
      AddressBounds(size, row, col);
      ghost var m, inv, dg, dr := main[..], invert[..], diag[..], diagRot[..];
      AndNotBit(main, row, col);
      AndNotBit(invert, rowInvert, colInvert);
      AndNotBit(diag, d.row, d.col);
      AndNotBit(diagRot, dRot.row, dRot.col);
      if row < size && col < size && Agree(size, m, inv, dg, dr) {
        PutAgrees(size, m, inv, dg, dr, row, col, false);
      }
    }

    /** Overlay::get: reads `main` only; for agreeing layouts that is the occupancy of the cell. */
    function Get(row: nat, col: nat): (occupied: bool)
      requires Valid() && row < BOARD_SIZE && col < 64
      reads this, main, invert, diag, diagRot
      ensures Consistent() ==> (occupied <==> (row, col) in Cells())
    {
      col in main[row]
    }

    /** Overlay::score: the longest run over every word of every layout, a 4 boosted to 12. */
    method Score() returns (score: int)
      requires Valid()
      ensures score == Boost(MaxRun(Words()))
      ensures score in {0, 1, 2, 3, 12}
    {
      score := 0;
      score := MaxScoreRow(main, score);
      score := MaxScoreRow(invert, score);
      score := MaxScoreRow(diag, score);
      score := MaxScoreRow(diagRot, score);
      MaxRunOfWords(main[..], invert[..], diag[..], diagRot[..]);
      BoostedMaxIsWin(Words());
      score := Boost(score);
    }

    /** Overlay::is_win_state: some word of some layout holds four in a row. */
    method IsWinState() returns (win: bool)
      requires Valid()
      ensures win <==> AnyWin(Words())
    {
      win := AnyRowWin(main);
      if win {
        WinInParts(main[..], invert[..], diag[..], diagRot[..]);
        return;
      }
      win := AnyRowWin(invert);
      if win {
        WinInParts(main[..], invert[..], diag[..], diagRot[..]);
        return;
      }
      win := AnyRowWin(diag);
      if win {
        WinInParts(main[..], invert[..], diag[..], diagRot[..]);
        return;
      }
      win := AnyRowWin(diagRot);
      WinInParts(main[..], invert[..], diag[..], diagRot[..]);
    }
  }

  /** `words[i] |= 1 << b`. */
  method OrBit(words: array<U64>, i: nat, b: nat)
    requires i < words.Length && b < 64
    modifies words
    ensures words[..] == old(words[..])[i := old(words[i]) + {b}]
  {
    words[i] := words[i] + {b};
  }

  /** `words[i] &= !0 ^ (1 << b)`. */
  method AndNotBit(words: array<U64>, i: nat, b: nat)
    requires i < words.Length && b < 64
    modifies words
    ensures words[..] == old(words[..])[i := old(words[i]) - {b}]
  {
    words[i] := words[i] - {b};
  }

  /** One `for row in ... { score = max(score, score_row(*row)); }` loop of Overlay::score. */
  method MaxScoreRow(words: array<U64>, score0: int) returns (score: int)
    requires score0 >= 0
    ensures score == Max(score0, MaxRun(words[..]))
  {
    score := score0;
    for i := 0 to words.Length
      invariant score == Max(score0, MaxRun(words[..i]))
    {
      var s := ScoreRow(words[i]);
      MaxRunStep(words[..], i);
      score := Max(score, s);
    }
    assert words[..words.Length] == words[..];
  }

  /** One `for row in ... { if is_row_win(*row) { return true; } }` loop of
      Overlay::is_win_state, reporting whether it returned. */
  method AnyRowWin(words: array<U64>) returns (found: bool)
    ensures found <==> exists j :: 0 <= j < words.Length && HasRun(words[j], 4)
  {
    for i := 0 to words.Length
      invariant forall j :: 0 <= j < i ==> !HasRun(words[j], 4)
    {
      found := IsRowWin(words[i]);
      if found {
        return;
      }
    }
    found := false;
  }

  /** A win among the words of all layouts is a win in one of them. */
  lemma WinInParts(a: seq<U64>, b: seq<U64>, c: seq<U64>, d: seq<U64>)
    ensures AnyWin(a + b + c + d) <==> AnyWin(a) || AnyWin(b) || AnyWin(c) || AnyWin(d)
  {
    var ws := a + b + c + d;
    if AnyWin(ws) {
      var k :| 0 <= k < |ws| && HasRun(ws[k], 4);
      if k < |a| {
        assert ws[k] == a[k];
      } else if k < |a| + |b| {
        assert ws[k] == b[k - |a|];
      } else if k < |a| + |b| + |c| {
        assert ws[k] == c[k - |a| - |b|];
      } else {
        assert ws[k] == d[k - |a| - |b| - |c|];
      }
    }
    if AnyWin(a) {
      var k :| 0 <= k < |a| && HasRun(a[k], 4);
      assert ws[k] == a[k];
    }
    if AnyWin(b) {
      var k :| 0 <= k < |b| && HasRun(b[k], 4);
      assert ws[|a| + k] == b[k];
    }
    if AnyWin(c) {
      var k :| 0 <= k < |c| && HasRun(c[k], 4);
      assert ws[|a| + |b| + k] == c[k];
    }
    if AnyWin(d) {
      var k :| 0 <= k < |d| && HasRun(d[k], 4);
      assert ws[|a| + |b| + |c| + k] == d[k];
    }
  }

  /** A fresh overlay scores 0 and is not a win. */
  lemma FreshOverlayScoresZero(o: Overlay)
    requires o.Valid() && forall k :: 0 <= k < |o.Words()| ==> o.Words()[k] == {}
    ensures Boost(MaxRun(o.Words())) == 0 && !AnyWin(o.Words())
  {
    EmptyWords(o.Words());
  }

  /** `score() == 12` exactly when `is_win_state()`. */
  lemma ScoreTwelveIffWin(o: Overlay)
    requires o.Valid()
    ensures Boost(MaxRun(o.Words())) == 12 <==> AnyWin(o.Words())
  {
    BoostedMaxIsWin(o.Words());
  }

  /** The unit test of get and set on a 4 x 4 board. */
  method GetSetExample()
  {
    var tables := New(4);
    var o := new Overlay(4, tables);
    assert !o.Get(1, 0);
    o.Set(0, 0);
    assert o.Get(0, 0);
    assert !o.Get(1, 0);
  }
}
