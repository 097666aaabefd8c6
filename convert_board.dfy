/** web/convert_board.py: `warmer_to_aromatt`, which prints a board given as rows
    of cell codes in the ASCII format the engine reads: a header line `+ 0 1 ...`
    and then one line `i c c ...` per row. */
module ConvertBoard {
  import opened Wrappers
  import opened Text

  /** The KeyError that `chars[c]` raises for a code with no character. */
  datatype KeyError = KeyError(key: int)

  /** `board`: a list of rows of cell codes. */
  type Board = seq<seq<int>>

  const RED_CHARS: map<int, char> := map[0 := '-', 1 := 'r', 2 := 'b', 4 := '#']
  const BLUE_CHARS: map<int, char> := map[0 := '-', 2 := 'r', 1 := 'b', 4 := '#']

  /** The table for the `PUSHFOUR_COLOR` setting: "blue" swaps the two players'
      letters, any other setting (and the default) is red. */
  function CharsFor(color: string): (chars: map<int, char>)
    ensures chars.Keys == {0, 1, 2, 4} && chars[0] == '-' && chars[4] == '#'
    ensures color == "blue" ==> chars[1] == 'b' && chars[2] == 'r'
    ensures color != "blue" ==> chars[1] == 'r' && chars[2] == 'b'
  {
    if color == "blue" then BLUE_CHARS else RED_CHARS
  }

  /** `[chars[c] for c in row]`, each character a one-letter string. The comprehension
      stops at the first code without a character. */
  function Cells(chars: map<int, char>, row: seq<int>): (r: Result<seq<string>, KeyError>)
    ensures r.Success? ==> |r.value| == |row|
  {
    if row == [] then Success([])
    else if row[0] !in chars then Failure(KeyError(row[0]))
    else
      match Cells(chars, row[1..])
      case Failure(e) => Failure(e)
      case Success(rest) => Success([[chars[row[0]]]] + rest)
  }

  /** A row converts exactly when every code has a character, and then cell `k` is
      the character of code `k`. */
  lemma {:induction false} CellsSucceed(chars: map<int, char>, row: seq<int>)
    ensures Cells(chars, row).Success? <==> forall k :: 0 <= k < |row| ==> row[k] in chars
    ensures Cells(chars, row).Success? ==>
      forall k :: 0 <= k < |row| ==> row[k] in chars && Cells(chars, row).value[k] == [chars[row[k]]]
  {
    if row != [] {
      CellsSucceed(chars, row[1..]);
      assert forall k :: 1 <= k < |row| ==> row[k] == row[1..][k - 1];
    }
  }

  /** A failing row reports its first code without a character. */
  lemma {:induction false} CellsFirstMissing(chars: map<int, char>, row: seq<int>) returns (k: nat)
    requires Cells(chars, row).Failure?
    ensures k < |row| && row[k] !in chars && Cells(chars, row).error == KeyError(row[k])
    ensures forall j :: 0 <= j < k ==> row[j] in chars
  {
    if row[0] in chars {
      var k' := CellsFirstMissing(chars, row[1..]);
      k := k' + 1;
      assert forall j :: 1 <= j < |row| ==> row[j] == row[1..][j - 1];
    } else {
      k := 0;
    }
  }

  /** `str(i) + ' ' + ' '.join(cells)`. */
  function Line(i: nat, cells: seq<string>): (line: string)
    ensures |line| > |NatToString(i)| && line[..|NatToString(i)| + 1] == NatToString(i) + " "
  {
    NatToString(i) + " " + Join(" ", cells)
  }

  /** `[str(i) for i in range(size)]`. */
  function ColumnLabels(size: nat): (labels: seq<string>)
    ensures |labels| == size && forall i :: 0 <= i < size ==> labels[i] == NatToString(i)
  {
    seq(size, i requires 0 <= i => NatToString(i))
  }

  /** `'+ ' + ' '.join(ColumnLabels(size))`. */
  function Header(size: nat): (header: string)
    ensures |header| >= 2 && header[..2] == "+ "
  {
    "+ " + Join(" ", ColumnLabels(size))
  }

  /** The body lines for rows `i..`, built in order; the first failing row's error wins. */
  function Rows(chars: map<int, char>, board: Board, i: nat): (r: Result<seq<string>, KeyError>)
    requires i <= |board|
    decreases |board| - i
    ensures r.Success? ==> |r.value| == |board| - i
  {
    if i == |board| then Success([])
    else
      match Cells(chars, board[i])
      case Failure(e) => Failure(e)
      case Success(cells) =>
        match Rows(chars, board, i + 1)
        case Failure(e) => Failure(e)
        case Success(lines) => Success([Line(i, cells)] + lines)
  }

  /** Rows `i..` convert exactly when each of them does. */
  lemma {:induction false} RowsSucceed(chars: map<int, char>, board: Board, i: nat)
    requires i <= |board|
    decreases |board| - i
    ensures Rows(chars, board, i).Success? <==> forall x :: i <= x < |board| ==> Cells(chars, board[x]).Success?
  {
    if i < |board| {
      RowsSucceed(chars, board, i + 1);
    }
  }

  /** Line `k` of rows `i..` is row `i + k`'s index and cells. */
  lemma {:induction false} RowsLineAt(chars: map<int, char>, board: Board, i: nat, k: nat)
    requires i + k < |board| && Rows(chars, board, i).Success?
    decreases k
    ensures Cells(chars, board[i + k]).Success?
    ensures Rows(chars, board, i).value[k] == Line(i + k, Cells(chars, board[i + k]).value)
  {
    var rest := Rows(chars, board, i + 1);
    assert Rows(chars, board, i).value == [Line(i, Cells(chars, board[i]).value)] + rest.value;
    if k > 0 {
      RowsLineAt(chars, board, i + 1, k - 1);
      assert (i + 1) + (k - 1) == i + k;
    }
  }

  /** Body line `x` is row `x`'s index and cells. */
  lemma BodyLines(chars: map<int, char>, board: Board)
    requires Rows(chars, board, 0).Success?
    ensures forall x :: 0 <= x < |board| ==>
      Cells(chars, board[x]).Success? && Rows(chars, board, 0).value[x] == Line(x, Cells(chars, board[x]).value)
  {
    forall x | 0 <= x < |board|
      ensures Cells(chars, board[x]).Success? && Rows(chars, board, 0).value[x] == Line(x, Cells(chars, board[x]).value)
    {
      RowsLineAt(chars, board, 0, x);
    }
  }

  /** The first failing row decides the error of Rows. */
  lemma {:induction false} RowsFirstFailure(chars: map<int, char>, board: Board, i: nat, x: nat)
    requires i <= x < |board| && Cells(chars, board[x]).Failure?
    requires forall x' :: i <= x' < x ==> Cells(chars, board[x']).Success?
    decreases x - i
    ensures Rows(chars, board, i) == Failure(Cells(chars, board[x]).error)
  {
    if i < x {
      RowsFirstFailure(chars, board, i + 1, x);
    }
  }

  /** A failure of Rows comes from its first failing row. */
  lemma {:induction false} RowsFailure(chars: map<int, char>, board: Board, i: nat) returns (x: nat)
    requires i <= |board| && Rows(chars, board, i).Failure?
    decreases |board| - i
    ensures i <= x < |board| && Cells(chars, board[x]) == Failure(Rows(chars, board, i).error)
    ensures forall x' :: i <= x' < x ==> Cells(chars, board[x']).Success?
  {
    if Cells(chars, board[i]).Failure? {
      x := i;
    } else {
      x := RowsFailure(chars, board, i + 1);
    }
  }

  /** The lines joined with newlines, with no trailing newline. */
  function Render(chars: map<int, char>, board: Board): Result<string, KeyError>
  {
    match Rows(chars, board, 0)
    case Failure(e) => Failure(e)
    case Success(lines) => Success(Join("\n", [Header(|board|)] + lines))
  }

  /** The statements of `warmer_to_aromatt` after the table is chosen: the header,
      then one line appended per row in order, then the join. */
  method RenderRows(chars: map<int, char>, board: Board) returns (r: Result<string, KeyError>)
    ensures r == Render(chars, board)
  {
    var strrows := [Header(|board|)];
    var i := 0;
    while i < |board|
      invariant i <= |board| && |strrows| == i + 1 && strrows[0] == Header(|board|)
      invariant forall x :: 0 <= x < i ==> Cells(chars, board[x]).Success?
      invariant forall x :: 0 <= x < i ==> strrows[x + 1] == Line(x, Cells(chars, board[x]).value)
    {
      var cells := Cells(chars, board[i]);
      if cells.Failure? {
        RowsFirstFailure(chars, board, 0, i);
        return Failure(cells.error);
      }
      strrows := strrows + [Line(i, cells.value)];
      i := i + 1;
    }
    RowsSucceed(chars, board, 0);
    BodyLines(chars, board);
    assert strrows == [Header(|board|)] + Rows(chars, board, 0).value;
    r := Success(Join("\n", strrows));
  }

  /** `warmer_to_aromatt(board)` with `PUSHFOUR_COLOR` set to `color`. */
  function WarmerToAromatt(board: Board, color: string): Result<string, KeyError>
  {
    Render(CharsFor(color), board)
  }

  // ---------------------------------------------------------------------------
  // Errors

  /** The codes the two tables know. */
  predicate Known(c: int)
  {
    c == 0 || c == 1 || c == 2 || c == 4
  }

  lemma TableKeys(color: string, c: int)
    ensures c in CharsFor(color) <==> Known(c)
  {
  }

  /** The serialiser fails exactly when some cell is not one of 0, 1, 2 and 4. */
  lemma KeyErrorIffUnknownCode(board: Board, color: string)
    ensures WarmerToAromatt(board, color).Failure? <==>
      exists x, y :: 0 <= x < |board| && 0 <= y < |board[x]| && !Known(board[x][y])
  {
    var chars := CharsFor(color);
    if WarmerToAromatt(board, color).Failure? {
      var x, y := FirstUnknownCode(board, color);
    } else {
      RowsSucceed(chars, board, 0);
      forall x, y | 0 <= x < |board| && 0 <= y < |board[x]|
        ensures Known(board[x][y])
      {
        CellsSucceed(chars, board[x]);
        TableKeys(color, board[x][y]);
      }
    }
  }

  /** A failure reports the first unknown code in reading order (row by row, left to right). */
  lemma FirstUnknownCode(board: Board, color: string) returns (x: nat, y: nat)
    requires WarmerToAromatt(board, color).Failure?
    ensures x < |board| && y < |board[x]| && !Known(board[x][y])
    ensures WarmerToAromatt(board, color).error == KeyError(board[x][y])
    ensures forall x', y' :: 0 <= x' < x && 0 <= y' < |board[x']| ==> Known(board[x'][y'])
    ensures forall y' :: 0 <= y' < y ==> Known(board[x][y'])
  {
    var chars := CharsFor(color);
    var e := WarmerToAromatt(board, color).error;
    x := RowsFailure(chars, board, 0);
    y := CellsFirstMissing(chars, board[x]);
    TableKeys(color, board[x][y]);
    forall x', y' | 0 <= x' < x && 0 <= y' < |board[x']|
      ensures Known(board[x'][y'])
    {
      CellsSucceed(chars, board[x']);
      TableKeys(color, board[x'][y']);
    }
    forall y' | 0 <= y' < y
      ensures Known(board[x][y'])
    {
      TableKeys(color, board[x][y']);
    }
  }

  // ---------------------------------------------------------------------------
  // Layout

  /** None of the characters in the two tables is a space or a newline. */
  predicate CellToken(t: string)
  {
    |t| == 1 && t[0] in {'-', 'r', 'b', '#'}
  }

  lemma CellsAreTokens(color: string, row: seq<int>)
    requires Cells(CharsFor(color), row).Success?
    ensures var cells := Cells(CharsFor(color), row).value;
      forall k :: 0 <= k < |cells| ==> CellToken(cells[k])
  {
    CellsSucceed(CharsFor(color), row);
  }

  lemma NonDigitNotInNumber(n: nat, c: char)
    requires !IsDigit(c)
    ensures c !in NatToString(n)
  {
  }

  lemma LineHasNoNewline(i: nat, cells: seq<string>)
    requires forall k :: 0 <= k < |cells| ==> CellToken(cells[k])
    ensures '\n' !in Line(i, cells)
  {
    NonDigitNotInNumber(i, '\n');
    JoinAvoids(" ", cells, '\n');
  }

  lemma HeaderHasNoNewline(size: nat)
    ensures '\n' !in Header(size)
  {
    var indices := ColumnLabels(size);
    forall k | 0 <= k < size
      ensures '\n' !in indices[k]
    {
      NonDigitNotInNumber(k, '\n');
    }
    JoinAvoids(" ", indices, '\n');
  }

  /** The header's space-separated tokens are "+" and then the column numbers, each
      reading back as its index. */
  lemma HeaderTokens(size: nat)
    requires size >= 1
    ensures Split(Header(size), ' ') == ["+"] + ColumnLabels(size)
    ensures forall i :: 0 <= i < size ==> ParseNat(ColumnLabels(size)[i]) == i
  {
    var labels := ColumnLabels(size);
    forall k | 0 <= k < size
      ensures ' ' !in labels[k] && ParseNat(labels[k]) == k
    {
      NonDigitNotInNumber(k, ' ');
      ParseNatToString(k);
    }
    SplitAt("+", ' ', Join(" ", labels));
    assert "+ " + Join(" ", labels) == "+" + [' '] + Join(" ", labels);
    SplitJoin(labels, ' ');
  }

  /** The output splits on newlines into `len(board) + 1` lines: the header, then
      one line per row, in order. */
  lemma OutputLines(board: Board, color: string, out: string)
    requires WarmerToAromatt(board, color) == Success(out)
    ensures Split(out, '\n') == [Header(|board|)] + Rows(CharsFor(color), board, 0).value
    ensures |Split(out, '\n')| == |board| + 1
  {
    var body := Rows(CharsFor(color), board, 0).value;
    assert out == Join("\n", [Header(|board|)] + body);
    HeaderHasNoNewline(|board|);
    BodyHasNoNewline(board, color);
    SplitFirstAndRest(Header(|board|), body, '\n');
  }

  lemma SplitFirstAndRest(first: string, rest: seq<string>, c: char)
    requires c !in first && forall k :: 0 <= k < |rest| ==> c !in rest[k]
    ensures Split(Join([c], [first] + rest), c) == [first] + rest
  {
    var all := [first] + rest;
    assert forall k :: 1 <= k < |all| ==> all[k] == rest[k - 1];
    SplitJoin(all, c);
  }

  lemma BodyHasNoNewline(board: Board, color: string)
    requires Rows(CharsFor(color), board, 0).Success?
    ensures forall k :: 0 <= k < |board| ==> '\n' !in Rows(CharsFor(color), board, 0).value[k]
  {
    var chars := CharsFor(color);
    BodyLines(chars, board);
    forall k | 0 <= k < |board|
      ensures '\n' !in Rows(chars, board, 0).value[k]
    {
      CellsAreTokens(color, board[k]);
      LineHasNoNewline(k, Cells(chars, board[k]).value);
    }
  }

  /** A body line's space-separated tokens are the row index and then one letter per
      cell; an empty row leaves a single empty token after the index. */
  lemma LineTokens(i: nat, cells: seq<string>)
    requires forall k :: 0 <= k < |cells| ==> CellToken(cells[k])
    ensures Split(Line(i, cells), ' ') == [NatToString(i)] + (if cells == [] then [""] else cells)
  {
    NonDigitNotInNumber(i, ' ');
    SplitAt(NatToString(i), ' ', Join(" ", cells));
    if cells != [] {
      SplitJoin(cells, ' ');
    }
  }

  // ---------------------------------------------------------------------------
  // Reading the format back

  /** The code a character stands for under the `color` setting. */
  function CodeOf(color: string, ch: char): (r: Option<int>)
    ensures r.Some? ==> r.value in CharsFor(color) && CharsFor(color)[r.value] == ch
  {
    if ch == '-' then Some(0)
    else if ch == '#' then Some(4)
    else if ch == 'r' then Some(if color == "blue" then 2 else 1)
    else if ch == 'b' then Some(if color == "blue" then 1 else 2)
    else None
  }

  /** Every tabled code reads back as itself. */
  lemma CodeOfChar(color: string, code: int)
    requires code in CharsFor(color)
    ensures CodeOf(color, CharsFor(color)[code]) == Some(code)
  {
  }

  function DecodeCells(color: string, tokens: seq<string>): Option<seq<int>>
  {
    if tokens == [] then Some([])
    else if |tokens[0]| != 1 || CodeOf(color, tokens[0][0]).None? then None
    else
      match DecodeCells(color, tokens[1..])
      case None => None
      case Some(rest) => Some([CodeOf(color, tokens[0][0]).value] + rest)
  }

  /** The codes of one body line; the leading index is skipped. An empty row prints
      as the index and a trailing space, which splits into a single empty token. */
  function DecodeRow(color: string, line: string): Option<seq<int>>
  {
    var tokens := Split(line, ' ')[1..];
    if tokens == [""] then Some([]) else DecodeCells(color, tokens)
  }

  function DecodeRows(color: string, lines: seq<string>): Option<Board>
  {
    if lines == [] then Some([])
    else
      match DecodeRow(color, lines[0])
      case None => None
      case Some(row) =>
        match DecodeRows(color, lines[1..])
        case None => None
        case Some(rest) => Some([row] + rest)
  }

  /** A reader for the format: the rows of codes below the header. */
  function Decode(color: string, out: string): Option<Board>
  {
    DecodeRows(color, Split(out, '\n')[1..])
  }

  lemma {:induction false} DecodeCellsOfRow(color: string, row: seq<int>)
    requires Cells(CharsFor(color), row).Success?
    ensures DecodeCells(color, Cells(CharsFor(color), row).value) == Some(row)
  {
    if row != [] {
      var chars := CharsFor(color);
      var cells := Cells(chars, row).value;
      assert cells[1..] == Cells(chars, row[1..]).value;
      DecodeCellsOfRow(color, row[1..]);
      CodeOfChar(color, row[0]);
      assert [row[0]] + row[1..] == row;
    }
  }

  lemma DecodeLine(color: string, i: nat, row: seq<int>)
    requires Cells(CharsFor(color), row).Success?
    ensures DecodeRow(color, Line(i, Cells(CharsFor(color), row).value)) == Some(row)
  {
    var cells := Cells(CharsFor(color), row).value;
    CellsAreTokens(color, row);
    LineTokens(i, cells);
    if row != [] {
      DecodeCellsOfRow(color, row);
    }
  }

  lemma {:induction false} DecodeBody(color: string, board: Board, i: nat)
    requires i <= |board| && Rows(CharsFor(color), board, i).Success?
    decreases |board| - i
    ensures DecodeRows(color, Rows(CharsFor(color), board, i).value) == Some(board[i..])
  {
    if i < |board| {
      var chars := CharsFor(color);
      var lines := Rows(chars, board, i).value;
      assert lines == [Line(i, Cells(chars, board[i]).value)] + Rows(chars, board, i + 1).value;
      assert lines[1..] == Rows(chars, board, i + 1).value;
      DecodeBody(color, board, i + 1);
      DecodeLine(color, i, board[i]);
      assert [board[i]] + board[i + 1..] == board[i..];
    } else {
      assert board[i..] == [];
      assert DecodeRows(color, []) == Some([]);
    }
  }

  /** Reading the output back gives the board. */
  lemma DecodeWarmerToAromatt(board: Board, color: string, out: string)
    requires WarmerToAromatt(board, color) == Success(out)
    ensures Decode(color, out) == Some(board)
  {
    OutputLines(board, color, out);
    assert Split(out, '\n')[1..] == Rows(CharsFor(color), board, 0).value;
    DecodeBody(color, board, 0);
    assert board[0..] == board;
  }

  // ---------------------------------------------------------------------------
  // Switching colour

  function SwapChar(ch: char): char
  {
    if ch == 'r' then 'b' else if ch == 'b' then 'r' else ch
  }

  /** `s` with every 'r' and 'b' exchanged and every other character kept. */
  function Swap(s: string): (t: string)
    ensures |t| == |s| && forall k :: 0 <= k < |s| ==> t[k] == SwapChar(s[k])
  {
    seq(|s|, k requires 0 <= k < |s| => SwapChar(s[k]))
  }

  lemma SwapConcat(a: string, b: string)
    ensures Swap(a + b) == Swap(a) + Swap(b)
  {
  }

  lemma SwapDigits(n: nat)
    ensures Swap(NatToString(n)) == NatToString(n)
  {
  }

  lemma {:induction false} SwapJoin(sep: string, parts: seq<string>, swapped: seq<string>)
    requires Swap(sep) == sep && |swapped| == |parts|
    requires forall k :: 0 <= k < |parts| ==> swapped[k] == Swap(parts[k])
    ensures Swap(Join(sep, parts)) == Join(sep, swapped)
  {
    if |parts| > 1 {
      SwapJoin(sep, parts[1..], swapped[1..]);
      SwapConcat(parts[0] + sep, Join(sep, parts[1..]));
      SwapConcat(parts[0], sep);
    }
  }

  lemma SwapHeader(size: nat)
    ensures Swap(Header(size)) == Header(size)
  {
    var indices := ColumnLabels(size);
    forall k | 0 <= k < size
      ensures indices[k] == Swap(indices[k])
    {
      SwapDigits(k);
    }
    SwapJoin(" ", indices, indices);
    SwapConcat("+ ", Join(" ", indices));
  }

  lemma SwapLine(i: nat, row: seq<int>)
    requires Cells(RED_CHARS, row).Success?
    ensures Cells(BLUE_CHARS, row).Success?
    ensures Swap(Line(i, Cells(RED_CHARS, row).value)) == Line(i, Cells(BLUE_CHARS, row).value)
  {
    CellsSucceed(RED_CHARS, row);
    CellsSucceed(BLUE_CHARS, row);
    var red := Cells(RED_CHARS, row).value;
    var blue := Cells(BLUE_CHARS, row).value;
    forall k | 0 <= k < |red|
      ensures blue[k] == Swap(red[k])
    {
    }
    SwapJoin(" ", red, blue);
    SwapDigits(i);
    SwapConcat(NatToString(i) + " ", Join(" ", red));
    SwapConcat(NatToString(i), " ");
  }

  /** Swap applied to each line. */
  function SwapAll(lines: seq<string>): (r: seq<string>)
    ensures |r| == |lines| && forall k :: 0 <= k < |lines| ==> r[k] == Swap(lines[k])
  {
    if lines == [] then [] else [Swap(lines[0])] + SwapAll(lines[1..])
  }

  lemma {:induction false} SwapRows(board: Board, i: nat)
    requires i <= |board| && Rows(RED_CHARS, board, i).Success?
    decreases |board| - i
    ensures Rows(BLUE_CHARS, board, i) == Success(SwapAll(Rows(RED_CHARS, board, i).value))
  {
    if i < |board| {
      SwapLine(i, board[i]);
      SwapRows(board, i + 1);
      var red := Rows(RED_CHARS, board, i).value;
      assert red == [Line(i, Cells(RED_CHARS, board[i]).value)] + Rows(RED_CHARS, board, i + 1).value;
      assert red[1..] == Rows(RED_CHARS, board, i + 1).value;
    }
  }

  /** The blue output is the red output with 'r' and 'b' exchanged; the header, the
      indices, '-', '#', the spaces and the newlines are the same, and so are the errors. */
  lemma BlueIsRedSwapped(board: Board)
    ensures var red := WarmerToAromatt(board, "red");
      var blue := WarmerToAromatt(board, "blue");
      (red.Failure? ==> blue == red) && (red.Success? ==> blue == Success(Swap(red.value)))
  {
    assert CharsFor("red") == RED_CHARS && CharsFor("blue") == BLUE_CHARS;
    assert RED_CHARS.Keys == BLUE_CHARS.Keys;
    forall row: seq<int>
      ensures Cells(RED_CHARS, row).Failure? ==> Cells(BLUE_CHARS, row) == Cells(RED_CHARS, row)
      ensures Cells(RED_CHARS, row).Success? <==> Cells(BLUE_CHARS, row).Success?
    {
      BlueFailsAlike(row);
    }
    var red := Rows(RED_CHARS, board, 0);
    if red.Success? {
      SwapRows(board, 0);
      var blue := Rows(BLUE_CHARS, board, 0).value;
      var all := [Header(|board|)] + red.value;
      var allBlue := [Header(|board|)] + blue;
      SwapHeader(|board|);
      assert forall k :: 0 <= k < |all| ==> allBlue[k] == Swap(all[k]);
      SwapJoin("\n", all, allBlue);
    } else {
      var x := RowsFailure(RED_CHARS, board, 0);
      RowsFirstFailure(RED_CHARS, board, 0, x);
      RowsFirstFailure(BLUE_CHARS, board, 0, x);
    }
  }

  /** The two tables have the same keys, so a row fails on the same code under both. */
  lemma {:induction false} BlueFailsAlike(row: seq<int>)
    ensures Cells(RED_CHARS, row).Failure? ==> Cells(BLUE_CHARS, row) == Cells(RED_CHARS, row)
    ensures Cells(RED_CHARS, row).Success? <==> Cells(BLUE_CHARS, row).Success?
  {
    if row != [] {
      BlueFailsAlike(row[1..]);
    }
  }
}
