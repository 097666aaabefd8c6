/** web/get_board.py: the same ASCII board format as ConvertBoard, always with the
    red letters. */
module GetBoard {
  import opened Wrappers
  import opened Text
  import ConvertBoard

  /** The fixed character table of `warmer_to_aromatt`. */
  const CHARS: map<int, char> := map[0 := '-', 1 := 'r', 2 := 'b', 4 := '#']

  /** `warmer_to_aromatt(board)`. */
  method WarmerToAromatt(board: ConvertBoard.Board) returns (r: Result<string, ConvertBoard.KeyError>)
    ensures r == ConvertBoard.Render(CHARS, board)
  {
    r := ConvertBoard.RenderRows(CHARS, board);
  }

  /** The output is the one web/convert_board.py gives under the red colour setting. */
  lemma SameAsRed(board: ConvertBoard.Board)
    ensures ConvertBoard.Render(CHARS, board) == ConvertBoard.WarmerToAromatt(board, "red")
  {
    assert ConvertBoard.CharsFor("red") == CHARS;
  }

  /** `len(board) + 1` newline-separated lines: the column header, then one line per row. */
  lemma OutputLines(board: ConvertBoard.Board, out: string)
    requires ConvertBoard.Render(CHARS, board) == Success(out)
    ensures Split(out, '\n') == [ConvertBoard.Header(|board|)] + ConvertBoard.Rows(CHARS, board, 0).value
    ensures |Split(out, '\n')| == |board| + 1
  {
    SameAsRed(board);
    ConvertBoard.OutputLines(board, "red", out);
  }

  /** A cell code outside 0, 1, 2 and 4 makes the serialiser fail, and only that does. */
  lemma KeyErrorIffUnknownCode(board: ConvertBoard.Board)
    ensures ConvertBoard.Render(CHARS, board).Failure? <==>
      exists x, y :: 0 <= x < |board| && 0 <= y < |board[x]| && !ConvertBoard.Known(board[x][y])
  {
    SameAsRed(board);
    ConvertBoard.KeyErrorIffUnknownCode(board, "red");
  }
}
