/** src/board.rs: a square grid of spaces stored as a vector of rows. */
module Board {
  import opened Wrappers

  datatype Space = Empty | Red | Blue

  datatype Pos = Pos(x: nat, y: nat)

  class Board {
    const size: nat
    var spaces: seq<seq<Space>>

    /** `spaces` holds `size` rows of `size` spaces each. */
    ghost predicate Valid()
      reads this
    {
      |spaces| == size && forall x :: 0 <= x < |spaces| ==> |spaces[x]| == size
    }

    /** `Board::new`: every space starts Empty. */
    constructor (size: nat)
      ensures this.size == size && Valid()
      ensures forall x, y :: 0 <= x < size && 0 <= y < size ==> spaces[x][y] == Empty
    {
      this.size := size;
      var rows: seq<seq<Space>> := [];
      var i := 0;
      while i < size
        invariant i <= size && |rows| == i
        invariant forall x :: 0 <= x < i ==> rows[x] == EmptyRow(size)
      {
        var row := NewRow(size);
        rows := rows + [row];
        i := i + 1;
      }
      spaces := rows;
    }

    /** `Board::set`: writes the space when `p` is on the board and reports whether it did. */
    method Set(p: Pos, val: Space) returns (ok: bool)
      requires Valid()
      modifies this
      ensures Valid()
      ensures ok <==> p.x < size && p.y < size
      ensures ok ==> spaces == old(spaces)[p.x := old(spaces)[p.x][p.y := val]]
      ensures !ok ==> spaces == old(spaces)
      ensures ok ==> Get(p) == Some(val)
      ensures forall q: Pos :: q != p ==> Get(q) == old(Get(q))
    {
      if p.x < size && p.y < size {
        spaces := spaces[p.x := spaces[p.x][p.y := val]];
        ok := true;
      } else {
        ok := false;
      }
    }

    /** `Board::get`: the space at `p`, or None when either index is past the end of its vector. */
    function Get(p: Pos): (r: Option<Space>)
      reads this
      ensures Valid() ==> (r.Some? <==> p.x < size && p.y < size)
      ensures r.Some? ==> p.x < |spaces| && p.y < |spaces[p.x]| && r.value == spaces[p.x][p.y]
    {
      if p.x < |spaces| && p.y < |spaces[p.x]| then Some(spaces[p.x][p.y]) else None
    }
  }

  function EmptyRow(size: nat): (row: seq<Space>)
    ensures |row| == size && forall y :: 0 <= y < size ==> row[y] == Empty
  {
    seq(size, _ => Empty)
  }

  /** The inner `for` loop of `Board::new`: `size` pushes of Empty. */
  method NewRow(size: nat) returns (row: seq<Space>)
    ensures row == EmptyRow(size)
  {
    row := [];
    var j := 0;
    while j < size
      invariant j <= size && row == EmptyRow(j)
    {
      row := row + [Empty];
      j := j + 1;
    }
  }

  /** The three unit tests of src/board.rs. */
  method BoardTests()
  {
    var b := new Board(5);
    var ok := b.Set(Pos(1, 1), Red);
    assert b.Get(Pos(1, 1)) == Some(Red);
    ok := b.Set(Pos(1, 1), Blue);
    assert b.Get(Pos(1, 1)) == Some(Blue);
    assert b.Get(Pos(1, 6)) == None;
    var untouched := new Board(5);
    assert untouched.Get(Pos(1, 6)) == None;
  }
}
