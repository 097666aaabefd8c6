/** src/util.rs: board constants, bit probes, coordinates, players and the drain conversions. */
module Util {
  import opened Wrappers

  const BOARD_SIZE: nat := 8
  const BOARD_DIAG_SIZE: nat := BOARD_SIZE * 2 - 1

  /** A `u64` word, represented by the set of the positions of its set bits. */
  type U64 = w: set<nat> | forall p :: p in w ==> p < 64

  /** The all-ones word `!0`. */
  const ALL_ONES: U64 := set p: nat | p < 64

  /** `cmp::max` and `cmp::min`. */
  function Max(a: int, b: int): int
  {
    if a < b then b else a
  }

  function Min(a: int, b: int): int
  {
    if a < b then a else b
  }

  // ---------------------------------------------------------------------------
  // ctlz / cttz, specified from what they count

  /** Number of leading zeros of `x`, counting down from bit 63 and knowing that
      the top `k` bits are already zero. */
  function CtlzFrom(x: U64, k: nat): (n: nat)
    requires k <= 64
    requires forall i :: 64 - k <= i < 64 ==> i !in x
    ensures k <= n <= 64
    ensures forall i :: 64 - n <= i < 64 ==> i !in x
    ensures n < 64 ==> 63 - n in x
    decreases 64 - k
  {
    if k == 64 || 63 - k in x then k else CtlzFrom(x, k + 1)
  }

  /** The `ctlz` intrinsic on a `u64`: how many bits from the top are zero (64 for 0). */
  function Ctlz(x: U64): (n: nat)
    ensures n <= 64
    ensures forall i :: 64 - n <= i < 64 ==> i !in x
    ensures n < 64 ==> 63 - n in x
  {
    CtlzFrom(x, 0)
  }

  /** Number of trailing zeros of `x`, knowing that the low `k` bits are zero. */
  function CttzFrom(x: U64, k: nat): (n: nat)
    requires k <= 64
    requires forall i :: 0 <= i < k ==> i !in x
    ensures k <= n <= 64
    ensures forall i :: 0 <= i < n ==> i !in x
    ensures n < 64 ==> n in x
    decreases 64 - k
  {
    if k == 64 || k in x then k else CttzFrom(x, k + 1)
  }

  /** The `cttz` intrinsic on a `u64`: how many bits from the bottom are zero (64 for 0). */
  function Cttz(x: U64): (n: nat)
    ensures n <= 64
    ensures forall i :: 0 <= i < n ==> i !in x
    ensures n < 64 ==> n in x
  {
    CttzFrom(x, 0)
  }

  /** `leading_zero_idx`: the index, counted from the top, of the last leading zero bit;
      None when the top bit is set. */
  function LeadingZeroIdx(x: U64): (r: Option<nat>)
    ensures r.None? <==> 63 in x
    ensures r.Some? ==> r.value < 64
    ensures r.Some? ==> forall b :: 63 - r.value <= b <= 63 ==> b !in x
    ensures r.Some? && r.value < 63 ==> 62 - r.value in x
  {
    var i := Ctlz(x);
    if i > 0 then Some(i - 1) else None
  }

  /** `trailing_zero_idx`: the index of the last trailing zero bit; None when bit 0 is set. */
  function TrailingZeroIdx(x: U64): (r: Option<nat>)
    ensures r.None? <==> 0 in x
    ensures r.Some? ==> r.value < 64
    ensures r.Some? ==> forall b :: 0 <= b <= r.value ==> b !in x
    ensures r.Some? && r.value < 63 ==> r.value + 1 in x
  {
    var i := Cttz(x);
    if i > 0 then Some(i - 1) else None
  }

  /** The unit tests of `leading_zero_idx` and `trailing_zero_idx`. */
  lemma ZeroIdxExamples()
    ensures LeadingZeroIdx({}) == Some(63)
    ensures LeadingZeroIdx({0}) == Some(62)
    ensures LeadingZeroIdx(ALL_ONES) == None
    ensures LeadingZeroIdx({63}) == None
    ensures LeadingZeroIdx({61, 62}) == Some(0)
    ensures TrailingZeroIdx({}) == Some(63)
    ensures TrailingZeroIdx({0}) == None
    ensures TrailingZeroIdx(ALL_ONES) == None
    ensures TrailingZeroIdx({1}) == Some(0)
  {
    assert 63 in ALL_ONES && 0 in ALL_ONES;
  }

  // ---------------------------------------------------------------------------
  // Drain conversions

  /** `vec_to_set`: drains the vector into a set; the vector is left empty. */
  method VecToSet<T(==)>(vec: seq<T>) returns (result: set<T>, vecAfter: seq<T>)
    ensures result == set x | x in vec
    ensures vecAfter == []
  {
    result := {};
    var rest := vec;
    while rest != []
      invariant |rest| <= |vec| && rest == vec[|vec| - |rest|..]
      invariant forall x :: x in result <==> x in vec[..|vec| - |rest|]
      decreases |rest|
    {
      ghost var done := vec[..|vec| - |rest|];
      assert vec[..|vec| - |rest| + 1] == done + [rest[0]];
      result := result + {rest[0]};
      rest := rest[1..];
    }
    assert vec[..|vec|] == vec;
    vecAfter := rest;
  }

  /** `set_to_vec`: drains the set into a vector, in an unspecified order; every element
      appears exactly once and the set is left empty. */
  method SetToVec<T(==)>(s: set<T>) returns (result: seq<T>, setAfter: set<T>)
    ensures multiset(result) == multiset(s)
    ensures setAfter == {}
  {
    result := [];
    var rest := s;
    while rest != {}
      invariant rest <= s
      invariant multiset(result) + multiset(rest) == multiset(s)
      decreases |rest|
    {
      var m :| m in rest;
      assert multiset(rest) == multiset(rest - {m}) + multiset{m};
      result := result + [m];
      rest := rest - {m};
    }
    setAfter := rest;
  }

  // ---------------------------------------------------------------------------
  // Coordinates, rotation, players

  datatype Coord = Coord(row: nat, col: nat)

  /** `rotate_cw`: a quarter turn clockwise on a `size`-square board. */
  function RotateCw(size: nat, row: nat, col: nat): (r: (nat, nat))
    requires row < size
    ensures col < size ==> r.0 < size && r.1 < size
  {
    (col, size - row - 1)
  }

  /** Four quarter turns bring every cell back; a quarter turn is therefore a bijection. */
  lemma RotateCwFourTimes(size: nat, row: nat, col: nat)
    requires row < size && col < size
    ensures var (r1, c1) := RotateCw(size, row, col);
            var (r2, c2) := RotateCw(size, r1, c1);
            var (r3, c3) := RotateCw(size, r2, c2);
            RotateCw(size, r3, c3) == (row, col)
  {
  }

  lemma RotateCwInjective(size: nat, r1: nat, c1: nat, r2: nat, c2: nat)
    requires r1 < size && r2 < size
    requires RotateCw(size, r1, c1) == RotateCw(size, r2, c2)
    ensures r1 == r2 && c1 == c2
  {
  }

  datatype Piece = Red | Blue | Rock

  datatype Player = Red | Blue

  /** `Player::to_piece`: each player's own colour, never a rock. */
  function ToPiece(p: Player): (r: Piece)
    ensures r != Piece.Rock
    ensures r == Piece.Red <==> p == Player.Red
    ensures r == Piece.Blue <==> p == Player.Blue
  {
    match p
    case Red => Piece.Red
    case Blue => Piece.Blue
  }

  datatype Move = Move(row: nat, col: nat, player: Player)
}
