/** src/minimax.rs: depth-limited alpha-beta search over an abstract game. */
module Minimax {
  import opened Wrappers
  import opened Util

  const I32_MIN: int := -0x8000_0000
  const I32_MAX: int := 0x7fff_ffff

  /** An `i32`. The search only compares and copies scores, so none of them can wrap. */
  type I32 = x: int | I32_MIN <= x <= I32_MAX

  /** The `Game` trait: move generation, static evaluation (for the side named by
      `my_turn`), successor state and the end-of-game test. */
  datatype Game<!S, !M> = Game(
    getMoves: S -> seq<M>,
    eval: (S, bool) -> I32,
    apply: (S, M) -> S,
    gameover: S -> bool)

  /** The three conditions, tested in this order, under which `min_max` scores a
      state without looking at its children. */
  predicate IsLeaf<S, M>(g: Game<S, M>, depth: nat, s: S)
  {
    depth == 0 || g.gameover(s) || |g.getMoves(s)| == 0
  }

  /** `max(lo, min(x, hi))`: the part of a score that a search window `(lo, hi)` can see. */
  function Clamp(x: int, lo: int, hi: int): int
  {
    Max(lo, Min(x, hi))
  }

  // ---------------------------------------------------------------------------
  // Reference: plain depth-limited minimax

  /** `acc` combined by max (or by min on a minimising ply) with every element of `vs`. */
  function Fold(doMin: bool, acc: int, vs: seq<int>): int
    decreases |vs|
  {
    if vs == [] then acc
    else Fold(doMin, if doMin then Min(acc, vs[0]) else Max(acc, vs[0]), vs[1..])
  }

  /** The fold is the extremum: on the right side of `acc` and of every element,
      and equal to one of them. */
  lemma {:induction false} FoldBounds(doMin: bool, acc: int, vs: seq<int>)
    decreases |vs|
    ensures var r := Fold(doMin, acc, vs);
      (forall k :: 0 <= k < |vs| ==> if doMin then r <= vs[k] else vs[k] <= r) &&
      (if doMin then r <= acc else acc <= r) &&
      (r == acc || exists k :: 0 <= k < |vs| && r == vs[k])
  {
    if vs != [] {
      var acc' := if doMin then Min(acc, vs[0]) else Max(acc, vs[0]);
      FoldBounds(doMin, acc', vs[1..]);
      var r := Fold(doMin, acc, vs);
      if r != acc' {
        var k :| 0 <= k < |vs[1..]| && r == vs[1..][k];
        assert r == vs[k + 1];
      }
      forall k | 0 <= k < |vs|
        ensures if doMin then r <= vs[k] else vs[k] <= r
      {
        if k > 0 {
          assert vs[k] == vs[1..][k - 1];
        }
      }
    }
  }

  /** The minimax value of `s` searched `depth` plies deep, with `doMin` saying
      whether the side to move minimises. */
  function Value<S, M>(g: Game<S, M>, depth: nat, s: S, doMin: bool): int
    decreases depth, 0
  {
    if IsLeaf(g, depth, s) then g.eval(s, doMin)
    else
      var vs := ChildValues(g, depth - 1, s, !doMin, g.getMoves(s), 0);
      Fold(doMin, vs[0], vs[1..])
  }

  /** The minimax values, `d` plies deep, of the children of `s` reached by `ms[i..]`. */
  function ChildValues<S, M>(g: Game<S, M>, d: nat, s: S, doMin: bool, ms: seq<M>, i: nat): (vs: seq<int>)
    requires i <= |ms|
    decreases d, 1, |ms| - i
    ensures |vs| == |ms| - i
  {
    if i == |ms| then [] else [Value(g, d, g.apply(s, ms[i]), doMin)] + ChildValues(g, d, s, doMin, ms, i + 1)
  }

  /** Entry `k` of ChildValues is the value of the child reached by `ms[i + k]`. */
  lemma {:induction false} ChildValueAt<S, M>(g: Game<S, M>, d: nat, s: S, doMin: bool, ms: seq<M>, i: nat, k: nat)
    requires i + k < |ms|
    decreases k
    ensures ChildValues(g, d, s, doMin, ms, i)[k] == Value(g, d, g.apply(s, ms[i + k]), doMin)
  {
    if k > 0 {
      ChildValueAt(g, d, s, doMin, ms, i + 1, k - 1);
    }
  }

  /** Every minimax value is an `i32`: it is one of the static evaluations. */
  lemma {:induction false} ValueBounded<S, M>(g: Game<S, M>, depth: nat, s: S, doMin: bool)
    decreases depth, 0
    ensures I32_MIN <= Value(g, depth, s, doMin) <= I32_MAX
  {
    if !IsLeaf(g, depth, s) {
      var vs := ChildValues(g, depth - 1, s, !doMin, g.getMoves(s), 0);
      ChildValuesBounded(g, depth - 1, s, !doMin, g.getMoves(s), 0);
      FoldBounds(doMin, vs[0], vs[1..]);
      assert Value(g, depth, s, doMin) == Fold(doMin, vs[0], vs[1..]);
      if Value(g, depth, s, doMin) != vs[0] {
        var k :| 0 <= k < |vs[1..]| && Value(g, depth, s, doMin) == vs[1..][k];
        assert vs[1..][k] == vs[k + 1];
      }
    }
  }

  lemma {:induction false} ChildValuesBounded<S, M>(g: Game<S, M>, d: nat, s: S, doMin: bool, ms: seq<M>, i: nat)
    requires i <= |ms|
    decreases d, 1, |ms| - i
    ensures forall j :: 0 <= j < |ms| - i ==> I32_MIN <= ChildValues(g, d, s, doMin, ms, i)[j] <= I32_MAX
  {
    if i < |ms| {
      ValueBounded(g, d, g.apply(s, ms[i]), doMin);
      ChildValuesBounded(g, d, s, doMin, ms, i + 1);
      var vs := ChildValues(g, d, s, doMin, ms, i);
      forall j | 0 <= j < |vs|
        ensures I32_MIN <= vs[j] <= I32_MAX
      {
        if j > 0 {
          assert vs[j] == ChildValues(g, d, s, doMin, ms, i + 1)[j - 1];
        }
      }
    }
  }

  // ---------------------------------------------------------------------------
  // The search as written, as a function

  /** What `min_max(depth, game, s, doMin, a, b)` returns. */
  function AlphaBeta<S, M(==)>(g: Game<S, M>, depth: nat, s: S, doMin: bool, a: int, b: int): (r: (Option<M>, int))
    decreases depth, 1
    ensures IsLeaf(g, depth, s) ==> r == (None, g.eval(s, doMin) as int)
    ensures !IsLeaf(g, depth, s) ==> r.0.Some? && r.0.value in g.getMoves(s)
    ensures I32_MIN <= r.1 <= I32_MAX
  {
    if IsLeaf(g, depth, s) then (None, g.eval(s, doMin) as int)
    else Scan(g, depth, s, doMin, g.getMoves(s), 0, None, I32_MIN, a, b)
  }

  /** The `for` loop of `min_max` from move `ms[i]` on, with `bestMv`, `bestV`, `a`
      and `b` as they stand before that move. The first child is taken as it comes:
      it neither narrows the window nor is tested for a cut-off. Later children
      replace the best only when strictly better, then narrow the window on the
      side of the player to move and stop the loop once `b <= a`. */
  function Scan<S, M(==)>(g: Game<S, M>, depth: nat, s: S, doMin: bool, ms: seq<M>, i: nat,
                          bestMv: Option<M>, bestV: int, a: int, b: int): (r: (Option<M>, int))
    requires 1 <= depth && i <= |ms|
    decreases depth, 0, |ms| - i
    ensures bestMv.Some? || i < |ms| ==> r.0.Some?
    ensures r.0 == bestMv || (r.0.Some? && r.0.value in ms[i..])
    ensures I32_MIN <= bestV <= I32_MAX ==> I32_MIN <= r.1 <= I32_MAX
  {
    if i == |ms| then (bestMv, bestV)
    else
      var mv := ms[i];
      var childV := AlphaBeta(g, depth - 1, g.apply(s, mv), !doMin, a, b).1;
      if bestMv.None? then
        Scan(g, depth, s, doMin, ms, i + 1, Some(mv), childV, a, b)
      else if !doMin then
        var better := childV > bestV;
        var mv' := if better then Some(mv) else bestMv;
        var v' := if better then childV else bestV;
        var a' := Max(a, v');
        if b <= a' then (mv', v') else Scan(g, depth, s, doMin, ms, i + 1, mv', v', a', b)
      else
        var better := childV < bestV;
        var mv' := if better then Some(mv) else bestMv;
        var v' := if better then childV else bestV;
        var b' := Min(b, v');
        if b' <= a then (mv', v') else Scan(g, depth, s, doMin, ms, i + 1, mv', v', a, b')
  }

  // ---------------------------------------------------------------------------
  // The search as written, as code

  /** `Minimax::min_max`. */
  method MinMax<S, M(==)>(depth: nat, g: Game<S, M>, root: S, doMin: bool, a0: I32, b0: I32)
    returns (mv: Option<M>, v: I32)
    decreases depth
    ensures (mv, v as int) == AlphaBeta(g, depth, root, doMin, a0, b0)
    ensures a0 < b0 ==> Clamp(v, a0, b0) == Clamp(Value(g, depth, root, doMin), a0, b0)
  {
    if depth == 0 {
      return None, g.eval(root, doMin);
    }
    if g.gameover(root) {
      return None, g.eval(root, doMin);
    }
    var moves := g.getMoves(root);
    if |moves| == 0 {
      return None, g.eval(root, doMin);
    }
    var a: I32, b: I32 := a0, b0;
    var bestMv: Option<M> := None;
    var bestV: I32 := I32_MIN;
    var i := 0;
    while i < |moves|
      invariant i <= |moves|
      invariant i > 0 ==> bestMv.Some?
      invariant Scan(g, depth, root, doMin, moves, i, bestMv, bestV, a, b) == AlphaBeta(g, depth, root, doMin, a0, b0)
    {
      var m := moves[i];
      var child := g.apply(root, m);
      var _, childV := MinMax(depth - 1, g, child, !doMin, a, b);
      if bestMv.None? {
        bestMv := Some(m);
        bestV := childV;
        i := i + 1;
        continue;
      }
      if !doMin {
        if childV > bestV {
          bestV := childV;
          bestMv := Some(m);
        }
        a := Max(a, bestV);
        if b <= a {
          assert (bestMv, bestV as int) == AlphaBeta(g, depth, root, doMin, a0, b0);
          break;
        }
      } else {
        if childV < bestV {
          bestV := childV;
          bestMv := Some(m);
        }
        b := Min(b, bestV);
        if b <= a {
          assert (bestMv, bestV as int) == AlphaBeta(g, depth, root, doMin, a0, b0);
          break;
        }
      }
      i := i + 1;
    }
    // best_mv.expect("no moves?") cannot fail: the loop saw at least one move.
    assert bestMv.Some?;
    mv, v := bestMv, bestV;
    if a0 < b0 {
      AlphaBetaSound(g, depth, root, doMin, a0, b0);
    }
  }

  /** `Minimax::best_move`: the maximiser's move at the root with the full `i32`
      window, or None where the source panics with "no moves". */
  method BestMove<S, M(==)>(depth: nat, g: Game<S, M>, root: S) returns (r: Option<M>)
    ensures r.None? <==> IsLeaf(g, depth, root)
    ensures r.Some? ==>
      var ms := g.getMoves(root);
      var vs := ChildValues(g, depth - 1, root, true, ms, 0);
      exists k: nat :: IsFirstMax(vs, |ms|, k) && r.value == ms[k] && vs[k] == Value(g, depth, root, false)
  {
    var mv, _ := MinMax(depth, g, root, false, I32_MIN, I32_MAX);
    r := mv;
    if !IsLeaf(g, depth, root) {
      var k := FirstBestMove(g, depth, root);
    }
  }

  // ---------------------------------------------------------------------------
  // Soundness of the pruning

  /** With any window `a < b`, the pruned score agrees with the minimax value
      wherever the window can tell them apart: they are equal strictly inside it,
      and on the same side of it otherwise. */
  lemma {:induction false} AlphaBetaSound<S, M>(g: Game<S, M>, depth: nat, s: S, doMin: bool, a: int, b: int)
    requires a < b
    decreases depth, 1
    ensures Clamp(AlphaBeta(g, depth, s, doMin, a, b).1, a, b) == Clamp(Value(g, depth, s, doMin), a, b)
  {
    if !IsLeaf(g, depth, s) {
      var ms := g.getMoves(s);
      ScanSound(g, depth, s, doMin, ms, 0, None, I32_MIN, a, b, a, b, 0);
    }
  }

  /** The invariant of the loop: `bestV` stands for the exact extremum `best` of the
      children seen so far, as far as the node's window `(a0, b0)` can tell, and the
      current window `(a, b)` lies inside the node's window and on the near side of
      `bestV`. */
  ghost predicate ScanInvariant(doMin: bool, bestV: int, best: int, a: int, b: int, a0: int, b0: int)
  {
    a < b && Clamp(bestV, a0, b0) == Clamp(best, a0, b0) &&
    if doMin then a == a0 && b <= b0 && Clamp(bestV, a0, b0) <= b
    else b == b0 && a0 <= a && a <= Clamp(bestV, a0, b0)
  }

  lemma {:induction false} ScanSound<S, M>(g: Game<S, M>, depth: nat, s: S, doMin: bool, ms: seq<M>, i: nat,
                                           bestMv: Option<M>, bestV: int, a: int, b: int, a0: int, b0: int, best: int)
    requires 1 <= depth && i <= |ms|
    requires bestMv.None? ==> i < |ms| && a == a0 && b == b0 && a0 < b0
    requires bestMv.Some? ==> ScanInvariant(doMin, bestV, best, a, b, a0, b0)
    decreases depth, 0, |ms| - i, 1
    ensures var vs := ChildValues(g, depth - 1, s, !doMin, ms, i);
      var target := if bestMv.None? then Fold(doMin, vs[0], vs[1..]) else Fold(doMin, best, vs);
      Clamp(Scan(g, depth, s, doMin, ms, i, bestMv, bestV, a, b).1, a0, b0) == Clamp(target, a0, b0)
  {
    if i == |ms| {
    } else if bestMv.Some? && !doMin {
      MaxPlySound(g, depth, s, ms, i, bestMv, bestV, a, b, a0, b0, best);
    } else if bestMv.Some? {
      MinPlySound(g, depth, s, ms, i, bestMv, bestV, a, b, a0, b0, best);
    } else {
      var vs := ChildValues(g, depth - 1, s, !doMin, ms, i);
      assert vs[1..] == ChildValues(g, depth - 1, s, !doMin, ms, i + 1);
      var child := g.apply(s, ms[i]);
      var childV := AlphaBeta(g, depth - 1, child, !doMin, a, b).1;
      var exact := Value(g, depth - 1, child, !doMin);
      assert exact == vs[0];
      AlphaBetaSound(g, depth - 1, child, !doMin, a, b);
      FirstChildStep(doMin, childV, exact, a0, b0);
      assert Scan(g, depth, s, doMin, ms, i, bestMv, bestV, a, b) ==
        Scan(g, depth, s, doMin, ms, i + 1, Some(ms[i]), childV, a, b);
      ScanSound(g, depth, s, doMin, ms, i + 1, Some(ms[i]), childV, a, b, a0, b0, exact);
    }
  }

  /** ScanSound for a later child on a maximising ply. */
  lemma {:induction false} MaxPlySound<S, M>(g: Game<S, M>, depth: nat, s: S, ms: seq<M>, i: nat,
                                             bestMv: Option<M>, bestV: int, a: int, b: int, a0: int, b0: int, best: int)
    requires 1 <= depth && i < |ms| && bestMv.Some?
    requires ScanInvariant(false, bestV, best, a, b, a0, b0)
    decreases depth, 0, |ms| - i, 0
    ensures var vs := ChildValues(g, depth - 1, s, true, ms, i);
      Clamp(Scan(g, depth, s, false, ms, i, bestMv, bestV, a, b).1, a0, b0) == Clamp(Fold(false, best, vs), a0, b0)
  {
    var vs := ChildValues(g, depth - 1, s, true, ms, i);
    var rest := ChildValues(g, depth - 1, s, true, ms, i + 1);
    assert vs[1..] == rest;
    var child := g.apply(s, ms[i]);
    var childV := AlphaBeta(g, depth - 1, child, true, a, b).1;
    var exact := Value(g, depth - 1, child, true);
    assert exact == vs[0];
    AlphaBetaSound(g, depth - 1, child, true, a, b);
    var mv' := if childV > bestV then Some(ms[i]) else bestMv;
    var v' := if childV > bestV then childV else bestV;
    var best' := Max(best, exact);
    var a' := Max(a, v');
    MaxPlyStep(bestV, best, a, b, a0, b0, childV, exact);
    assert Fold(false, best, vs) == Fold(false, best', rest);
    assert Scan(g, depth, s, false, ms, i, bestMv, bestV, a, b) ==
      if b <= a' then (mv', v') else Scan(g, depth, s, false, ms, i + 1, mv', v', a', b);
    if a' < b {
      ScanSound(g, depth, s, false, ms, i + 1, mv', v', a', b, a0, b0, best');
    } else {
      FoldBounds(false, best', rest);
    }
  }

  /** ScanSound for a later child on a minimising ply. */
  lemma {:induction false} MinPlySound<S, M>(g: Game<S, M>, depth: nat, s: S, ms: seq<M>, i: nat,
                                             bestMv: Option<M>, bestV: int, a: int, b: int, a0: int, b0: int, best: int)
    requires 1 <= depth && i < |ms| && bestMv.Some?
    requires ScanInvariant(true, bestV, best, a, b, a0, b0)
    decreases depth, 0, |ms| - i, 0
    ensures var vs := ChildValues(g, depth - 1, s, false, ms, i);
      Clamp(Scan(g, depth, s, true, ms, i, bestMv, bestV, a, b).1, a0, b0) == Clamp(Fold(true, best, vs), a0, b0)
  {
    var vs := ChildValues(g, depth - 1, s, false, ms, i);
    var rest := ChildValues(g, depth - 1, s, false, ms, i + 1);
    assert vs[1..] == rest;
    var child := g.apply(s, ms[i]);
    var childV := AlphaBeta(g, depth - 1, child, false, a, b).1;
    var exact := Value(g, depth - 1, child, false);
    assert exact == vs[0];
    AlphaBetaSound(g, depth - 1, child, false, a, b);
    var mv' := if childV < bestV then Some(ms[i]) else bestMv;
    var v' := if childV < bestV then childV else bestV;
    var best' := Min(best, exact);
    var b' := Min(b, v');
    MinPlyStep(bestV, best, a, b, a0, b0, childV, exact);
    assert Fold(true, best, vs) == Fold(true, best', rest);
    assert Scan(g, depth, s, true, ms, i, bestMv, bestV, a, b) ==
      if b' <= a then (mv', v') else Scan(g, depth, s, true, ms, i + 1, mv', v', a, b');
    if a < b' {
      ScanSound(g, depth, s, true, ms, i + 1, mv', v', a, b', a0, b0, best');
    } else {
      FoldBounds(true, best', rest);
    }
  }

  /** The first child, searched with the node's own window, starts the invariant. */
  lemma FirstChildStep(doMin: bool, childV: int, exact: int, a0: int, b0: int)
    requires a0 < b0 && Clamp(childV, a0, b0) == Clamp(exact, a0, b0)
    ensures ScanInvariant(doMin, childV, exact, a0, b0, a0, b0)
  {
  }

  /** One later child on a maximising ply: either the raised `a` meets `b`, and then
      the exact maximum already reaches `b0`, or the invariant carries over. */
  lemma MaxPlyStep(bestV: int, best: int, a: int, b: int, a0: int, b0: int, childV: int, exact: int)
    requires ScanInvariant(false, bestV, best, a, b, a0, b0)
    requires Clamp(childV, a, b) == Clamp(exact, a, b)
    ensures var v' := if childV > bestV then childV else bestV;
      var a' := Max(a, v');
      var best' := Max(best, exact);
      Clamp(v', a0, b0) == Clamp(best', a0, b0) &&
      (b <= a' ==> b0 <= best' && b0 <= v') &&
      (a' < b ==> ScanInvariant(false, v', best', a', b, a0, b0))
  {
  }

  /** One later child on a minimising ply, the mirror image of MaxPlyStep. */
  lemma MinPlyStep(bestV: int, best: int, a: int, b: int, a0: int, b0: int, childV: int, exact: int)
    requires ScanInvariant(true, bestV, best, a, b, a0, b0)
    requires Clamp(childV, a, b) == Clamp(exact, a, b)
    ensures var v' := if childV < bestV then childV else bestV;
      var b' := Min(b, v');
      var best' := Min(best, exact);
      Clamp(v', a0, b0) == Clamp(best', a0, b0) &&
      (b' <= a ==> best' <= a0 && v' <= a0) &&
      (a < b' ==> ScanInvariant(true, v', best', a, b', a0, b0))
  {
  }

  /** With the full `i32` window the pruned score is the minimax value. */
  lemma FullWindowExact<S, M>(g: Game<S, M>, depth: nat, s: S, doMin: bool)
    ensures AlphaBeta(g, depth, s, doMin, I32_MIN, I32_MAX).1 == Value(g, depth, s, doMin)
  {
    AlphaBetaSound(g, depth, s, doMin, I32_MIN, I32_MAX);
    ValueBounded(g, depth, s, doMin);
  }

  // ---------------------------------------------------------------------------
  // The score returned is the chosen child's score

  /** The loop keeps `bestV` equal to what the search returned for the child of
      `bestMv`, searched with some window inside the original one; so does its result. */
  lemma {:induction false} ScanChildScore<S, M>(g: Game<S, M>, depth: nat, s: S, doMin: bool, ms: seq<M>, i: nat,
                                                bestMv: Option<M>, bestV: int, a: int, b: int,
                                                a0: int, b0: int, wa: int, wb: int) returns (ra: int, rb: int)
    requires 1 <= depth && i <= |ms| && (bestMv.Some? || i < |ms|)
    requires a0 <= a && b <= b0
    requires bestMv.Some? ==>
      a0 <= wa && wb <= b0 && bestV == AlphaBeta(g, depth - 1, g.apply(s, bestMv.value), !doMin, wa, wb).1
    decreases |ms| - i
    ensures var r := Scan(g, depth, s, doMin, ms, i, bestMv, bestV, a, b);
      r.0.Some? && a0 <= ra && rb <= b0 && r.1 == AlphaBeta(g, depth - 1, g.apply(s, r.0.value), !doMin, ra, rb).1
  {
    if i == |ms| {
      ra, rb := wa, wb;
    } else {
      var mv := ms[i];
      var childV := AlphaBeta(g, depth - 1, g.apply(s, mv), !doMin, a, b).1;
      if bestMv.None? {
        ra, rb := ScanChildScore(g, depth, s, doMin, ms, i + 1, Some(mv), childV, a, b, a0, b0, a, b);
      } else {
        var better := if doMin then childV < bestV else childV > bestV;
        var mv' := if better then Some(mv) else bestMv;
        var v' := if better then childV else bestV;
        var wa', wb' := if better then a else wa, if better then b else wb;
        var a', b' := if doMin then a else Max(a, v'), if doMin then Min(b, v') else b;
        if b' <= a' {
          ra, rb := wa', wb';
        } else {
          ra, rb := ScanChildScore(g, depth, s, doMin, ms, i + 1, mv', v', a', b', a0, b0, wa', wb');
        }
      }
    }
  }

  /** Away from the leaves, `min_max` returns a move of the state together with the
      score that the search returned for that move's child, one ply down with the
      roles swapped and with a window inside `(a, b)`. */
  lemma ChosenMoveScore<S, M>(g: Game<S, M>, depth: nat, s: S, doMin: bool, a: int, b: int) returns (ca: int, cb: int)
    requires !IsLeaf(g, depth, s)
    ensures var r := AlphaBeta(g, depth, s, doMin, a, b);
      r.0.Some? && r.0.value in g.getMoves(s) && a <= ca && cb <= b &&
      r.1 == AlphaBeta(g, depth - 1, g.apply(s, r.0.value), !doMin, ca, cb).1
  {
    ca, cb := ScanChildScore(g, depth, s, doMin, g.getMoves(s), 0, None, I32_MIN, a, b, a, b, a, b);
  }

  // ---------------------------------------------------------------------------
  // The move chosen at the root

  /** `vs[k]` is the largest of `vs[..n]` and no earlier element reaches it. */
  predicate IsFirstMax(vs: seq<int>, n: nat, k: nat)
  {
    k < n <= |vs| && (forall j :: 0 <= j < n ==> vs[j] <= vs[k]) && (forall j :: 0 <= j < k ==> vs[j] < vs[k])
  }

  /** Extending the prefix by one element keeps the earliest maximum, or moves it to
      the new element when that one is strictly larger. */
  lemma FirstMaxStep(vs: seq<int>, i: nat, k: nat)
    requires IsFirstMax(vs, i, k) && i < |vs|
    ensures vs[i] > vs[k] ==> IsFirstMax(vs, i + 1, i)
    ensures vs[i] <= vs[k] ==> IsFirstMax(vs, i + 1, k)
  {
  }

  /** An earliest maximum that reaches an upper bound of the whole sequence is the
      earliest maximum of all of it. */
  lemma FirstMaxAtBound(vs: seq<int>, i: nat, k: nat, hi: int)
    requires IsFirstMax(vs, i, k) && vs[k] == hi
    requires forall j :: 0 <= j < |vs| ==> vs[j] <= hi
    ensures IsFirstMax(vs, |vs|, k)
  {
  }

  /** The loop at a maximising root searched with `(i32::MIN, i32::MAX)`: once the
      first child has been taken, `bestV` is the exact maximum of the children seen
      and `bestMv` the earliest child reaching it. */
  lemma {:induction false} RootScan<S, M>(g: Game<S, M>, depth: nat, s: S, ms: seq<M>, i: nat, k: nat,
                                          bestV: int, a: int) returns (k': nat)
    requires 1 <= depth && i <= |ms|
    requires var vs := ChildValues(g, depth - 1, s, true, ms, 0); IsFirstMax(vs, i, k) && bestV == vs[k]
    requires I32_MIN <= a <= bestV && a < I32_MAX
    decreases |ms| - i
    ensures var vs := ChildValues(g, depth - 1, s, true, ms, 0);
      IsFirstMax(vs, |ms|, k') && Scan(g, depth, s, false, ms, i, Some(ms[k]), bestV, a, I32_MAX) == (Some(ms[k']), vs[k'])
  {
    if i == |ms| {
      return k;
    }
    var next, v', a' := RootStep(g, depth, s, ms, i, k, bestV, a);
    if I32_MAX <= a' {
      k' := next;
    } else {
      k' := RootScan(g, depth, s, ms, i + 1, next, v', a');
    }
  }

  /** One iteration of the root loop: the child at `i` replaces the best exactly
      when its minimax value is strictly larger, and a cut-off happens only once the
      best has reached `i32::MAX`, which no later child can beat. */
  lemma RootStep<S, M>(g: Game<S, M>, depth: nat, s: S, ms: seq<M>, i: nat, k: nat, bestV: int, a: int)
    returns (next: nat, v': int, a': int)
    requires 1 <= depth && i < |ms|
    requires var vs := ChildValues(g, depth - 1, s, true, ms, 0); IsFirstMax(vs, i, k) && bestV == vs[k]
    requires I32_MIN <= a <= bestV && a < I32_MAX
    ensures var vs := ChildValues(g, depth - 1, s, true, ms, 0);
      IsFirstMax(vs, i + 1, next) && v' == vs[next] && I32_MIN <= a' <= v' &&
      (I32_MAX <= a' ==> IsFirstMax(vs, |ms|, next)) &&
      Scan(g, depth, s, false, ms, i, Some(ms[k]), bestV, a, I32_MAX) ==
        if I32_MAX <= a' then (Some(ms[next]), v') else Scan(g, depth, s, false, ms, i + 1, Some(ms[next]), v', a', I32_MAX)
  {
    var vs := ChildValues(g, depth - 1, s, true, ms, 0);
    var child := g.apply(s, ms[i]);
    var childV := AlphaBeta(g, depth - 1, child, true, a, I32_MAX).1;
    var exact := Value(g, depth - 1, child, true);
    ChildValueAt(g, depth - 1, s, true, ms, 0, i);
    ChildValuesBounded(g, depth - 1, s, true, ms, 0);
    AlphaBetaSound(g, depth - 1, child, true, a, I32_MAX);
    RootCompare(bestV, a, childV, exact);
    FirstMaxStep(vs, i, k);
    next := if childV > bestV then i else k;
    v' := if childV > bestV then childV else bestV;
    a' := Max(a, v');
    assert v' == vs[next];
    if I32_MAX <= a' {
      FirstMaxAtBound(vs, i + 1, next, I32_MAX);
    }
  }

  /** A child searched with `(a, i32::MAX)`, `a <= bestV`, beats `bestV` exactly
      when its minimax value does, and then the score is that value. */
  lemma RootCompare(bestV: int, a: int, childV: int, exact: int)
    requires I32_MIN <= a <= bestV <= I32_MAX && a < I32_MAX
    requires I32_MIN <= childV <= I32_MAX && I32_MIN <= exact <= I32_MAX
    requires Clamp(childV, a, I32_MAX) == Clamp(exact, a, I32_MAX)
    ensures childV > bestV <==> exact > bestV
    ensures childV > bestV ==> childV == exact
  {
  }

  /** `best_move` returns the earliest root move whose child has the largest minimax
      value, and that value is the root's. */
  lemma FirstBestMove<S, M>(g: Game<S, M>, depth: nat, s: S) returns (k: nat)
    requires !IsLeaf(g, depth, s)
    ensures var ms := g.getMoves(s);
      var vs := ChildValues(g, depth - 1, s, true, ms, 0);
      IsFirstMax(vs, |ms|, k) && AlphaBeta(g, depth, s, false, I32_MIN, I32_MAX).0 == Some(ms[k]) &&
      vs[k] == Value(g, depth, s, false)
  {
    var ms := g.getMoves(s);
    var vs := ChildValues(g, depth - 1, s, true, ms, 0);
    var child := g.apply(s, ms[0]);
    var childV := AlphaBeta(g, depth - 1, child, true, I32_MIN, I32_MAX).1;
    FullWindowExact(g, depth - 1, child, true);
    assert childV == vs[0];
    assert AlphaBeta(g, depth, s, false, I32_MIN, I32_MAX) == Scan(g, depth, s, false, ms, 0, None, I32_MIN, I32_MIN, I32_MAX);
    assert Scan(g, depth, s, false, ms, 0, None, I32_MIN, I32_MIN, I32_MAX) ==
      Scan(g, depth, s, false, ms, 1, Some(ms[0]), childV, I32_MIN, I32_MAX);
    assert IsFirstMax(vs, 1, 0);
    k := RootScan(g, depth, s, ms, 1, 0, childV, I32_MIN);
    FullWindowExact(g, depth, s, false);
  }

  // ---------------------------------------------------------------------------
  // The first child is never cut off

  /** A two-move root whose children score 5 and 7. */
  function QuirkGame(): Game<nat, nat>
  {
    Game(s => if s == 0 then [1, 2] else [], (s, myTurn) => if s == 1 then 5 else if s == 2 then 7 else 0,
         (s, m) => m, s => false)
  }

  /** Searched with the window (0, 1), the first child already scores 5 >= b, a
      cut-off in textbook alpha-beta, which would return the first move. Here the
      second child is still searched and, being better, is returned. */
  lemma FirstChildNoCutoff()
    ensures AlphaBeta(QuirkGame(), 1, 0, false, 0, 1) == (Some(2), 7)
  {
    var g := QuirkGame();
    assert g.getMoves(0) == [1, 2];
    assert AlphaBeta(g, 0, 1, true, 0, 1) == (None, 5);
    assert AlphaBeta(g, 0, 2, true, 0, 1) == (None, 7);
    assert Scan(g, 1, 0, false, [1, 2], 1, Some(1), 5, 0, 1) == (Some(2), 7);
  }
}
