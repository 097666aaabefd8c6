/** src/pushfour_game.rs: a toy race game on one integer. Players take turns adding
    1, 2, 3 or 5 to a running total without passing 30; the side that reaches 30
    is the winner. */
module PushfourGame {
  import opened Minimax

  const TARGET: int := 30
  const STEPS: seq<int> := [1, 2, 3, 5]

  /** The elements of `steps` that do not carry `s` past TARGET, in their order. */
  function Legal(s: int, steps: seq<int>): (ms: seq<int>)
    ensures forall m :: m in ms <==> m in steps && s + m <= TARGET
    ensures |ms| <= |steps|
  {
    if steps == [] then []
    else (if s + steps[0] <= TARGET then [steps[0]] else []) + Legal(s, steps[1..])
  }

  /** Legal over STEPS, written out one step at a time. */
  lemma {:induction false} LegalSteps(s: int)
    ensures Legal(s, STEPS) ==
      (if s < 30 then [1] else []) + (if s < 29 then [2] else []) + (if s < 28 then [3] else []) + (if s < 26 then [5] else [])
  {
    var l1, l2, l3, l5 := (if s < 30 then [1] else []), (if s < 29 then [2] else []),
                          (if s < 28 then [3] else []), (if s < 26 then [5] else []);
    assert [5][1..] == [] && [3, 5][1..] == [5] && [2, 3, 5][1..] == [3, 5] && STEPS[1..] == [2, 3, 5];
    assert Legal(s, [5]) == l5;
    assert Legal(s, [3, 5]) == l3 + l5;
    assert Legal(s, [2, 3, 5]) == l2 + (l3 + l5);
    assert Legal(s, STEPS) == l1 + (l2 + (l3 + l5));
  }

  /** `get_moves`: one guarded push per step. */
  method GetMoves(root: I32) returns (moves: seq<I32>)
    ensures moves == Legal(root, STEPS)
  {
    LegalSteps(root);
    moves := [];
    if root < 30 {
      moves := moves + [1];
    }
    if root < 29 {
      moves := moves + [2];
    }
    if root < 28 {
      moves := moves + [3];
    }
    if root < 26 {
      moves := moves + [5];
    }
  }

  /** `eval`: nothing to score until the total is 30. Then the side to move has lost. */
  function Eval(state: I32, myTurn: bool): (r: int)
    ensures -1 <= r <= 1
    ensures r != 0 <==> state == TARGET
    ensures state == TARGET ==> (r < 0 <==> myTurn)
  {
    if state == 30 then (if myTurn then -1 else 1) else 0
  }

  /** `apply`: adds the step to the total. An `i32` addition that would overflow
      panics in the source, so it is excluded here. A generated move advances the
      total and never carries it past TARGET. */
  function Apply(state: I32, m: I32): (r: I32)
    requires I32_MIN <= state + m <= I32_MAX
    ensures r - state == m
    ensures m in Legal(state, STEPS) ==> state < r <= TARGET
  {
    state + m
  }

  /** There is no move exactly when the total has reached 30. */
  lemma NoMovesIffDone(s: int)
    ensures Legal(s, STEPS) == [] <==> s >= TARGET
  {
    LegalSteps(s);
  }

  /** No generated move overshoots 30, and each one moves the total forward. */
  lemma MovesStayWithinTarget(s: I32, m: int)
    requires m in Legal(s, STEPS)
    ensures I32_MIN <= s + m <= I32_MAX && s < Apply(s, m) <= TARGET
  {
  }

  /** The score is zero-sum between the two sides. */
  lemma EvalZeroSum(s: I32)
    ensures Eval(s, true) == -Eval(s, false)
  {
  }

  /** The moves at a few totals, as the guards give them. */
  lemma MovesExamples()
    ensures Legal(0, STEPS) == [1, 2, 3, 5]
    ensures Legal(26, STEPS) == [1, 2, 3]
    ensures Legal(28, STEPS) == [1, 2]
    ensures Legal(29, STEPS) == [1]
    ensures Legal(30, STEPS) == []
  {
    LegalSteps(0);
    LegalSteps(26);
    LegalSteps(28);
    LegalSteps(29);
    LegalSteps(30);
  }
}
