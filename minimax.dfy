/*
 * The minimax agent: negamax search with alpha-beta pruning over the
 * Othello rules, and the greedy evaluation it uses at the search horizon.
 *
 * The search is specified by an unpruned negamax (FullSearch) that visits
 * every listed action in order and keeps the first strictly better score,
 * starting from the same -2 the agent starts from.  The pruned method is
 * proved fail-soft against that value for every window, and equal to it,
 * score and chosen action, for the window (-2, 2) the agent opens with.
 */
module Minimax {
  import opened Wrappers
  import opened Board
  import opened OthelloAction
  import opened OthelloState
  import opened OthelloRules

  /** The fail-soft contract of alpha-beta: a result at or below alpha is an
      upper bound of the true value v, one at or above beta a lower bound,
      and one strictly inside the window is exact. */
  predicate FailSoft(r: real, v: real, alpha: real, beta: real) {
    && (r <= alpha ==> v <= r)
    && (r >= beta ==> v >= r)
    && (alpha < r < beta ==> r == v)
  }

  /** The same contract read from the true value's side. */
  lemma FailSoftWindow(r: real, v: real, alpha: real, beta: real)
    requires alpha < beta && FailSoft(r, v, alpha, beta)
    ensures alpha < v < beta ==> r == v
    ensures v <= alpha ==> r <= alpha
    ensures v >= beta ==> r >= beta
  {
  }

  /** Negating a result and its true value swaps and negates the window:
      this is how a child's contract reaches its parent. */
  lemma FailSoftNegate(r: real, v: real, alpha: real, beta: real)
    requires FailSoft(r, v, alpha, beta)
    ensures FailSoft(-r, -v, -beta, -alpha)
  {
  }

  /** A score from the first player's side, seen by player p: the product
      p * x, written as a case split since p is 1 or -1. */
  function ForPlayer(p: Player, x: real): real {
    if p == 1 then x else -x
  }

  /** An evaluation that stays within [-1, 1] on every board of discs. */
  ghost predicate EvalBounded(eval: State -> real) {
    forall t: State :: Discs(t.board) ==> -1.0 <= eval(t) <= 1.0
  }

  /** Unpruned negamax: the score for the player to move and the first
      action reaching it (None at a leaf, or when no child beats -2). */
  ghost function FullSearch(s: State, depth: nat, eval: State -> real): (real, Option<Action>)
    decreases depth, 1
  {
    if IsTerminal(s) then (ForPlayer(s.player, GetReward(s).value), None)
    else if depth == 0 then (ForPlayer(s.player, eval(s)), None)
    else FullPrefix(s, depth, eval, |ValidActions(s)|)
  }

  /** The unpruned value of a state. */
  ghost function Value(s: State, depth: nat, eval: State -> real): real
    decreases depth, 2
  {
    FullSearch(s, depth, eval).0
  }

  /** The negated value of the n-th listed child. */
  ghost function ChildScore(s: State, depth: nat, eval: State -> real, n: nat): real
    requires 1 <= depth && n < |ValidActions(s)|
    decreases depth, 0, 0
  {
    -Value(Successor(s, ValidActions(s)[n]), depth - 1, eval)
  }

  /** The unpruned loop after its first n actions: the best score so far,
      starting from -2, and the first action that reached it. */
  ghost function FullPrefix(s: State, depth: nat, eval: State -> real, n: nat): (real, Option<Action>)
    requires 1 <= depth && n <= |ValidActions(s)|
    decreases depth, 0, n
  {
    if n == 0 then (-2.0, None)
    else
      var prev := FullPrefix(s, depth, eval, n - 1);
      var score := ChildScore(s, depth, eval, n - 1);
      if score > prev.0 then (score, Some(ValidActions(s)[n - 1])) else prev
  }

  /** (m, b) is the first-maximum over the first n children: m is the
      largest of -2 and their scores, b is None when no child beats -2, and
      otherwise the first child scoring m. */
  ghost predicate FirstMaximal(s: State, depth: nat, eval: State -> real, n: nat,
                               m: real, b: Option<Action>)
    requires 1 <= depth && n <= |ValidActions(s)|
  {
    && m >= -2.0
    && (forall i :: 0 <= i < n ==> ChildScore(s, depth, eval, i) <= m)
    && (b.None? ==> m == -2.0)
    && (b.Some? ==> m > -2.0 && (exists j :: 0 <= j < n && b.value == ValidActions(s)[j]
                                  && ChildScore(s, depth, eval, j) == m
                                  && forall i :: 0 <= i < j ==> ChildScore(s, depth, eval, i) < m))
  }

  /** The unpruned loop computes the first maximum of what it has seen. */
  lemma {:induction false} PrefixFacts(s: State, depth: nat, eval: State -> real, n: nat)
    requires 1 <= depth && n <= |ValidActions(s)|
    ensures FirstMaximal(s, depth, eval, n, FullPrefix(s, depth, eval, n).0, FullPrefix(s, depth, eval, n).1)
  {
    if n > 0 {
      PrefixFacts(s, depth, eval, n - 1);
      var prev := FullPrefix(s, depth, eval, n - 1);
      if ChildScore(s, depth, eval, n - 1) > prev.0 {
        FirstMaximalRaise(s, depth, eval, n, prev.0, prev.1);
      } else {
        FirstMaximalKeep(s, depth, eval, n, prev.0, prev.1);
      }
    }
  }

  /** A child scoring above the first maximum so far becomes the new one. */
  lemma FirstMaximalRaise(s: State, depth: nat, eval: State -> real, n: nat, m: real, b: Option<Action>)
    requires 1 <= depth && 1 <= n <= |ValidActions(s)|
    requires FirstMaximal(s, depth, eval, n - 1, m, b)
    requires ChildScore(s, depth, eval, n - 1) > m
    ensures FirstMaximal(s, depth, eval, n, ChildScore(s, depth, eval, n - 1), Some(ValidActions(s)[n - 1]))
  {
    var score := ChildScore(s, depth, eval, n - 1);
    assert forall i :: 0 <= i < n - 1 ==> ChildScore(s, depth, eval, i) < score;
  }

  /** A child scoring at most the first maximum so far leaves it in place. */
  lemma FirstMaximalKeep(s: State, depth: nat, eval: State -> real, n: nat, m: real, b: Option<Action>)
    requires 1 <= depth && 1 <= n <= |ValidActions(s)|
    requires FirstMaximal(s, depth, eval, n - 1, m, b)
    requires ChildScore(s, depth, eval, n - 1) <= m
    ensures FirstMaximal(s, depth, eval, n, m, b)
  {
    if b.Some? {
      var j :| 0 <= j < n - 1 && b.value == ValidActions(s)[j]
               && ChildScore(s, depth, eval, j) == m
               && forall i :: 0 <= i < j ==> ChildScore(s, depth, eval, i) < m;
    }
  }

  /** The prefix value only grows as more children are examined. */
  lemma {:induction false} PrefixMonotone(s: State, depth: nat, eval: State -> real, i: nat, n: nat)
    requires 1 <= depth && i <= n <= |ValidActions(s)|
    ensures FullPrefix(s, depth, eval, i).0 <= FullPrefix(s, depth, eval, n).0
    decreases n - i
  {
    if i < n {
      PrefixMonotone(s, depth, eval, i, n - 1);
      PrefixStep(s, depth, eval, n);
    }
  }

  lemma PrefixStep(s: State, depth: nat, eval: State -> real, n: nat)
    requires 1 <= depth && 1 <= n <= |ValidActions(s)|
    ensures FullPrefix(s, depth, eval, n - 1).0 <= FullPrefix(s, depth, eval, n).0
  {
  }

  /** Away from the leaves the unpruned value is the largest child score
      (or -2), and the chosen action is the first child reaching it. */
  lemma FullSearchMaximal(s: State, depth: nat, eval: State -> real)
    requires !IsTerminal(s) && depth >= 1
    ensures FirstMaximal(s, depth, eval, |ValidActions(s)|,
                         FullSearch(s, depth, eval).0, FullSearch(s, depth, eval).1)
  {
    PrefixFacts(s, depth, eval, |ValidActions(s)|);
  }

  /** With rewards in {-1, 0, 1} and a bounded evaluation, every value lies
      in [-1, 1]; away from the leaves some action is always chosen. */
  lemma {:induction false} ValueBounded(s: State, depth: nat, eval: State -> real)
    requires Discs(s.board) && EvalBounded(eval)
    ensures -1.0 <= Value(s, depth, eval) <= 1.0
    ensures !IsTerminal(s) && depth >= 1 ==> FullSearch(s, depth, eval).1.Some?
    decreases depth
  {
    if !IsTerminal(s) && depth >= 1 {
      ValidActionsPass(s);
      ChildrenBounded(s, depth, eval, |ValidActions(s)|);
    }
  }

  /** The first n children's scores all lie in [-1, 1], hence so does the
      prefix value once a child has been seen. */
  lemma {:induction false} ChildrenBounded(s: State, depth: nat, eval: State -> real, n: nat)
    requires Discs(s.board) && EvalBounded(eval)
    requires 1 <= depth && n <= |ValidActions(s)|
    ensures n == 0 ==> FullPrefix(s, depth, eval, n) == (-2.0, None)
    ensures n >= 1 ==> -1.0 <= FullPrefix(s, depth, eval, n).0 <= 1.0
    ensures n >= 1 ==> FullPrefix(s, depth, eval, n).1.Some?
    decreases depth, n
  {
    if n > 0 {
      ChildrenBounded(s, depth, eval, n - 1);
      var a := ValidActions(s)[n - 1];
      ValidActionApplies(s, a);
      ValueBounded(Successor(s, a), depth - 1, eval);
    }
  }

  // ---------------------------------------------------------------------
  // The pruned search

  /** The loop state of negamax after i actions, for the window (alpha,
      beta): the running alpha `a` stays between alpha and the larger of
      alpha and the best score, and while no cut-off has happened the best
      score bounds the unpruned prefix value from above and equals it once
      it rises above alpha. */
  ghost predicate SoftState(s: State, depth: nat, eval: State -> real, alpha: real, beta: real,
                            i: nat, a: real, maxScore: real)
    requires 1 <= depth && i <= |ValidActions(s)|
  {
    var v := FullPrefix(s, depth, eval, i).0;
    && alpha <= a <= (if alpha > maxScore then alpha else maxScore)
    && a < beta
    && v <= maxScore
    && (maxScore > alpha ==> maxScore == v)
  }

  /** One examined child, in real arithmetic: M and V are the pruned and the
      unpruned best so far, sc and v the child's pruned and true scores. */
  lemma SoftStepReal(alpha: real, beta: real, a: real, m: real, v0: real, sc: real, v: real)
    requires alpha < beta && a < beta
    requires alpha <= a <= (if alpha > m then alpha else m)
    requires v0 <= m && (m > alpha ==> m == v0)
    requires FailSoft(sc, v, a, beta)
    ensures var m' := if sc > m then sc else m;
            var v' := if v > v0 then v else v0;
            var a' := if sc > a then sc else a;
      && alpha <= a' <= (if alpha > m' then alpha else m')
      && (a' < beta ==> v' <= m' && (m' > alpha ==> m' == v'))
      && (a' >= beta ==> m' >= beta && v' >= m')
  {
  }

  /** At the root window (-2, 2) the running alpha is the best score, and a
      child's pruned score changes the best exactly when its true score
      does, to the same value. */
  lemma RootStepReal(m: real, sc: real, v: real)
    requires -2.0 <= m <= 1.0 && v <= 1.0
    requires FailSoft(sc, v, m, 2.0)
    ensures sc > m <==> v > m
    ensures sc > m ==> sc == v
  {
  }

  lemma SoftStart(s: State, depth: nat, eval: State -> real, alpha: real, beta: real)
    requires 1 <= depth && alpha < beta
    ensures SoftState(s, depth, eval, alpha, beta, 0, alpha, -2.0)
  {
  }

  /** SoftState survives an examined child that causes no cut-off; after a
      cut-off the best score is a lower bound at or above beta. */
  lemma SoftStep(s: State, depth: nat, eval: State -> real, alpha: real, beta: real,
                 i: nat, a: real, maxScore: real, sc: real)
    requires 1 <= depth && i < |ValidActions(s)| && alpha < beta
    requires SoftState(s, depth, eval, alpha, beta, i, a, maxScore)
    requires FailSoft(sc, ChildScore(s, depth, eval, i), a, beta)
    ensures var m' := if sc > maxScore then sc else maxScore;
            var a' := if sc > a then sc else a;
      && (a' < beta ==> SoftState(s, depth, eval, alpha, beta, i + 1, a', m'))
      && (a' >= beta ==> m' >= beta && FullPrefix(s, depth, eval, i + 1).0 >= m')
  {
    SoftStepReal(alpha, beta, a, maxScore, FullPrefix(s, depth, eval, i).0, sc,
                 ChildScore(s, depth, eval, i));
  }

  /** A child searched with the window (-beta, -a) gives its parent a
      fail-soft score for (a, beta). */
  lemma ChildContract(s: State, depth: nat, eval: State -> real, i: nat,
                      a: real, beta: real, childScore: real)
    requires 1 <= depth && i < |ValidActions(s)| && a < beta
    requires FailSoft(childScore, Value(Successor(s, ValidActions(s)[i]), depth - 1, eval), -beta, -a)
    ensures FailSoft(-childScore, ChildScore(s, depth, eval, i), a, beta)
  {
    FailSoftNegate(childScore, Value(Successor(s, ValidActions(s)[i]), depth - 1, eval), -beta, -a);
  }

  /** A cut-off result is fail-soft for the whole search: the unexamined
      children only raise the true value. */
  lemma CutOff(s: State, depth: nat, eval: State -> real, alpha: real, beta: real,
               i: nat, maxScore: real)
    requires !IsTerminal(s) && 1 <= depth && i <= |ValidActions(s)| && alpha < beta
    requires maxScore >= beta && FullPrefix(s, depth, eval, i).0 >= maxScore
    ensures FailSoft(maxScore, Value(s, depth, eval), alpha, beta)
  {
    PrefixMonotone(s, depth, eval, i, |ValidActions(s)|);
  }

  /** The evaluation is bounded and the state's board holds only discs. */
  ghost predicate Bounded(s: State, eval: State -> real) {
    Discs(s.board) && EvalBounded(eval)
  }

  /** The invariant of the negamax loop after i actions: the fail-soft
      state, the chosen action is a listed one, under a bounded evaluation
      the best is -2 before any child and in [-1, 1] with an action after,
      and at the root window the running alpha is the best score and the
      search so far agrees with the unpruned one. */
  ghost predicate LoopState(s: State, depth: nat, eval: State -> real, alpha: real, beta: real,
                            i: nat, a: real, maxScore: real, best: Option<Action>)
    requires 1 <= depth && i <= |ValidActions(s)|
  {
    && (alpha < beta ==> SoftState(s, depth, eval, alpha, beta, i, a, maxScore))
    && (best.Some? ==> best.value in ValidActions(s))
    && (Bounded(s, eval) && i == 0 ==> maxScore == -2.0)
    && (Bounded(s, eval) && i > 0 ==> -1.0 <= maxScore <= 1.0 && best.Some?)
    && (Bounded(s, eval) && alpha == -2.0 && beta == 2.0 ==>
          a == maxScore && (maxScore, best) == FullPrefix(s, depth, eval, i))
  }

  /** What the recursive call on the i-th child guarantees. */
  ghost predicate ChildResult(s: State, depth: nat, eval: State -> real, i: nat,
                              a: real, beta: real, childScore: real)
    requires 1 <= depth && i < |ValidActions(s)|
  {
    var t := Successor(s, ValidActions(s)[i]);
    && (-beta < -a ==> FailSoft(childScore, Value(t, depth - 1, eval), -beta, -a))
    && (Bounded(t, eval) ==> -1.0 <= childScore <= 1.0)
  }

  /** The method's contract away from the leaves. */
  ghost predicate SearchResult(s: State, depth: nat, eval: State -> real, alpha: real, beta: real,
                               score: real, best: Option<Action>)
  {
    && (alpha < beta ==> FailSoft(score, Value(s, depth, eval), alpha, beta))
    && (best.Some? ==> best.value in ValidActions(s))
    && (Bounded(s, eval) ==> -1.0 <= score <= 1.0)
    && (Bounded(s, eval) && !IsTerminal(s) && depth >= 1 ==> best.Some?)
    && (Bounded(s, eval) && alpha == -2.0 && beta == 2.0 ==> (score, best) == FullSearch(s, depth, eval))
  }

  lemma LoopStart(s: State, depth: nat, eval: State -> real, alpha: real, beta: real)
    requires 1 <= depth
    ensures LoopState(s, depth, eval, alpha, beta, 0, alpha, -2.0, None)
  {
    if alpha < beta {
      SoftStart(s, depth, eval, alpha, beta);
    }
  }

  /** One pass of the loop body: either the loop goes on in LoopState, or
      the cut-off result already meets the method's contract. */
  lemma LoopStep(s: State, depth: nat, eval: State -> real, alpha: real, beta: real,
                 i: nat, a: real, maxScore: real, best: Option<Action>, childScore: real)
    requires !IsTerminal(s) && 1 <= depth && i < |ValidActions(s)|
    requires LoopState(s, depth, eval, alpha, beta, i, a, maxScore, best)
    requires ChildResult(s, depth, eval, i, a, beta, childScore)
    ensures var sc := -childScore;
            var m' := if sc > maxScore then sc else maxScore;
            var best' := if sc > maxScore then Some(ValidActions(s)[i]) else best;
            var a' := if sc > a then sc else a;
      && (a' < beta ==> LoopState(s, depth, eval, alpha, beta, i + 1, a', m', best'))
      && (a' >= beta ==> SearchResult(s, depth, eval, alpha, beta, m', best'))
  {
    var sc := -childScore;
    var action := ValidActions(s)[i];
    ValidActionApplies(s, action);
    if alpha < beta {
      ChildContract(s, depth, eval, i, a, beta, childScore);
      SoftStep(s, depth, eval, alpha, beta, i, a, maxScore, sc);
      var m' := if sc > maxScore then sc else maxScore;
      var a' := if sc > a then sc else a;
      if a' >= beta {
        CutOff(s, depth, eval, alpha, beta, i + 1, m');
      }
    }
    if Bounded(s, eval) && alpha == -2.0 && beta == 2.0 {
      ValueBounded(Successor(s, action), depth - 1, eval);
      RootStepReal(maxScore, sc, ChildScore(s, depth, eval, i));
    }
  }

  /** Once every action is examined without a cut-off, the loop state is
      the method's contract. */
  lemma LoopDone(s: State, depth: nat, eval: State -> real, alpha: real, beta: real,
                 a: real, maxScore: real, best: Option<Action>)
    requires !IsTerminal(s) && 1 <= depth
    requires LoopState(s, depth, eval, alpha, beta, |ValidActions(s)|, a, maxScore, best)
    ensures SearchResult(s, depth, eval, alpha, beta, maxScore, best)
  {
    ValidActionsPass(s);
  }

  /** negamax: the value of `s` for the player to move, searched `depth`
      plies deep within the window (alpha, beta), with the first action that
      reached it.  `color` is passed down negated, as in the agent, and never
      read. */
  method Negamax(s: State, depth: nat, alpha: real, beta: real, color: int, eval: State -> real)
    returns (score: real, best: Option<Action>)
    ensures IsTerminal(s) ==> score == ForPlayer(s.player, GetReward(s).value) && best == None
    ensures !IsTerminal(s) && depth == 0 ==> score == ForPlayer(s.player, eval(s)) && best == None
    ensures alpha < beta ==> FailSoft(score, Value(s, depth, eval), alpha, beta)
    ensures best.Some? ==> best.value in ValidActions(s)
    ensures Discs(s.board) && EvalBounded(eval) ==> -1.0 <= score <= 1.0
    ensures Discs(s.board) && EvalBounded(eval) && !IsTerminal(s) && depth >= 1 ==> best.Some?
    ensures Discs(s.board) && EvalBounded(eval) && alpha == -2.0 && beta == 2.0 ==>
              (score, best) == FullSearch(s, depth, eval)
    decreases depth, 1
  {
    if IsTerminal(s) {
      var reward := GetReward(s);
      return ForPlayer(s.player, reward.value), None;
    } else if depth == 0 {
      return ForPlayer(s.player, eval(s)), None;
    }
    var maxScore := -2.0;
    var bestAction: Option<Action> := None;
    var actionList := GetValidActions(s);
    var a := alpha;
    LoopStart(s, depth, eval, alpha, beta);
    var i := 0;
    ghost var cut := false;
    while i < |actionList|
      invariant actionList == ValidActions(s) && 0 <= i <= |actionList|
      invariant LoopState(s, depth, eval, alpha, beta, i, a, maxScore, bestAction)
      invariant !cut
      decreases |actionList| - i
    {
      var action := actionList[i];
      var childScore := SearchChild(s, actionList, i, depth, a, beta, color, eval);
      LoopStep(s, depth, eval, alpha, beta, i, a, maxScore, bestAction, childScore);
      var sc := -childScore;
      if sc > maxScore {
        maxScore := sc;
        bestAction := Some(action);
      }
      a := if sc > a then sc else a;
      i := i + 1;
      if a >= beta {
        cut := true;
        break;
      }
    }
    if !cut {
      LoopDone(s, depth, eval, alpha, beta, a, maxScore, bestAction);
    }
    return maxScore, bestAction;
  }

  /** The body of negamax's loop for the i-th action: the child state
      searched one ply shallower with the window (-beta, -a) and colour
      -color. */
  method SearchChild(s: State, actionList: seq<Action>, i: nat, depth: nat, a: real, beta: real,
                     color: int, eval: State -> real)
    returns (childScore: real)
    requires 1 <= depth && actionList == ValidActions(s) && i < |actionList|
    ensures ChildResult(s, depth, eval, i, a, beta, childScore)
    decreases depth, 0
  {
    var action := actionList[i];
    ValidActionApplies(s, action);
    var newState := ApplyAction(s, action);
    var score, _ := Negamax(newState.value, depth - 1, -beta, -a, -color, eval);
    childScore := score;
  }

  /** greedy: the mean of the board's 64 cells, the disc balance in favour
      of the first player; it lies in [-1, 1] on a board of discs. */
  function Greedy(s: State): (v: real)
    ensures v * 64.0 == Sum(s.board) as real
    ensures Discs(s.board) ==> -1.0 <= v <= 1.0
  {
    if Discs(s.board) then SumBounded(s.board, 64); Sum(s.board) as real / 64.0
    else Sum(s.board) as real / 64.0
  }

  lemma GreedyBounded()
    ensures EvalBounded(Greedy)
  {
  }

  /** The minimax agent: a fixed search depth, two plies by default. */
  class MinimaxAgent {
    const depth: nat

    constructor(depth: nat)
      ensures this.depth == depth
    {
      this.depth := depth;
    }

    /** select_action: the action negamax chooses from the window (-2, 2)
        with the greedy evaluation.  The offered action list is ignored;
        the search lists the actions itself. */
    method SelectAction(state: State, actionList: seq<Action>) returns (action: Option<Action>)
      ensures Discs(state.board) ==> action == FullSearch(state, depth, Greedy).1
      ensures Discs(state.board) && !IsTerminal(state) && depth >= 1 ==>
                action.Some? && action.value in ValidActions(state)
    {
      GreedyBounded();
      var _, best := Negamax(state, depth, -2.0, 2.0, 1, Greedy);
      action := best;
    }
  }
}
