# Othello rules, minimax agent and MCTS of SimpleAlphaZero, in Dafny

This project models the core of the SimpleAlphaZero Othello engine and
proves properties of the model:

- The action value. It has three fields: `row` and `col`, both possibly
  `None`, and `is_pass`. It is indexed into a 65-slot policy vector by
  `to_index`, and `from_index` goes the other way.
- The rules engine of `OthelloState`. This covers the starting position
  and the current player, and `get_valid_actions`, the vectorised move
  generator built on repeated board shifts. It also covers `apply_action`
  with its four error cases and its walk-and-flip loop, the two-pass end
  of the game, and `get_reward`.
- The front end of `OthelloGame`: the starting state and the move parser.
- `MinimaxAgent`: negamax with alpha-beta pruning, and the greedy board
  mean used at the search horizon.
- `MCTS`. Its node record, the selection, expansion and backup steps, the
  simulation loop of `search`, and the visit-count distribution returned
  by `get_action_probs`.

Modules follow the source files:

- `Wrappers`: Option, Result and the error kinds.
- `Board`: the 8x8 grid and masks, `shift_board`, counting.
- `OthelloAction`.
- `OthelloState`: the rules and their specification.
- `OthelloRules`: lemmas about the rules.
- `OthelloGame`.
- `Minimax`.
- `Mcts`.

The two loop-based operations of the rules are methods proved against
specification functions:

- `GetValidActions` ensures its result is `ValidActions(s)`: the legal
  placements in row-major order, or the single generated pass
  `(-1, -1, True)` when there are none.
- `ApplyAction` ensures its result is `Apply(s, a)`.

Legality is defined independently of the shifting algorithm. A placement
is legal when, in some direction, one or more opponent discs are followed
by a mover disc.

`Negamax` is proved fail-soft against an unpruned negamax (`FullSearch`)
for every window. For the window (-2, 2) that `select_action` uses, it is
proved equal to `FullSearch`, both the score and the chosen action.

The MCTS tree is an arena: a sequence of nodes, each holding its parent
number and an insertion-ordered dictionary from action to child number,
all in a `Tree` object that `ExpandNode` and `Backpropagate` update in
place. `Search` is proved to keep this invariant across simulations: the
tree stays well formed, the root holds its valid actions in order, and
the root's children share all the simulations.

Behaviour modelled as written:

- The root is expanded even when its state is terminal. Its children are
  then never visited, so `get_action_probs` divides by zero: `Search`
  returns `Err(ZeroDivision)` exactly when `num_simulations` is 0 or the
  root is terminal.
- A terminal leaf backs up the reward as an absolute (first player)
  score, while a predicted value is backed up as it comes from the
  network.

## Model

| member | source | states |
|---|---|---|
| OthelloAction.FromIndex | src/games/othello_action.py:21-28 | index 64 gives a pass and every other index a well-formed placement |
| OthelloAction.FromIndexOnBoard | src/games/othello_action.py:21-28 | an index below 64 gives the placement (index // 8, index % 8), which is on the board |
| OthelloAction.ToIndex | src/games/othello_action.py:15-19 | a pass maps to 64, a placement to row * 8 + col, which is in 0..63 for an on-board placement |
| OthelloAction.ToFromIndex | src/games/othello_action.py:15-28 | to_index undoes from_index for every integer index |
| OthelloAction.FromToIndex | src/games/othello_action.py:15-28 | from_index undoes to_index on every on-board placement |
| OthelloAction.ToIndexInjective | src/games/othello_action.py:15-19 | two on-board placements with the same index are equal |
| OthelloAction.TwoPasses | src/games/othello_action.py:5-13 | pass_action and the generated pass (-1, -1, True) are different values with the same index 64; from_index(64) is pass_action |
| OthelloAction.FromIndexNoRangeCheck | src/games/othello_action.py:21-28 | from_index does not check its range: 65 gives (8, 1), -1 gives (-1, 7) |
| Board.ShiftBoard | src/games/othello_state.py:9-30 | each cell of the shifted board holds the cell (-dx, -dy) away, and 0 where that is off the board (no wrap-around) |
| Board.Put | src/games/othello_state.py:131-132 | the copy differs from the board only at the target, which holds the value |
| OthelloState.GetInitialState | src/games/othello_state.py:43-48 | -1 on (3,3) and (4,4), 1 on (3,4) and (4,3), all other cells empty, player 1 to move, no passes |
| OthelloState.GetCurrentPlayer | src/games/othello_state.py:50-51 | the player to move, which is 1 or -1 |
| OthelloState.GetReward | src/games/othello_state.py:169-179 | an error exactly when the state is not terminal; otherwise 1, -1 or 0 exactly when player 1 has more, fewer or as many discs as player -1 |
| OthelloState.GetValidActions | src/games/othello_state.py:54-85 | the result is the legal placements in row-major order, or the single generated pass when there is none |
| OthelloState.ScanDirection | src/games/othello_state.py:67-74 | after the first shift and six more, a cell is accepted exactly when it is empty and flanks in direction (-dx, -dy) |
| OthelloState.ScanInit | src/games/othello_state.py:68-70 | the first shift starts the scan state: the shifted board is the ray one step out, the candidates are the empty cells next to an opponent disc, nothing is accepted |
| OthelloState.ScanStep | src/games/othello_state.py:71-74 | one round of the inner loop keeps the scan state: the shifted board is the ray t+2 steps out, candidates have seen only opponent discs, accepted cells have a flank within t+2 |
| OthelloState.MovesRound | src/games/othello_state.py:66-75 | or-ing in one finished direction extends the accepted mask to that direction |
| OthelloState.VecLegal | src/games/othello_state.py:66-75 | an empty cell with a flank of at most seven along one of the eight shift directions is exactly a legal placement |
| OthelloState.ApplyAction | src/games/othello_state.py:107-167 | the result is the specified apply: a pass hands over the move and counts a pass; a placement fails, checking the row before the column, on a missing or off-board coordinate, then on an occupied target or one not listed, and otherwise places, flips and hands over with the pass count reset |
| OthelloState.PlaceAndFlip | src/games/othello_state.py:130-161 | the new board holds the mover on the target and on every flanked run, and the old contents elsewhere |
| OthelloState.FlipDirection | src/games/othello_state.py:140-158 | the walk in one direction adds to the flip mask exactly the cells of the flanked run in that direction, and nothing when the run is not closed by a mover disc |
| OthelloState.WalkEndsFlank | src/games/othello_state.py:145-153 | a walk stopped by a mover disc after opponent discs has collected exactly that run |
| OthelloState.WalkEndsEmpty | src/games/othello_state.py:145-158 | a walk stopped by an empty cell, the board edge, or a mover disc directly adjacent leaves no run in that direction |
| OthelloState.FlankUnique | src/games/othello_state.py:145-158 | in one direction there is at most one flanking distance |
| OthelloState.FlankBound | src/games/othello_state.py:71 | a flank from an on-board cell reaches at most seven cells away, so six more shifts suffice |
| OthelloRules.ValidPlacement | src/games/othello_state.py:78-79 | a placement is among the valid actions exactly when it is legal |
| OthelloRules.ValidActionsPass | src/games/othello_state.py:81-85 | the list is never empty, and it is the generated pass exactly when no cell is legal |
| OthelloRules.ValidActionsOrdered | src/games/othello_state.py:78-79 | unless the list is the generated pass, it holds well-formed placements in strictly increasing row-major order; in every case no action is listed twice |
| OthelloRules.ArgWhereMember | src/games/othello_state.py:78-79 | a placement is listed exactly when its cell is set in the mask |
| OthelloRules.ArgWhereEmpty | src/games/othello_state.py:78-83 | the listing is empty exactly when no cell is set |
| OthelloRules.PlacementOutcome | src/games/othello_state.py:115-128 | for a placement, each error is returned exactly on its condition (a missing coordinate for a None row or a None column under an on-board row, out of bounds for an off-board row or an off-board column under an on-board row), and success exactly when the placement is legal |
| OthelloRules.ApplyLegal | src/games/othello_state.py:126-167 | a legal placement succeeds with the placed board, the opponent to move and the pass count reset |
| OthelloRules.TwoPassesEnd | src/games/othello_state.py:101-118 | a pass keeps the board and hands over the move; two passes in a row end the game with the original player to move |
| OthelloRules.OnePassNotTerminal | src/games/othello_state.py:101-118 | a single pass from a state without passes does not end the game |
| OthelloRules.TerminalByPasses | src/games/othello_state.py:101-103 | after an applied action the state is terminal exactly when that action and the one before it were passes; a placement resets the pass count |
| OthelloRules.RangeCheckOrder | src/games/othello_state.py:120-121 | the row is range-checked before the column: row 9 or -1 with no column is out of bounds, row 3 with no column and no row with column 9 are missing coordinates |
| OthelloRules.FlippedCell | src/games/othello_state.py:145-153 | every flipped cell is on the board, is not the target, and held an opponent disc |
| OthelloRules.LegalIffFlips | src/games/othello_state.py:120-161 | on an empty on-board cell, a placement is listed exactly when it flips at least one disc |
| OthelloRules.PlacementEffects | src/games/othello_state.py:130-161 | a legal placement puts the mover on the target, turns every flipped opponent disc, leaves every other cell alone and keeps the board made of discs |
| OthelloRules.PlacementCounts | src/games/othello_state.py:130-161 | a legal placement flipping k >= 1 discs adds k + 1 mover discs, removes k opponent discs and adds one disc overall |
| OthelloRules.ValidActionApplies | src/games/othello_state.py:115-167 | every listed action, the generated pass included, applies without error and keeps the board made of discs |
| OthelloRules.ValidActionIndex | src/agents/mcts.py:82-85 | every listed action has a policy index in 0..64 |
| OthelloRules.RewardColourSwap | src/games/othello_state.py:169-179 | swapping the colours of every disc negates the reward |
| OthelloGame.GetInitialState | src/games/othello_game.py:14-20 | the game's starting state is the rules engine's starting state |
| OthelloGame.ParseMove | src/games/othello_game.py:23-30 | "pass" in any case gives pass_action; any other string that is not two characters, a letter a-h then a digit, gives a format error, and every two-character string of a letter a-h then a digit is accepted as a placement; a parsed placement has the letter's column and the digit's row minus one |
| OthelloGame.ParseFormat | src/games/othello_game.py:23-30 | every on-board cell written as letter and digit parses back to that placement |
| OthelloGame.FormatParse | src/games/othello_game.py:23-30 | every string that parses to an on-board placement is that placement's letter and digit |
| OthelloGame.ParseExamples | src/games/othello_game.py:23-30 | "pass" and "PaSS" give pass_action and "d3" gives (2, 3); "D3", "d", "d34" and "dx" are rejected |
| OthelloGame.ParseOffBoardRows | src/games/othello_game.py:26-30 | digits 0 and 9 parse to rows -1 and 8, which apply_action then rejects as out of bounds |
| OthelloGame.InitialLegal | src/games/othello_state.py:43-85 | in the starting position exactly (2,3), (3,2), (4,5) and (5,4) are legal for player 1 |
| OthelloGame.InitialValidActions | src/games/othello_state.py:43-85 | the starting position lists exactly [(2,3), (3,2), (4,5), (5,4)], in that order |
| OthelloGame.OpeningFlipsOnly | src/games/othello_state.py:139-158 | playing (2,3) from the start flips no cell other than (3,3) |
| OthelloGame.OpeningFlipsCentre | src/games/othello_state.py:139-158 | playing (2,3) from the start flips (3,3) |
| OthelloGame.OpeningMove | src/games/othello_state.py:107-167 | playing (2,3) from the start succeeds, leaves 4 discs for player 1 and 1 for player -1, and hands the move to -1 |
| Minimax.Negamax | src/agents/minimax.py:17-39 | terminal and horizon scores as the source computes them; fail-soft against the unpruned value for every window; a chosen action is listed; bounded scores; equal to the unpruned search, score and action, for the window (-2, 2) |
| Minimax.SearchChild | src/agents/minimax.py:30-31 | the recursive call on a child returns a fail-soft score for the child's negated window |
| Minimax.LoopStep | src/agents/minimax.py:29-39 | one iteration of the action loop keeps the loop state, or the cut-off result is fail-soft |
| Minimax.LoopDone | src/agents/minimax.py:29-41 | after the whole action list the best score and the first action reaching it are the result |
| Minimax.CutOff | src/agents/minimax.py:36-39 | a break at alpha >= beta returns a lower bound of the true value |
| Minimax.FailSoftWindow | src/agents/minimax.py:36-39 | a fail-soft result is exact inside the window and on the right side of it otherwise |
| Minimax.FailSoftNegate | src/agents/minimax.py:30-31 | negating a child's result and value swaps and negates the window |
| Minimax.FullSearchMaximal | src/agents/minimax.py:23-39 | the unpruned search returns the largest child score and the first action reaching it |
| Minimax.ValueBounded | src/agents/minimax.py:17-39 | with a bounded evaluation every searched value is within [-1, 1], and a non-terminal search of depth at least 1 chooses an action |
| Minimax.PrefixMonotone | src/agents/minimax.py:31-34 | the running maximum never decreases along the action list |
| Minimax.Greedy | src/agents/minimax.py:41-43 | the greedy value is the board sum divided by 64, within [-1, 1] on a board of discs |
| Minimax.GreedyBounded | src/agents/minimax.py:41-43 | the greedy evaluation is bounded on every board of discs |
| Minimax.MinimaxAgent.constructor | src/agents/minimax.py:9-10 | the agent keeps the search depth it is given |
| Minimax.MinimaxAgent.SelectAction | src/agents/minimax.py:12-14 | the action is the unpruned search's choice with the greedy evaluation, and a listed action for a non-terminal state at depth at least 1 |
| Mcts.NewNode | src/agents/mcts.py:8-15 | a new node keeps the given state, parent and prior, has no children, is not expanded, has no visits and a total value of 0, so its mean value is 0 |
| Mcts.MeanValue | src/agents/mcts.py:17-19 | the mean times the visit count is the total value, and 0 for an unvisited node |
| Mcts.MeanValueBounded | src/agents/mcts.py:17-19 | a total within the visit count gives a mean within [-1, 1] |
| Mcts.KeyIndex | src/agents/mcts.py:87 | the position of the first entry with the key, or the length when there is none |
| Mcts.AssignLookup | src/agents/mcts.py:87 | after storing c under a, a maps to c and every other key to what it did; a new key lengthens the dictionary by one |
| Mcts.AssignNew | src/agents/mcts.py:87 | storing a new key appends it at the end, keeping insertion order |
| Mcts.Tree.constructor | src/agents/mcts.py:29 | the arena holds only the root node, which is a well-formed tree |
| Mcts.GetActionProbs | src/agents/mcts.py:96-100 | a division error exactly when the root has children but they have no visits; otherwise one entry per child, in dictionary order |
| Mcts.ActionProbsScaled | src/agents/mcts.py:96-100 | each probability is non-negative and times the total visits gives the child's visits |
| Mcts.ActionProbsSum | src/agents/mcts.py:96-100 | with children, the probabilities sum to 1 |
| Mcts.FreshChildren | src/agents/mcts.py:82-87 | one child per valid action |
| Mcts.FreshKids | src/agents/mcts.py:8-15 | every fresh child is unexpanded and unvisited, has no children and records its parent |
| Mcts.FreshChild | src/agents/mcts.py:82-86 | each child holds the successor state, its parent and the policy's prior at the action's index |
| Mcts.Expanded | src/agents/mcts.py:77-87 | expansion adds one node per valid action |
| Mcts.ExpandedShape | src/agents/mcts.py:77-87 | expanding a node of a well-formed tree gives a well-formed tree with that node expanded |
| Mcts.ExpandFresh | src/agents/mcts.py:77-87 | expanding a node without children gives it one entry per valid action, in order, pointing at new nodes appended to the arena; other nodes are unchanged |
| Mcts.ExpandLinks | src/agents/mcts.py:82-87 | the stores of expand_node keep children after their parent, parent links, and distinct keys and nodes |
| Mcts.Backpropagated | src/agents/mcts.py:90-93 | backup keeps the number of nodes |
| Mcts.BackpropagatedOnce | src/agents/mcts.py:90-93 | every node on a repetition-free path gains one visit and the value, negated when its player differs from the root's; every other node is unchanged |
| Mcts.DescentDistinct | src/agents/mcts.py:34-40 | a selection path never visits a node twice |
| Mcts.RootHits | src/agents/mcts.py:34-40 | a selection path passes through exactly one child of the root, or none when the root is terminal |
| Mcts.LeafExpansion | src/agents/mcts.py:42-45 | expanding the selected leaf keeps the tree well formed and the existing visit counts |
| Mcts.PathBackup | src/agents/mcts.py:50 | backing up along a selection path keeps the tree well formed and the root's children, and adds one visit to the root and one to its children unless the root is terminal |
| Mcts.SimulationStep | src/agents/mcts.py:33-50 | one simulation keeps the search invariant with one more visit at the root |
| Mcts.RootExpansion | src/agents/mcts.py:29-31 | expanding the new root gives a well-formed tree whose root holds the state, is expanded, has one child per valid action in order, and has no visits |
| Mcts.MCTS.constructor | src/agents/mcts.py:24-26 | the object keeps the predict function, the square root, c_puct and the simulation count it is given |
| Mcts.MCTS.UcbBonus | src/agents/mcts.py:71-74 | with non-negative c_puct, prior and square root the score is at least the mean value; a zero prior gives exactly the mean value |
| Mcts.MCTS.SelectChild | src/agents/mcts.py:57-69 | the first child with the largest UCB score, or None for a node without children |
| Mcts.MCTS.SelectLeaf | src/agents/mcts.py:34-40 | the path starts at the root, follows select_child's choice at each expanded non-terminal node, and stops at an unexpanded or terminal node |
| Mcts.MCTS.ChosenPrefixExtend | src/agents/mcts.py:38-40 | appending select_child's choice extends a selection path |
| Mcts.MCTS.ExpandNode | src/agents/mcts.py:77-87 | the arena becomes the specified expansion of the node |
| Mcts.MCTS.Backpropagate | src/agents/mcts.py:90-93 | the arena becomes the specified backup along the path |
| Mcts.MCTS.Search | src/agents/mcts.py:28-52 | the tree stays well formed; the root holds its valid actions in order and num_simulations visits, shared among its children unless it is terminal; the result is get_action_probs of the root, a division error exactly when there are no simulations or the root is terminal, and otherwise a distribution over the valid actions summing to 1 |

## Left out

- Floating point: Python floats are modelled as exact reals. Rounding in the mean value, the UCB score, the greedy mean and the visit shares is not modelled.
- `math.sqrt` and the network's `predict`, with `policy.detach().numpy()`, are calls into code outside the core. They are parameters of the `MCTS` object: any function from real to real, and any function from a state to a 65-entry policy and a value.
- The interface classes in games/game.py, src/games/game_state.py, games/state.py and src/agents/agent.py are not part of this model. The operations are plain functions and methods over `State`.
- src/agents/random_agent.py is not part of this model. It is context, not core.
- `render`, the test board script at the end of othello_state.py and `print_valid_actions` are left out: they only print.
- `play_interactive_game` and the script lines of othello_game.py are left out: they are console I/O.
- `_shift` is left out: it duplicates `shift_board` and nothing calls it.
- Object identity is replaced by an arena. MCTS nodes are entries of a sequence, and parents and children are node numbers. Every node has at most one parent, as in the source.
- `OthelloState` holds a copy of the board in Python. Here states are immutable values, so there is no aliasing to model.
- Players are the integers 1 and -1, the only values the source creates. Boards are 8x8. Pass counts and search depths are natural numbers.
- `num_simulations` is a natural number. The source's `range` of a negative number would run no simulations, which the model does not represent.
- Minimax.Negamax: the `color` argument is passed on negated but never read, as in the source. The result's first component is a real rather than the declared `int`.
- Minimax.MinimaxAgent.SelectAction: the offered `action_list` is ignored, as in the source.
- Mcts.MCTS.UcbScore has no contract of its own: it is the source's formula. What is proved about it is in `UcbBonus` and in `SelectChild`'s first-best property.
- OthelloGame.ParseMove: `str.lower` and `str.isdigit` are modelled on ASCII only. Non-ASCII letters and Unicode digits, which Python would accept, are not modelled.
- OthelloGame.FormatMove is defined for on-board cells only. It is a helper for the parse round trip, not a source operation.
- OthelloState.ApplyAction: Python raises `TypeError` when the range check compares a `None` coordinate with 0. That happens for a `None` row, and for a `None` column when the row is on the board; an off-board row is reported as out of bounds first. The `TypeError` is modelled as the error `MissingCoordinate`.
- Minimax.MinimaxAgent.constructor: the depth is passed explicitly. Python's default of `depth=2` is not modelled.
- Mcts.MCTS.Search: the value `predict` returns for the root is discarded, as in the source. The root's prior is 0.
- Exceptions are modelled as `Err` results, one error kind per `ValueError`, `TypeError` or `ZeroDivisionError` that `apply_action`, `get_reward`, `parse_move` and `get_action_probs` raise.
- OthelloAction.ToIndex: requires a well-formed action. Python's `TypeError` for a placement with a `None` coordinate is not modelled. Its only caller, `expand_node`, passes listed actions, which are well formed.
