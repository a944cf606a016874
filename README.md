# GridState rules engine in Dafny

This project models the rules engine of the base GridState game (`GridStateGame` in
`game.js`). The game is played on a 20x20 grid. Each cell has an owner (a player id or none),
a troop count and at most one bonus: PRODUCTION, DEFENSE, ATTACK or MOVEMENT. Player 0 is the
human and every other player is a computer player.

- `cells.dfy` (module `Cells`) holds the data model: cells, bonuses and coordinates. It also
  holds the Chebyshev movement range and the per-cell production tick with its cap of 100.
- `combat.dfy` (module `Combat`) holds move and attack resolution. The game computes the 1.5x
  ATTACK and DEFENSE multipliers in floating point. The model computes them exactly in integers
  by doubling both strengths. The contract of `ResolveAttack` is stated against the game's own
  formula, written with Dafny `real` and `.Floor`.
- `game.dfy` (module `Game`) holds the class `GridStateGame`. Its state is the grid (an
  `array2<Cell>` indexed `[y, x]`), the player list, `currentPlayer`, `selectedCell` and
  `gameOver`. The methods update that state in place, as the game does. The read-only scans
  (owners, strongest cell, move targets) are loops with invariants. They are proved against
  ghost predicates of the grid.

A move from a cell onto itself is a legal move, because the distance is 0. `MoveTroops` then
works on one cell through two aliases: it sets the troops to 1 and adds the moved troops back.
The model writes the source cell first and only then reads the target from the grid. So this
case leaves the cell unchanged and still ends the turn, as in the game.

In the game, `endTurn` and `performAITurn` call each other. Here `FinishTurn` is the end of a
turn proper: the win check, then production and the next player. `EndTurn` is `FinishTurn`
followed by `PlayComputerTurns`, a loop that plays computer turns while a computer player is to
move and the game is not over. Player 0 is never a computer player, so the chain stops at the
latest when the turn comes back to player 0. At most `|players| - 1` computer turns are played.
A computer turn draws a random number only when it has a strongest cell. The caller supplies
the numbers as `picks`, at least one per computer turn that can follow.

## Model

| member | source | states |
|---|---|---|
| `Cells.MaxDistance` | game.js:164-166 | The movement range is 2 exactly when the source cell has the MOVEMENT bonus, and 1 otherwise. |
| `Cells.MovementRangeExamples` | game.js:164-166 | A MOVEMENT cell reaches Chebyshev distance 2 but not 3. Any other cell reaches distance 1 but not 2. |
| `Cells.Produce` | game.js:211-218 | Production keeps the owner and the bonus and never lowers the troops. Unowned cells and cells at or above 100 are unchanged. An owned cell below 100 gains its rate (2 on PRODUCTION, else 1), or stops at exactly 100 when the rate would pass it. |
| `Cells.ProduceRespectsCap` | game.js:214-217 | Production never lifts a cell past 100. A cell already above 100 keeps its count. |
| `Cells.ProductionCapExamples` | game.js:213-217 | A PRODUCTION cell at 100 stays at 100. An owned cell at 99 reaches exactly 100, with or without PRODUCTION. |
| `Combat.ResolveAttack` | game.js:186-198 | If attack strength (moving troops, times 1.5 on ATTACK) exceeds defence strength (target troops, times 1.5 on DEFENSE), the target passes to the attacker with the floor of the difference. Otherwise the owner is kept with the floor of the reverse difference. The bonus is kept and the result is never negative. |
| `Combat.Move` | game.js:169-200 | A source with at most 1 troop changes nothing. Otherwise the source keeps exactly 1 troop. A target with the same owner gains exactly sourceTroops-1, with no cap. Any other target is attacked with sourceTroops-1 troops. |
| `Combat.ReinforcementConserves` | game.js:181-185 | Reinforcement keeps the total of the two cells' troops, and the target strictly grows. |
| `Combat.CaptureIffStronger` | game.js:193-198 | An attacked cell changes owner if and only if the attack strength strictly exceeds the defence strength. |
| `Combat.TieLeavesEmptyDefender` | game.js:196-198 | When the two strengths are equal, the defender keeps the cell with 0 troops. |
| `Combat.PlainAttack` | game.js:186-198 | Without bonuses, S troops attacking T capture the cell with S-1-T troops when S-1 > T. Otherwise the defender is left with T-(S-1). |
| `Combat.MoveKeepsOwners` | game.js:174-198 | The source keeps its owner, and the target ends with its own owner or the source's. |
| `Combat.MoveKeepsTroopsNonNegative` | game.js:174-198 | When both cells start with no negative count, neither ends with one. |
| `Combat.CombatExamples` | game.js:188-198 | 10 troops on ATTACK against 10 on DEFENSE leave the defender holding with 1. 10 plain troops against 5 capture the cell with 4. |
| `Game.RandomIndexInRange` | game.js:302 | `floor(r * n)` with r in [0, 1) is a valid index into n targets. |
| `Game.NextPlayer` | game.js:223 | Passing the turn on from the last player wraps round to player 0. From any other player it goes to the next id. |
| `Game.GridStateGame.constructor` | game.js:87-109 | Players 0..n-1 are created, and only player 0 is human. Player i owns its starting cell with 20 troops. Every other cell is unowned with 0 troops and keeps the given bonus. Player 0 moves first, nothing is selected and the game is not over. |
| `Game.GridStateGame.IsValidMove` | game.js:155-167 | A move is legal if and only if the source belongs to the current player and the target is within Chebyshev distance of its range. The source cell itself counts. |
| `Game.GridStateGame.MoveTroops` | game.js:169-200 | Two different cells end up as `Move` of their old contents. A move onto the same cell leaves the grid unchanged. No other cell changes, the grid invariant holds, and no owner appears that was not on the grid before. |
| `Game.GridStateGame.CollectOwners` | game.js:233-242 | The scan returns exactly the set of distinct owners on the grid, all of them player ids. |
| `Game.GridStateGame.CheckWinCondition` | game.js:231-253 | There is a winner if and only if exactly one distinct owner is left. That owner is the winner, a valid player id, and `gameOver` is set. Otherwise `gameOver` is unchanged. |
| `Game.GridStateGame.ProduceTroops` | game.js:208-220 | Every cell becomes `Produce` of its old contents, and the set of owners does not change. |
| `Game.GridStateGame.FindStrongestCell` | game.js:283-295 | The method finds no cell exactly when all of the current player's cells are empty. Otherwise the cell it returns belongs to the current player and holds the most troops (more than 0). Every earlier cell in row-major order holds strictly fewer. |
| `Game.GridStateGame.StrongestCellIsUnique` | game.js:287-294 | The row-major tie-break picks exactly one strongest cell. |
| `Cells.CellsInRange` | game.js:310-327 | The scan lists exactly the in-bounds cells, other than the centre, within the given Chebyshev distance. They come in strictly increasing row-major order. |
| `Game.GridStateGame.GetValidMoveTargets` | game.js:310-327 | The targets are exactly the in-bounds cells, other than the source, within Chebyshev distance of the source's range. They come in strictly increasing row-major order, so there are no duplicates. |
| `Game.GridStateGame.TargetsAreValidMoves` | game.js:310-327 | For a source of the current player, a cell is a computer move target if and only if it is in bounds, is not the source, and a move to it is legal by `IsValidMove`. |
| `Game.GridStateGame.PerformAIMove` | game.js:279-305 | The computer moves from the strongest cell, if there is one, to an in-range target chosen by the random number. That changes only those two cells, as `Move` says. With no strongest cell the grid is unchanged. No new owner appears. |
| `Game.GridStateGame.FinishTurn` | game.js:202-223 | There is a winner if and only if exactly one owner was left. Then that owner wins, the game is over, and neither the grid nor the current player changes. Otherwise every cell becomes `Produce` of its old contents, the owners and `gameOver` are kept, and the turn passes to the next player modulo the player count. |
| `Game.GridStateGame.PlayComputerTurns` | game.js:279-308 | When the game is over or player 0 is to move, nothing happens. Otherwise at least one computer turn is played. The loop ends with the game over and one owner left, or with player 0 to move after exactly one turn for each computer player from the current one to the last. No owner appears that was not on the grid before, so an eliminated player stays eliminated. |
| `Game.GridStateGame.EndTurn` | game.js:202-229 | With exactly one owner left, the game is over and nothing else changes, and this is the only case where no computer turn is played and the current player stays. Otherwise production runs. If player 0 is next, or the game was already over, the turn passes with no computer turn. Otherwise at least one computer turn follows. The method ends with the game over and one owner left, or with player 0 to move after `|players| - 1 - currentPlayer` computer turns. No new owner appears. |
| `Game.GridStateGame.HandleClick` | game.js:123-153 | Clicks after the game is over or outside the grid change nothing. With nothing selected, the clicked cell is selected if the current player owns it. With a selection, an illegal move changes nothing. After a legal move the chain ends with the game over and one owner left, or with player 0 to move after one turn for each later player. If the move itself wins, the grid is the grid right after the move. If player 0 is next with no computer turn, the grid is `Produce` of the grid right after the move. Either way the selection is cleared, and no owner appears that was not on the grid before. |

## Left out

- Rendering and layout (`render`, `updateCanvasSize`, `getDarkerColor`, `mount`, player colours) are presentation only.
- `announceWinner` builds a DOM overlay. The model returns the winner's id from `CheckWinCondition` instead.
- `handleClick`'s mapping from canvas pixels to a grid cell is floating-point geometry. `HandleClick` takes grid coordinates directly.
- `getStartingPosition` places players with cos and sin. The constructor takes the starting cells as a parameter (in bounds, pairwise distinct).
- `generateRandomBonus` uses `Math.random`. The constructor takes the bonus layout as a parameter.
- The computer player's `Math.random()` draws become the parameter `picks`, a sequence of reals in [0, 1). `EndTurn`, `PlayComputerTurns` and `HandleClick` require at least `|players| - 1` of them, which is the most a chain of computer turns can draw.
- Game.GridStateGame.PlayComputerTurns: does not state the grid after the computer turns as a whole. Each turn is `PerformAIMove` followed by `FinishTurn`, and those two contracts state its effect.
- Game.GridStateGame.EndTurn: when computer turns follow, does not state the grid they leave, for the same reason.
- Game.GridStateGame.PerformAIMove: states which cells change and how, but not which target the random number selects. It states only that the target is one of the valid move targets.
- Game.GridStateGame.HandleClick: after a legal move that computer turns follow, does not state the grid they leave. `MoveTroops`, `FinishTurn` and `PerformAIMove` state each step.
- Troop counts are modelled as unbounded integers and the strengths as exact reals. The game's doubles are exact for these values (integers and halves far below 2^53).
- Behaviour once the game is over: `endTurn` itself does not test `gameOver`, and its callers never call it then. The model keeps this. Production and rotation still run, and only the computer turn is skipped, as in `performAITurn`'s first line.
- An eliminated human: the turn still comes back to player 0, who owns no cell and so cannot select one. The game then waits for ever. The model keeps this behaviour.
