/** The turn engine of the base GridState game: a 20x20 grid updated in place, the
    two-click selection machine, the end-of-turn production and rotation, the win check
    and the computer player's move. */
module Game {
  import opened Cells
  import opened Combat

  /** A faction. Player 0 is the human; every other id is computer-controlled. */
  datatype Player = Player(id: nat, isAI: bool)

  /** `Math.floor(r * n)` for a random `r` in [0, 1) is an index into a list of `n` items. */
  lemma RandomIndexInRange(r: real, n: nat)
    requires 0.0 <= r < 1.0 && n > 0
    ensures 0 <= (r * n as real).Floor < n
  {
  }

  /** Passing the turn on from player `c` of `n` wraps round to player 0 after the last one. */
  lemma NextPlayer(c: nat, n: nat)
    requires c < n
    ensures (c + 1) % n == if c + 1 == n then 0 else c + 1
  {
  }

  predicate AllRandom(picks: seq<real>) {
    forall i :: 0 <= i < |picks| ==> 0.0 <= picks[i] < 1.0
  }

  class GridStateGame {
    const players: seq<Player>
    const grid: array2<Cell>
    var currentPlayer: nat
    var selectedCell: Option<Pos>
    var gameOver: bool

    /** The grid is 20x20, ids are 0.., only player 0 is human, the current player and the
        selection are in range, no garrison is negative and every owner is a player. */
    ghost predicate Valid()
      reads this, grid
    {
      grid.Length0 == GridSize && grid.Length1 == GridSize &&
      2 <= |players| &&
      (forall i :: 0 <= i < |players| ==> players[i] == Player(i, i > 0)) &&
      currentPlayer < |players| &&
      (selectedCell.Some? ==> InBounds(selectedCell.value)) &&
      forall y, x :: 0 <= y < GridSize && 0 <= x < GridSize ==>
        grid[y, x].troops >= 0 &&
        (grid[y, x].owner.Some? ==> grid[y, x].owner.value < |players|)
    }

    function At(p: Pos): Cell
      reads this, grid
      requires Valid() && InBounds(p)
    {
      grid[p.y, p.x]
    }

    /** The distinct owners present on the grid. */
    ghost function Owners(): set<nat>
      reads grid
    {
      set y, x | 0 <= y < grid.Length0 && 0 <= x < grid.Length1 && grid[y, x].owner.Some? ::
        grid[y, x].owner.value
    }

    /** `p` is the current player's cell with the most troops (more than 0), and the first
        such cell in row-major order. */
    ghost predicate IsStrongestCell(p: Pos)
      reads this, grid
      requires Valid()
    {
      InBounds(p) && At(p).owner == Some(currentPlayer) && At(p).troops > 0 &&
      (forall y, x | 0 <= y < GridSize && 0 <= x < GridSize && grid[y, x].owner == Some(currentPlayer) ::
         grid[y, x].troops <= At(p).troops) &&
      (forall y, x | 0 <= y < GridSize && 0 <= x < GridSize && grid[y, x].owner == Some(currentPlayer) &&
                     RowMajorBefore(Pos(x, y), p) ::
         grid[y, x].troops < At(p).troops)
    }

    /** Every cell of the current player is empty. */
    ghost predicate NoStrongestCell()
      reads this, grid
      requires Valid()
    {
      forall y, x | 0 <= y < GridSize && 0 <= x < GridSize && grid[y, x].owner == Some(currentPlayer) ::
        grid[y, x].troops <= 0
    }

    /** Start a game with the given bonus layout; player i starts on `starts[i]` with 20 troops. */
    constructor (numPlayers: nat, bonuses: seq<seq<Option<Bonus>>>, starts: seq<Pos>)
      requires 2 <= numPlayers <= 4
      requires |bonuses| == GridSize && forall y :: 0 <= y < GridSize ==> |bonuses[y]| == GridSize
      requires |starts| == numPlayers && forall i :: 0 <= i < numPlayers ==> InBounds(starts[i])
      requires forall i, j :: 0 <= i < j < numPlayers ==> starts[i] != starts[j]
      ensures Valid() && fresh(grid)
      ensures |players| == numPlayers && currentPlayer == 0
      ensures selectedCell == None && !gameOver
      ensures forall i :: 0 <= i < numPlayers ==>
                At(starts[i]) == Cell(Some(i), StartingTroops, bonuses[starts[i].y][starts[i].x])
      ensures forall y, x :: 0 <= y < GridSize && 0 <= x < GridSize && Pos(x, y) !in starts ==>
                grid[y, x] == Cell(None, 0, bonuses[y][x])
    {
      var g := new Cell[GridSize, GridSize]((y, x) requires 0 <= y < GridSize && 0 <= x < GridSize =>
        Cell(None, 0, bonuses[y][x]));
      var i := 0;
      while i < numPlayers
        invariant 0 <= i <= numPlayers
        invariant forall j :: 0 <= j < i ==>
                    g[starts[j].y, starts[j].x] == Cell(Some(j), StartingTroops, bonuses[starts[j].y][starts[j].x])
        invariant forall y, x :: 0 <= y < GridSize && 0 <= x < GridSize && Pos(x, y) !in starts[..i] ==>
                    g[y, x] == Cell(None, 0, bonuses[y][x])
      {
        var p := starts[i];
        g[p.y, p.x] := Cell(Some(i), StartingTroops, bonuses[p.y][p.x]);
        i := i + 1;
      }
      assert starts[..numPlayers] == starts;
      grid := g;
      players := seq(numPlayers, j requires 0 <= j => Player(j, j > 0));
      currentPlayer := 0;
      selectedCell := None;
      gameOver := false;
    }

    /** A move order from `from` to `to` is legal: the source belongs to the current player and
        the target lies within its movement range (Chebyshev distance 2 on a MOVEMENT cell, else 1).
        The source itself is a legal target. */
    function IsValidMove(from: Pos, to: Pos): (ok: bool)
      reads this, grid
      requires Valid() && InBounds(from)
      ensures ok <==> At(from).owner == Some(currentPlayer) &&
                      Chebyshev(from, to) <= MaxDistance(At(from).bonus)
    {
      var dx := Abs(to.x - from.x);
      var dy := Abs(to.y - from.y);
      if grid[from.y, from.x].owner != Some(currentPlayer) then false
      else
        var maxDistance := MaxDistance(grid[from.y, from.x].bonus);
        dx <= maxDistance && dy <= maxDistance
    }

    /** Carry out a move order. Between two different cells the result is `Move`; a move from
        a cell onto itself detaches the troops and merges them straight back. */
    method MoveTroops(from: Pos, to: Pos)
      requires Valid() && InBounds(from) && InBounds(to)
      modifies grid
      ensures Valid()
      ensures from == to ==> unchanged(grid)
      ensures from != to ==>
                At(from) == Move(old(At(from)), old(At(to))).0 &&
                At(to) == Move(old(At(from)), old(At(to))).1
      ensures forall y, x | 0 <= y < GridSize && 0 <= x < GridSize && Pos(x, y) != from && Pos(x, y) != to ::
                grid[y, x] == old(grid[y, x])
      ensures Owners() <= old(Owners())
    {
      var sourceCell := grid[from.y, from.x];
      var movingTroops := sourceCell.troops - 1;
      if movingTroops < 1 {
        return;
      }
      grid[from.y, from.x] := sourceCell.(troops := 1);
      sourceCell := grid[from.y, from.x];
      // Read the target only now: when from == to it is the cell just written.
      var targetCell := grid[to.y, to.x];
      if targetCell.owner == sourceCell.owner {
        grid[to.y, to.x] := targetCell.(troops := targetCell.troops + movingTroops);
      } else {
        grid[to.y, to.x] := ResolveAttack(sourceCell, targetCell, movingTroops);
      }
      // Every owner left on the grid already owned its cell or the source cell.
      forall o | o in Owners() ensures o in old(Owners()) {
        var yy, xx :| 0 <= yy < GridSize && 0 <= xx < GridSize && grid[yy, xx].owner == Some(o);
        if old(grid[yy, xx]).owner != Some(o) {
          assert old(grid[from.y, from.x]).owner == Some(o);
        }
      }
    }

    /** The set of distinct owners on the grid, gathered by a row-major scan. */
    method CollectOwners() returns (remaining: set<nat>)
      requires Valid()
      ensures remaining == Owners()
      ensures forall o :: o in remaining ==> o < |players|
    {
      remaining := {};
      var y := 0;
      while y < GridSize
        invariant 0 <= y <= GridSize
        invariant forall o :: o in remaining <==>
                    exists yy, xx :: 0 <= yy < y && 0 <= xx < GridSize && grid[yy, xx].owner == Some(o)
      {
        var x := 0;
        while x < GridSize
          invariant 0 <= x <= GridSize
          invariant forall o :: o in remaining <==>
                      exists yy, xx :: 0 <= xx < GridSize && 0 <= yy <= y &&
                        (yy < y || xx < x) && grid[yy, xx].owner == Some(o)
        {
          var cell := grid[y, x];
          if cell.owner.Some? {
            remaining := remaining + {cell.owner.value};
          }
          x := x + 1;
        }
        y := y + 1;
      }
      forall o | o in Owners() ensures o in remaining {
        var yy, xx :| 0 <= yy < GridSize && 0 <= xx < GridSize && grid[yy, xx].owner == Some(o);
      }
    }

    /** The win check: when exactly one owner is left on the grid the game is over and that
        owner is the winner. */
    method CheckWinCondition() returns (winner: Option<nat>)
      requires Valid()
      modifies this`gameOver
      ensures Valid()
      ensures winner.Some? <==> |Owners()| == 1
      ensures winner.Some? ==> Owners() == {winner.value} && winner.value < |players| && gameOver
      ensures winner.None? ==> gameOver == old(gameOver)
    {
      var remaining := CollectOwners();
      if |remaining| == 1 {
        var w :| w in remaining;
        assert |remaining - {w}| == 0;
        assert remaining == {w};
        gameOver := true;
        winner := Some(w);
      } else {
        winner := None;
      }
    }

    /** End-of-turn production over the whole grid, row by row. */
    method ProduceTroops()
      requires Valid()
      modifies grid
      ensures Valid()
      ensures forall y, x :: 0 <= y < GridSize && 0 <= x < GridSize ==>
                grid[y, x] == Produce(old(grid[y, x]))
      ensures Owners() == old(Owners())
    {
      var y := 0;
      while y < GridSize
        invariant 0 <= y <= GridSize
        invariant forall yy, xx :: 0 <= yy < GridSize && 0 <= xx < GridSize ==>
                    grid[yy, xx] == if yy < y then Produce(old(grid[yy, xx])) else old(grid[yy, xx])
      {
        var x := 0;
        while x < GridSize
          invariant 0 <= x <= GridSize
          invariant forall yy, xx :: 0 <= yy < GridSize && 0 <= xx < GridSize ==>
                      grid[yy, xx] == if yy < y || (yy == y && xx < x) then Produce(old(grid[yy, xx]))
                                      else old(grid[yy, xx])
        {
          var cell := grid[y, x];
          if cell.owner.Some? {
            var productionRate := ProductionRate(cell.bonus);
            if cell.troops < ProductionCap {
              grid[y, x] := cell.(troops := if cell.troops + productionRate < ProductionCap
                                             then cell.troops + productionRate else ProductionCap);
            }
          }
          x := x + 1;
        }
        y := y + 1;
      }
      forall o | o in old(Owners()) ensures o in Owners() {
        var yy, xx :| 0 <= yy < GridSize && 0 <= xx < GridSize && old(grid[yy, xx]).owner == Some(o);
        assert grid[yy, xx].owner == Some(o);
      }
      forall o | o in Owners() ensures o in old(Owners()) {
        var yy, xx :| 0 <= yy < GridSize && 0 <= xx < GridSize && grid[yy, xx].owner == Some(o);
        assert old(grid[yy, xx]).owner == Some(o);
      }
    }

    /** The computer player's choice of source: the first cell, in row-major order, holding
        strictly the most troops among the current player's cells; none if they are all empty. */
    method FindStrongestCell() returns (strongest: Option<Pos>)
      requires Valid()
      ensures strongest.None? <==> NoStrongestCell()
      ensures strongest.Some? ==> IsStrongestCell(strongest.value)
    {
      strongest := None;
      var maxTroops := 0;
      var y := 0;
      while y < GridSize
        invariant 0 <= y <= GridSize
        invariant strongest.None? ==> maxTroops == 0
        invariant strongest.Some? ==>
                    InBounds(strongest.value) && strongest.value.y < y &&
                    At(strongest.value).owner == Some(currentPlayer) && At(strongest.value).troops == maxTroops > 0
        invariant forall yy, xx | 0 <= yy < y && 0 <= xx < GridSize && grid[yy, xx].owner == Some(currentPlayer) ::
                    grid[yy, xx].troops <= maxTroops
        invariant strongest.Some? ==>
                    forall yy, xx | 0 <= yy < y && 0 <= xx < GridSize && grid[yy, xx].owner == Some(currentPlayer) &&
                                    RowMajorBefore(Pos(xx, yy), strongest.value) ::
                      grid[yy, xx].troops < maxTroops
      {
        var x := 0;
        while x < GridSize
          invariant 0 <= x <= GridSize
          invariant strongest.None? ==> maxTroops == 0
          invariant strongest.Some? ==>
                      InBounds(strongest.value) && RowMajorBefore(strongest.value, Pos(x, y)) &&
                      At(strongest.value).owner == Some(currentPlayer) && At(strongest.value).troops == maxTroops > 0
          invariant forall yy, xx | 0 <= yy <= y && 0 <= xx < GridSize && (yy < y || xx < x) &&
                                    grid[yy, xx].owner == Some(currentPlayer) ::
                      grid[yy, xx].troops <= maxTroops
          invariant strongest.Some? ==>
                      forall yy, xx | 0 <= yy <= y && 0 <= xx < GridSize && (yy < y || xx < x) &&
                                      grid[yy, xx].owner == Some(currentPlayer) &&
                                      RowMajorBefore(Pos(xx, yy), strongest.value) ::
                        grid[yy, xx].troops < maxTroops
        {
          var cell := grid[y, x];
          if cell.owner == Some(currentPlayer) && cell.troops > maxTroops {
            strongest := Some(Pos(x, y));
            maxTroops := cell.troops;
          }
          x := x + 1;
        }
        y := y + 1;
      }
    }

    /** Ties are broken by position, so the computer player's source cell is determined. */
    lemma StrongestCellIsUnique(p: Pos, q: Pos)
      requires Valid() && IsStrongestCell(p) && IsStrongestCell(q)
      ensures p == q
    {
    }

    /** For a source cell of the current player, the computer's move targets are exactly the
        in-bounds cells other than the source to which a human move would be legal. */
    lemma TargetsAreValidMoves(p: Pos, t: Pos)
      requires Valid() && InBounds(p) && At(p).owner == Some(currentPlayer)
      ensures (InBounds(t) && t != p && Chebyshev(p, t) <= MaxDistance(At(p).bonus)) <==>
              (InBounds(t) && t != p && IsValidMove(p, t))
    {
    }

    /** The computer's move targets from `pos`: every in-bounds cell other than `pos` within
        the movement range of the cell's bonus, in row-major order (so without duplicates). */
    method GetValidMoveTargets(pos: Pos) returns (targets: seq<Pos>)
      requires Valid() && InBounds(pos)
      ensures forall t :: t in targets <==>
                InBounds(t) && t != pos && Chebyshev(pos, t) <= MaxDistance(At(pos).bonus)
      ensures forall i, j :: 0 <= i < j < |targets| ==> RowMajorBefore(targets[i], targets[j])
    {
      targets := CellsInRange(pos, MaxDistance(grid[pos.y, pos.x].bonus));
    }

    /** The computer player's move, before its turn ends: from the strongest cell to the target
        that `pick` (a random number in [0, 1)) selects among the valid targets. */
    method PerformAIMove(pick: real) returns (source: Option<Pos>, target: Option<Pos>)
      requires Valid() && 0.0 <= pick < 1.0
      modifies grid
      ensures Valid() && Owners() <= old(Owners())
      ensures source.None? <==> old(NoStrongestCell())
      ensures source.Some? ==> old(IsStrongestCell(source.value))
      ensures target.Some? <==> source.Some?
      ensures target.Some? ==>
                InBounds(target.value) && target.value != source.value &&
                Chebyshev(source.value, target.value) <= MaxDistance(old(At(source.value)).bonus)
      ensures source.None? ==> unchanged(grid)
      ensures target.Some? ==>
                At(source.value) == Move(old(At(source.value)), old(At(target.value))).0 &&
                At(target.value) == Move(old(At(source.value)), old(At(target.value))).1
      ensures target.Some? ==>
                forall y, x | 0 <= y < GridSize && 0 <= x < GridSize &&
                              Pos(x, y) != source.value && Pos(x, y) != target.value ::
                  grid[y, x] == old(grid[y, x])
    {
      target := None;
      source := FindStrongestCell();
      if source.Some? {
        var p := source.value;
        var targets := GetValidMoveTargets(p);
        // Every cell has an in-bounds neighbour one step away.
        var q := if p.x + 1 < GridSize then Pos(p.x + 1, p.y) else Pos(p.x - 1, p.y);
        assert q in targets;
        if |targets| > 0 {
          RandomIndexInRange(pick, |targets|);
          var i := (pick * |targets| as real).Floor;
          target := Some(targets[i]);
          MoveTroops(p, targets[i]);
        }
      }
    }


    /** The end of a turn proper: the win check, then, when there is no winner, production on
        every cell and the turn passing to the next player. */
    method FinishTurn() returns (winner: Option<nat>)
      requires Valid()
      modifies this`gameOver, this`currentPlayer, grid
      ensures Valid()
      ensures winner.Some? <==> old(|Owners()|) == 1
      ensures winner.Some? ==>
                old(Owners()) == {winner.value} && gameOver &&
                currentPlayer == old(currentPlayer) && unchanged(grid)
      ensures winner.None? ==>
                gameOver == old(gameOver) && currentPlayer == (old(currentPlayer) + 1) % |players| &&
                Owners() == old(Owners()) &&
                forall y, x :: 0 <= y < GridSize && 0 <= x < GridSize ==>
                  grid[y, x] == Produce(old(grid[y, x]))
    {
      winner := CheckWinCondition();
      if winner.Some? {
        return;
      }
      ProduceTroops();
      currentPlayer := (currentPlayer + 1) % |players|;
    }

    /** Play computer turns, each a computer move and an end of turn, while a computer player
        is to move and the game is not over. `picks` supplies the random numbers in the order
        they are drawn; a computer turn with no strongest cell draws none. Returns the number of
        computer turns played. */
    method PlayComputerTurns(picks: seq<real>) returns (aiTurns: nat)
      requires Valid() && AllRandom(picks) && |players| <= |picks| + 1
      modifies this, grid
      ensures Valid() && selectedCell == old(selectedCell)
      ensures Owners() <= old(Owners())
      ensures old(gameOver) || old(currentPlayer) == 0 ==> aiTurns == 0 && unchanged(this) && unchanged(grid)
      ensures !old(gameOver) && old(currentPlayer) != 0 ==> aiTurns > 0
      ensures old(currentPlayer) + aiTurns <= |players|
      ensures old(gameOver) ==> gameOver
      ensures gameOver && !old(gameOver) ==> |Owners()| == 1
      ensures !gameOver ==>
                currentPlayer == 0 && aiTurns == if old(currentPlayer) == 0 then 0 else |players| - old(currentPlayer)
    {
      aiTurns := 0;
      if gameOver || !players[currentPlayer].isAI {
        return;
      }
      var draws := 0;
      while players[currentPlayer].isAI && !gameOver
        invariant Valid() && selectedCell == old(selectedCell)
        invariant Owners() <= old(Owners())
        invariant draws <= aiTurns && old(currentPlayer) + aiTurns <= |players|
        invariant !gameOver ==>
                    currentPlayer == if old(currentPlayer) + aiTurns == |players| then 0
                                     else old(currentPlayer) + aiTurns
        invariant gameOver ==> aiTurns > 0 && |Owners()| == 1
        decreases |players| - aiTurns
      {
        var source, _ := PerformAIMove(picks[draws]);
        if source.Some? {
          draws := draws + 1;
        }
        aiTurns := aiTurns + 1;
        NextPlayer(currentPlayer, |players|);
        var _ := FinishTurn();
      }
    }

    /** End the current turn, then play the computer turns that follow until the human is to
        move or the game is over. Returns the number of computer turns played. */
    method EndTurn(picks: seq<real>) returns (aiTurns: nat)
      requires Valid() && AllRandom(picks) && |players| <= |picks| + 1
      modifies this, grid
      ensures Valid() && selectedCell == old(selectedCell)
      ensures old(currentPlayer) + aiTurns < |players|
      ensures Owners() <= old(Owners())
      ensures old(gameOver) ==> gameOver
      ensures gameOver && !old(gameOver) ==> |Owners()| == 1
      ensures !gameOver ==> currentPlayer == 0 && aiTurns == |players| - 1 - old(currentPlayer)
      ensures old(|Owners()|) == 1 ==>
                gameOver && aiTurns == 0 && currentPlayer == old(currentPlayer) && unchanged(grid)
      ensures aiTurns == 0 && currentPlayer == old(currentPlayer) ==> old(|Owners()|) == 1
      ensures old(|Owners()|) != 1 && (old(gameOver) || old(currentPlayer) + 1 == |players|) ==>
                aiTurns == 0 && currentPlayer == (old(currentPlayer) + 1) % |players| &&
                gameOver == old(gameOver) &&
                forall y, x :: 0 <= y < GridSize && 0 <= x < GridSize ==>
                  grid[y, x] == Produce(old(grid[y, x]))
      ensures old(|Owners()|) != 1 && !old(gameOver) && old(currentPlayer) + 1 < |players| ==> aiTurns > 0
    {
      aiTurns := 0;
      NextPlayer(currentPlayer, |players|);
      var winner := FinishTurn();
      if winner.Some? {
        return;
      }
      aiTurns := PlayComputerTurns(picks);
    }

    /** The contents of cell `p` once the move order `from` -> `to` has been carried out. */
    ghost function AfterMove(from: Pos, to: Pos, p: Pos): Cell
      reads this, grid
      requires Valid() && InBounds(from) && InBounds(to) && InBounds(p)
    {
      if from == to then At(p)
      else if p == from then Move(At(from), At(to)).0
      else if p == to then Move(At(from), At(to)).1
      else At(p)
    }

    /** A click on grid cell (x, y). With nothing selected, an own cell becomes the selection.
        With a selection, a legal move is carried out and the turn ends; either way the
        selection is cleared. Clicks after the game is over or outside the grid are ignored. */
    method HandleClick(x: int, y: int, picks: seq<real>) returns (aiTurns: nat)
      requires Valid() && AllRandom(picks) && |players| <= |picks| + 1
      modifies this, grid
      ensures Valid() && Owners() <= old(Owners())
      ensures old(gameOver) || !InBounds(Pos(x, y)) ==>
                unchanged(this) && unchanged(grid) && aiTurns == 0
      ensures !old(gameOver) && InBounds(Pos(x, y)) && old(selectedCell).None? ==>
                unchanged(grid) && currentPlayer == old(currentPlayer) && !gameOver && aiTurns == 0 &&
                selectedCell == (if old(At(Pos(x, y))).owner == Some(old(currentPlayer))
                                 then Some(Pos(x, y)) else None)
      ensures !old(gameOver) && InBounds(Pos(x, y)) && old(selectedCell).Some? ==> selectedCell == None
      ensures !old(gameOver) && InBounds(Pos(x, y)) && old(selectedCell).Some? &&
              !old(IsValidMove(selectedCell.value, Pos(x, y))) ==>
                unchanged(grid) && currentPlayer == old(currentPlayer) && !gameOver && aiTurns == 0
      ensures !old(gameOver) && InBounds(Pos(x, y)) && old(selectedCell).Some? &&
              old(IsValidMove(selectedCell.value, Pos(x, y))) ==>
                old(currentPlayer) + aiTurns < |players| &&
                (gameOver || (currentPlayer == 0 && aiTurns == |players| - 1 - old(currentPlayer))) &&
                (gameOver ==> |Owners()| == 1)
      // The move ends the game at once: the grid is the grid right after the move.
      ensures !old(gameOver) && InBounds(Pos(x, y)) && old(selectedCell).Some? &&
              old(IsValidMove(selectedCell.value, Pos(x, y))) &&
              aiTurns == 0 && currentPlayer == old(currentPlayer) ==>
                gameOver &&
                forall yy, xx :: 0 <= yy < GridSize && 0 <= xx < GridSize ==>
                  grid[yy, xx] == old(AfterMove(selectedCell.value, Pos(x, y), Pos(xx, yy)))
      // The human is next again without a computer turn: production ran on the moved grid.
      ensures !old(gameOver) && InBounds(Pos(x, y)) && old(selectedCell).Some? &&
              old(IsValidMove(selectedCell.value, Pos(x, y))) &&
              aiTurns == 0 && currentPlayer != old(currentPlayer) ==>
                !gameOver && currentPlayer == 0 &&
                forall yy, xx :: 0 <= yy < GridSize && 0 <= xx < GridSize ==>
                  grid[yy, xx] == Produce(old(AfterMove(selectedCell.value, Pos(x, y), Pos(xx, yy))))
    {
      aiTurns := 0;
      if gameOver {
        return;
      }
      if x < 0 || x >= GridSize || y < 0 || y >= GridSize {
        return;
      }
      if selectedCell.None? {
        if grid[y, x].owner == Some(currentPlayer) {
          selectedCell := Some(Pos(x, y));
        }
      } else {
        if IsValidMove(selectedCell.value, Pos(x, y)) {
          MoveTroops(selectedCell.value, Pos(x, y));
          aiTurns := EndTurn(picks);
        }
        selectedCell := None;
      }
    }
  }
}
