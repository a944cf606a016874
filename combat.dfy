/** Move and attack resolution between two grid cells (game.js `moveTroops`). */
module Combat {
  import opened Cells

  /** The attacker's strength as the game computes it in floating point: 1.5 on an ATTACK cell. */
  function AttackStrength(src: Cell, moving: int): real {
    moving as real * (if src.bonus == Some(Attack) then 1.5 else 1.0)
  }

  /** The defender's strength as the game computes it in floating point: 1.5 on a DEFENSE cell. */
  function DefenseStrength(tgt: Cell): real {
    tgt.troops as real * (if tgt.bonus == Some(Defense) then 1.5 else 1.0)
  }

  /** Twice the attack strength, an integer. */
  function DoubledAttack(src: Cell, moving: int): int {
    if src.bonus == Some(Attack) then 3 * moving else 2 * moving
  }

  /** Twice the defence strength, an integer. */
  function DoubledDefense(tgt: Cell): int {
    if tgt.bonus == Some(Defense) then 3 * tgt.troops else 2 * tgt.troops
  }

  /** Halving a non-negative integer and flooring agrees with integer division. */
  lemma HalfFloor(n: int)
    requires n >= 0
    ensures (n as real / 2.0).Floor == n / 2
  {
  }

  /** `moving` troops from `src` attack the foreign cell `tgt`: the stronger side keeps the
      cell, holding the floored difference of the two strengths. Computed exactly in integers
      by doubling both strengths. */
  function ResolveAttack(src: Cell, tgt: Cell, moving: int): (r: Cell)
    ensures r.bonus == tgt.bonus
    ensures AttackStrength(src, moving) > DefenseStrength(tgt) ==>
              r.owner == src.owner &&
              r.troops == (AttackStrength(src, moving) - DefenseStrength(tgt)).Floor
    ensures AttackStrength(src, moving) <= DefenseStrength(tgt) ==>
              r.owner == tgt.owner &&
              r.troops == (DefenseStrength(tgt) - AttackStrength(src, moving)).Floor
    ensures r.troops >= 0
  {
    var a, d := DoubledAttack(src, moving), DoubledDefense(tgt);
    assert AttackStrength(src, moving) == a as real / 2.0;
    assert DefenseStrength(tgt) == d as real / 2.0;
    if a > d then
      HalfFloor(a - d);
      Cell(src.owner, (a - d) / 2, tgt.bonus)
    else
      HalfFloor(d - a);
      tgt.(troops := (d - a) / 2)
  }

  /** The new contents of a source cell and a DIFFERENT target cell after a move order.
      (A move from a cell onto itself is handled by the grid: it leaves the cell as it was.) */
  function Move(src: Cell, tgt: Cell): (r: (Cell, Cell))
    ensures src.troops <= 1 ==> r == (src, tgt)
    ensures src.troops > 1 ==> r.0 == src.(troops := 1)
    ensures src.troops > 1 && tgt.owner == src.owner ==>
              r.1.owner == tgt.owner && r.1.bonus == tgt.bonus &&
              r.1.troops == tgt.troops + (src.troops - 1)
    ensures src.troops > 1 && tgt.owner != src.owner ==>
              r.1 == ResolveAttack(src, tgt, src.troops - 1)
  {
    var moving := src.troops - 1;
    if moving < 1 then (src, tgt)
    else
      var src' := src.(troops := 1);
      if tgt.owner == src'.owner then (src', tgt.(troops := tgt.troops + moving))
      else (src', ResolveAttack(src', tgt, moving))
  }

  /** Reinforcement moves troops without creating or destroying any, and has no cap. */
  lemma ReinforcementConserves(src: Cell, tgt: Cell)
    requires src.troops > 1 && tgt.owner == src.owner
    ensures Move(src, tgt).0.troops + Move(src, tgt).1.troops == src.troops + tgt.troops
    ensures Move(src, tgt).1.troops > tgt.troops
  {
  }

  /** An attack captures the target exactly when it is strictly stronger than the defence. */
  lemma CaptureIffStronger(src: Cell, tgt: Cell)
    requires src.troops > 1 && tgt.owner != src.owner
    ensures Move(src, tgt).1.owner == src.owner <==>
              AttackStrength(src, src.troops - 1) > DefenseStrength(tgt)
  {
  }

  /** Equal strengths: the defender holds the cell with no troops left. */
  lemma TieLeavesEmptyDefender(src: Cell, tgt: Cell)
    requires src.troops > 1 && tgt.owner != src.owner
    requires AttackStrength(src, src.troops - 1) == DefenseStrength(tgt)
    ensures Move(src, tgt).1 == tgt.(troops := 0)
  {
  }

  /** Without bonuses the result is plain subtraction of the two garrisons. */
  lemma PlainAttack(src: Cell, tgt: Cell)
    requires src.troops > 1 && tgt.owner != src.owner
    requires src.bonus != Some(Attack) && tgt.bonus != Some(Defense)
    ensures src.troops - 1 > tgt.troops ==>
              Move(src, tgt).1 == Cell(src.owner, src.troops - 1 - tgt.troops, tgt.bonus)
    ensures src.troops - 1 <= tgt.troops ==>
              Move(src, tgt).1 == tgt.(troops := tgt.troops - (src.troops - 1))
  {
  }

  /** A move introduces no new owner: the source keeps its owner and the target ends up with
      its own owner or the source's. */
  lemma MoveKeepsOwners(src: Cell, tgt: Cell)
    ensures Move(src, tgt).0.owner == src.owner
    ensures Move(src, tgt).1.owner == src.owner || Move(src, tgt).1.owner == tgt.owner
  {
  }

  /** A move never leaves either cell with a negative garrison. */
  lemma MoveKeepsTroopsNonNegative(src: Cell, tgt: Cell)
    requires src.troops >= 0 && tgt.troops >= 0
    ensures Move(src, tgt).0.troops >= 0 && Move(src, tgt).1.troops >= 0
  {
  }

  /** 10 troops on an ATTACK cell (9 move, strength 13.5) against 10 on a DEFENSE cell
      (strength 15): the defender holds with 1 troop. 10 plain troops against 5: captured with 4. */
  lemma CombatExamples(a: nat, b: nat)
    requires a != b
    ensures Move(Cell(Some(a), 10, Some(Attack)), Cell(Some(b), 10, Some(Defense))) ==
              (Cell(Some(a), 1, Some(Attack)), Cell(Some(b), 1, Some(Defense)))
    ensures Move(Cell(Some(a), 10, None), Cell(Some(b), 5, None)).1 == Cell(Some(a), 4, None)
  {
  }
}
