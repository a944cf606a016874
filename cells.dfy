/** The grid's data model: cells, bonuses, coordinates, movement range and the
    per-cell production rule of the base GridState game. */
module Cells {

  datatype Option<T> = None | Some(value: T)

  /** The four cell bonuses; a cell carries at most one (`None` for no bonus). */
  datatype Bonus = Production | Defense | Attack | Movement

  /** One grid cell. `owner` is a player id or `None`; `troops` is the garrison. */
  datatype Cell = Cell(owner: Option<nat>, troops: int, bonus: Option<Bonus>)

  /** A grid coordinate; the grid is indexed `grid[y][x]`. */
  datatype Pos = Pos(x: int, y: int)

  const GridSize: nat := 20
  const ProductionCap: int := 100
  const StartingTroops: int := 20

  predicate InBounds(p: Pos) {
    0 <= p.x < GridSize && 0 <= p.y < GridSize
  }

  function Abs(n: int): nat {
    if n < 0 then -n else n
  }

  /** Chebyshev (king-move) distance: diagonal steps cost the same as straight ones. */
  function Chebyshev(a: Pos, b: Pos): nat {
    var dx := Abs(b.x - a.x);
    var dy := Abs(b.y - a.y);
    if dx < dy then dy else dx
  }

  /** How far a force may travel out of a cell with the given bonus. */
  function MaxDistance(bonus: Option<Bonus>): (d: nat)
    ensures d == 1 || d == 2
    ensures d == 2 <==> bonus == Some(Movement)
  {
    if bonus == Some(Movement) then 2 else 1
  }

  /** A MOVEMENT cell reaches Chebyshev distance 2 but not 3; any other cell reaches 1 but not 2. */
  lemma MovementRangeExamples(p: Pos, b: Option<Bonus>)
    requires b != Some(Movement)
    ensures Chebyshev(p, Pos(p.x + 2, p.y - 2)) <= MaxDistance(Some(Movement))
    ensures Chebyshev(p, Pos(p.x - 3, p.y + 1)) > MaxDistance(Some(Movement))
    ensures Chebyshev(p, Pos(p.x + 1, p.y + 1)) <= MaxDistance(b)
    ensures Chebyshev(p, Pos(p.x, p.y + 2)) > MaxDistance(b)
  {
  }

  /** Row-major order: row `y` first, then column `x`. */
  predicate RowMajorBefore(a: Pos, b: Pos) {
    a.y < b.y || (a.y == b.y && a.x < b.x)
  }

  /** Cells of the square of radius `maxDistance` around `pos` that lie in the grid and are
      not `pos` itself. */
  predicate InRange(pos: Pos, maxDistance: nat, t: Pos) {
    InBounds(t) && t != pos && Chebyshev(pos, t) <= maxDistance
  }

  /** One row `pos.y + dy` of the scan: appends its in-range cells, left to right. */
  method ScanRow(pos: Pos, maxDistance: nat, dy: int, prefix: seq<Pos>) returns (targets: seq<Pos>)
    requires -(maxDistance as int) <= dy <= maxDistance
    requires forall t :: t in prefix <==> InRange(pos, maxDistance, t) && t.y < pos.y + dy
    requires forall i, j :: 0 <= i < j < |prefix| ==> RowMajorBefore(prefix[i], prefix[j])
    ensures forall t :: t in targets <==> InRange(pos, maxDistance, t) && t.y <= pos.y + dy
    ensures forall i, j :: 0 <= i < j < |targets| ==> RowMajorBefore(targets[i], targets[j])
  {
    targets := prefix;
    var dx: int := -(maxDistance as int);
    while dx <= maxDistance
      invariant -(maxDistance as int) <= dx <= maxDistance + 1
      invariant forall t :: t in targets <==>
                  InRange(pos, maxDistance, t) && RowMajorBefore(t, Pos(pos.x + dx, pos.y + dy))
      invariant forall i, j :: 0 <= i < j < |targets| ==> RowMajorBefore(targets[i], targets[j])
    {
      var x := pos.x + dx;
      var y := pos.y + dy;
      if 0 <= x < GridSize && 0 <= y < GridSize {
        if dx != 0 || dy != 0 {
          assert forall i :: 0 <= i < |targets| ==> RowMajorBefore(targets[i], Pos(x, y));
          targets := targets + [Pos(x, y)];
        }
      }
      dx := dx + 1;
    }
  }

  /** All in-bounds cells other than `pos` within Chebyshev distance `maxDistance` of it,
      scanned row by row over the square around `pos`, so listed in row-major order. */
  method CellsInRange(pos: Pos, maxDistance: nat) returns (targets: seq<Pos>)
    ensures forall t :: t in targets <==> InBounds(t) && t != pos && Chebyshev(pos, t) <= maxDistance
    ensures forall i, j :: 0 <= i < j < |targets| ==> RowMajorBefore(targets[i], targets[j])
  {
    targets := [];
    var dy: int := -(maxDistance as int);
    while dy <= maxDistance
      invariant -(maxDistance as int) <= dy <= maxDistance + 1
      invariant forall t :: t in targets <==> InRange(pos, maxDistance, t) && t.y < pos.y + dy
      invariant forall i, j :: 0 <= i < j < |targets| ==> RowMajorBefore(targets[i], targets[j])
    {
      targets := ScanRow(pos, maxDistance, dy, targets);
      dy := dy + 1;
    }
  }

  function ProductionRate(bonus: Option<Bonus>): int {
    if bonus == Some(Production) then 2 else 1
  }

  /** One end-of-turn production tick applied to a single cell. */
  function Produce(c: Cell): (r: Cell)
    ensures r.owner == c.owner && r.bonus == c.bonus
    ensures c.troops <= r.troops
    ensures c.owner.None? || c.troops >= ProductionCap ==> r == c
    ensures c.owner.Some? && c.troops + ProductionRate(c.bonus) <= ProductionCap ==>
              r.troops == c.troops + ProductionRate(c.bonus)
    ensures c.owner.Some? && c.troops < ProductionCap < c.troops + ProductionRate(c.bonus) ==>
              r.troops == ProductionCap
  {
    if c.owner.Some? && c.troops < ProductionCap then
      var t := c.troops + ProductionRate(c.bonus);
      c.(troops := if t < ProductionCap then t else ProductionCap)
    else
      c
  }

  /** Production never lifts a cell past the cap, and a cell already above the cap keeps its count. */
  lemma ProduceRespectsCap(c: Cell)
    ensures Produce(c).troops <= if c.troops < ProductionCap then ProductionCap else c.troops
  {
  }

  /** A PRODUCTION cell at the cap stays there; a plain owned cell one below reaches it exactly. */
  lemma ProductionCapExamples(p: nat)
    ensures Produce(Cell(Some(p), ProductionCap, Some(Production))).troops == ProductionCap
    ensures Produce(Cell(Some(p), ProductionCap - 1, None)).troops == ProductionCap
    ensures Produce(Cell(Some(p), ProductionCap - 1, Some(Production))).troops == ProductionCap
  {
  }
}
