/** The walkability test of the grid routing actions (`IBaseRouting`): one step in a
    direction from a position, checked against the grid's bounds and a walkable function
    fixed when the routing is built. */
module AgentSpeakRouting {

  /** An object grid: `cells[row][column]` says whether the cell holds an object
      (is non-null). Every row has `columns` cells. */
  datatype Grid = Grid(cells: seq<seq<bool>>, columns: nat)

  predicate WellFormed(g: Grid)
  {
    forall r :: 0 <= r < |g.cells| ==> |g.cells[r]| == g.columns
  }

  function Rows(g: Grid): nat { |g.cells| }

  /** A position vector: entry 0 is the row, entry 1 the column. */
  datatype Position = Position(row: real, column: real)

  /** Both coordinates lie inside the grid, compared as reals. */
  predicate InBounds(g: Grid, p: Position)
  {
    0.0 <= p.row && p.row < Rows(g) as real && 0.0 <= p.column && p.column < g.columns as real
  }

  /** Java's `(int)` cast of a double: truncation toward zero. */
  function Truncate(x: real): (r: int)
    ensures 0.0 <= x ==> r as real <= x < r as real + 1.0
    ensures x < 0.0 ==> r as real - 1.0 < x <= r as real
  {
    if x >= 0.0 then x.Floor else -((-x).Floor)
  }

  /** A coordinate inside `[0, n)` truncates to an index of `[0, n)`. */
  lemma TruncateInRange(x: real, n: nat)
    requires 0.0 <= x < n as real
    ensures 0 <= Truncate(x) < n
  {
  }

  /** The routing: its walkable function, which only has to be defined inside the grid. */
  datatype Routing = Routing(walkable: (Grid, Position) --> bool)

  /** A walkable function that can be asked about any position inside the grid. */
  ghost predicate DefinedInside(routing: Routing, g: Grid)
  {
    forall p :: InBounds(g, p) ==> routing.walkable.requires(g, p)
  }

  /** The default walkable function: the cell at the truncated coordinates holds an
      object. */
  function DefaultWalkable(g: Grid, p: Position): bool
    requires WellFormed(g) && InBounds(g, p)
  {
    TruncateInRange(p.row, Rows(g));
    TruncateInRange(p.column, g.columns);
    g.cells[Truncate(p.row)][Truncate(p.column)]
  }

  /** The default constructor's routing. */
  function DefaultRouting(): (r: Routing)
    ensures forall g :: WellFormed(g) ==> DefinedInside(r, g)
  {
    Routing((g, p) requires WellFormed(g) && InBounds(g, p) => DefaultWalkable(g, p))
  }

  /** `walkable`: the position one step in `direction`, and whether it is inside the grid
      and walkable there. The bounds are tested first, so the walkable function is asked
      only about positions inside the grid. */
  function Walkable(routing: Routing, g: Grid, current: Position, direction: Position -> Position): (r: (bool, Position))
    requires DefinedInside(routing, g)
    ensures r.1 == direction(current)
    ensures r.0 <==> InBounds(g, r.1) && routing.walkable(g, r.1)
  {
    var position := direction(current);
    (InBounds(g, position) && routing.walkable(g, position), position)
  }

  /** With the default routing a step is walkable exactly when it stays inside the grid
      and lands on a cell that holds an object. */
  lemma DefaultWalkableStep(g: Grid, current: Position, direction: Position -> Position)
    requires WellFormed(g)
    ensures var p := direction(current);
      Walkable(DefaultRouting(), g, current, direction).0 <==>
        InBounds(g, p) && 0 <= Truncate(p.row) < Rows(g) && 0 <= Truncate(p.column) < g.columns &&
        g.cells[Truncate(p.row)][Truncate(p.column)]
  {
    var p := direction(current);
    if InBounds(g, p) {
      TruncateInRange(p.row, Rows(g));
      TruncateInRange(p.column, g.columns);
    }
  }

  /** A step to a row just above the grid is refused even though its truncated row, 0,
      is a row of the grid: the bounds are tested on the real coordinates. */
  lemma NegativeFractionRefused(g: Grid, routing: Routing)
    requires DefinedInside(routing, g) && Rows(g) > 0 && g.columns > 0
    ensures var up := (p: Position) => Position(p.row - 1.0, p.column);
      var r := Walkable(routing, g, Position(0.5, 0.0), up);
      !r.0 && Truncate(r.1.row) == 0 && r.1 == Position(-0.5, 0.0)
  {
  }
}
