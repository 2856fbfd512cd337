/**
  The value types of the search engine (src/types.d.ts).
  A puzzle is a square grid of numbers, row by row; the blank is the cell
  holding 0. Nodes are immutable values: the engine never updates a node once
  it is built.
 */
module Types {

  /** `Puzzle`: the rows of the grid; cell (x, y) is `puzzle[x][y]`. */
  type Grid = seq<seq<int>>

  /** The identity string of a grid, used as the key of the closed sets. */
  type Id = string

  /** `Move`: the direction in which the blank travels. */
  datatype Move = Up | Down | Left | Right

  /** `searchStyle`: selects the node factory, the value getter and the queue order. */
  datatype SearchStyle = Normal | Greedy | Uniform

  /** `Heuristic`: an opaque estimate of the remaining cost of a grid. */
  type Heuristic = Grid -> nat

  /** `sNode`: one search state together with the moves that reached it. */
  datatype Node = Node(
    id: Id,
    puzzle: Grid,
    path: seq<Move>,
    x: int,
    y: int,
    heuristic: nat,
    level: nat,
    total: int)

  /** `Math.max` on two integers. */
  function Max(a: int, b: int): (r: int)
    ensures r >= a && r >= b && (r == a || r == b)
  {
    if a >= b then a else b
  }

  /** `Math.min` on two integers. */
  function Min(a: int, b: int): (r: int)
    ensures r <= a && r <= b && (r == a || r == b)
  {
    if a <= b then a else b
  }
}
