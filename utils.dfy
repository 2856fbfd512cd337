/**
  The helpers the search engine imports from its utility module, restricted to
  what the engine relies on. Their own bodies are not part of this model: the
  move tables (`badMoves`, `wrongMove`, `switcher`) are written out from their
  contract, and the parts whose formulas are not fixed (grid identity, the
  totals computed by the node factories, the value getters) are carried as
  function-valued fields of `Helpers`.
 */
module Utils {
  import opened Wrappers
  import opened Types

  /** The helpers whose behaviour is a parameter of the engine. */
  datatype Helpers = Helpers(
    // the identity string of a grid; a deterministic function of the grid
    identify: Grid -> Id,
    // the `total` that `initNode` gives the root, from its heuristic
    rootTotal: nat -> int,
    // the `total` that `getCreateNode[search]` gives a node, from its level and heuristic
    createTotal: SearchStyle -> (nat, nat) -> int,
    // `getGetter[search]`: the value that the iterative-deepening bound compares
    getter: SearchStyle -> Node -> int)

  /** A grid together with the position of its blank. */
  datatype Board = Board(puzzle: Grid, x: int, y: int)

  /** Row displacement of the blank. */
  function Dx(m: Move): int {
    match m
    case Up => -1
    case Down => 1
    case _ => 0
  }

  /** Column displacement of the blank. */
  function Dy(m: Move): int {
    match m
    case Left => -1
    case Right => 1
    case _ => 0
  }

  /** The move that undoes `m`. */
  function Inverse(m: Move): (r: Move)
    ensures r != m
    ensures Dx(r) == -Dx(m) && Dy(r) == -Dy(m)
  {
    match m
    case Up => Down
    case Down => Up
    case Left => Right
    case Right => Left
  }

  /** `badMoves`: the four "last|next" pairs in which the next move undoes the last. */
  const BadMoves: set<(Move, Move)> := {(Up, Down), (Down, Up), (Left, Right), (Right, Left)}

  /** `badMoves.has(lastMove|move)`; a node without a last move has none that is bad. */
  predicate BadMove(lastMove: Option<Move>, move: Move) {
    lastMove.Some? && (lastMove.value, move) in BadMoves
  }

  /** A pruned pair is exactly a move followed by its inverse. */
  lemma BadMoveIsReversal(lastMove: Option<Move>, move: Move)
    ensures BadMove(lastMove, move) <==> lastMove == Some(Inverse(move))
  {
    if lastMove.Some? {
      match move
      case Up => assert (Down, Up) in BadMoves;
      case Down => assert (Up, Down) in BadMoves;
      case Left => assert (Right, Left) in BadMoves;
      case Right => assert (Left, Right) in BadMoves;
    }
  }

  predicate InBounds(x: int, y: int, size: nat) {
    0 <= x < size && 0 <= y < size
  }

  /** `wrongMove[move](x, y, size)`: the move would take the blank past an edge. */
  function WrongMove(m: Move, x: int, y: int, size: nat): (r: bool)
    ensures InBounds(x, y, size) ==> (r <==> !InBounds(x + Dx(m), y + Dy(m), size))
  {
    match m
    case Up => x - 1 < 0
    case Down => x + 1 > size - 1
    case Left => y - 1 < 0
    case Right => y + 1 > size - 1
  }

  /** Every row has `size` cells and there are `size` rows. */
  ghost predicate Square(g: Grid, size: nat) {
    |g| == size && forall i :: 0 <= i < size ==> |g[i]| == size
  }

  /** A square grid whose blank sits at (x, y). */
  ghost predicate Fits(b: Board, size: nat) {
    Square(b.puzzle, size) && InBounds(b.x, b.y, size) && b.puzzle[b.x][b.y] == 0
  }

  /**
    A valid puzzle, as checked before the engine is called: square, the cells
    distinct numbers in 0..size*size-1, one of them the blank.
   */
  ghost predicate IsPuzzle(g: Grid, size: nat) {
    && Square(g, size)
    && (forall i, j :: 0 <= i < size && 0 <= j < size ==> 0 <= g[i][j] < size * size)
    && (forall i, j, k, l ::
          0 <= i < size && 0 <= j < size && 0 <= k < size && 0 <= l < size && (i, j) != (k, l)
          ==> g[i][j] != g[k][l])
    && (exists i, j :: 0 <= i < size && 0 <= j < size && g[i][j] == 0)
  }

  /**
    `switcher[move](puzzle, x, y)`: exchanges the blank with its neighbour in
    direction `m` and gives the blank's new position. The source applies it in
    place to a fresh copy of the parent's grid; here the copy is the returned
    grid value, and the argument grid is untouched.
   */
  function Switcher(g: Grid, x: int, y: int, m: Move, ghost size: nat): (r: Board)
    requires Fits(Board(g, x, y), size) && !WrongMove(m, x, y, size)
    ensures r.x == x + Dx(m) && r.y == y + Dy(m)
    ensures Fits(r, size)
    ensures r.puzzle[x][y] == g[r.x][r.y]
    ensures forall i, j :: 0 <= i < size && 0 <= j < size && (i, j) != (x, y) && (i, j) != (r.x, r.y)
              ==> r.puzzle[i][j] == g[i][j]
  {
    var nx, ny := x + Dx(m), y + Dy(m);
    var tile := g[nx][ny];
    var g1 := g[x := g[x][y := tile]];
    Board(g1[nx := g1[nx][ny := 0]], nx, ny)
  }

  /** Switching back with the inverse move restores the original grid and position. */
  lemma SwitchBack(g: Grid, x: int, y: int, m: Move, size: nat)
    requires Fits(Board(g, x, y), size) && !WrongMove(m, x, y, size)
    ensures var b := Switcher(g, x, y, m, size);
            !WrongMove(Inverse(m), b.x, b.y, size) && Switcher(b.puzzle, b.x, b.y, Inverse(m), size) == Board(g, x, y)
  {
    var b := Switcher(g, x, y, m, size);
    var c := Switcher(b.puzzle, b.x, b.y, Inverse(m), size);
    assert c.x == x && c.y == y;
    forall i | 0 <= i < size
      ensures c.puzzle[i] == g[i]
    {
      forall j | 0 <= j < size
        ensures c.puzzle[i][j] == g[i][j]
      {
      }
    }
  }

  /** The first index of `v` in `row`. */
  function IndexOf(row: seq<int>, v: int): (j: nat)
    requires v in row
    ensures j < |row| && row[j] == v
    ensures forall k :: 0 <= k < j ==> row[k] != v
  {
    if row[0] == v then 0 else 1 + IndexOf(row[1..], v)
  }

  /** Scans rows i, i+1, ... for the blank. */
  function FindFrom(g: Grid, i: nat): (r: (nat, nat))
    requires i <= |g|
    requires exists k, j :: i <= k < |g| && 0 <= j < |g[k]| && g[k][j] == 0
    ensures i <= r.0 < |g| && r.1 < |g[r.0]| && g[r.0][r.1] == 0
    decreases |g| - i
  {
    if 0 in g[i] then (i, IndexOf(g[i], 0))
    else
      assert forall j :: 0 <= j < |g[i]| ==> g[i][j] != 0;
      FindFrom(g, i + 1)
  }

  /** `findEmptyBlock`: the position of the blank of a valid puzzle. */
  function FindEmptyBlock(g: Grid, ghost size: nat): (r: (nat, nat))
    requires IsPuzzle(g, size)
    ensures Fits(Board(g, r.0, r.1), size)
  {
    FindFrom(g, 0)
  }

  /** `initNode`: the root node, with an empty path at level 0. */
  function InitNode(startHeuristic: nat, puzzle: Grid, x: int, y: int, helpers: Helpers): (r: Node)
    ensures r.path == [] && r.level == 0
    ensures r.id == helpers.identify(r.puzzle) && r.puzzle == puzzle && r.x == x && r.y == y
    ensures r.heuristic == startHeuristic && r.total == helpers.rootTotal(r.heuristic)
  {
    Node(helpers.identify(puzzle), puzzle, [], x, y, startHeuristic, 0, helpers.rootTotal(startHeuristic))
  }

  /**
    `getCreateNode[search](heuristic)(puzzle, x, y, prevPath, move, prevLevel)`:
    a node one move deeper than its parent.
   */
  function CreateNode(helpers: Helpers, search: SearchStyle, heuristic: Heuristic,
                      puzzle: Grid, x: int, y: int, prevPath: seq<Move>, move: Move, prevLevel: nat): (r: Node)
    ensures |r.path| == |prevPath| + 1 && r.path[..|prevPath|] == prevPath && r.path[|prevPath|] == move
    ensures r.level == prevLevel + 1
    ensures r.puzzle == puzzle && r.x == x && r.y == y
    ensures r.id == helpers.identify(r.puzzle) && r.heuristic == heuristic(r.puzzle)
    ensures r.total == helpers.createTotal(search)(r.level, r.heuristic)
  {
    var h := heuristic(puzzle);
    Node(helpers.identify(puzzle), puzzle, prevPath + [move], x, y, h, prevLevel + 1,
         helpers.createTotal(search)(prevLevel + 1, h))
  }

  /**
    `Queue`: the frontier of the best-first search. Its ordering is not part of
    the model, so its contents are a multiset and `Pop` may give back any
    element; on an empty queue it gives back nothing.
   */
  class Queue {
    var items: multiset<Node>
    /** The constructor's `search` argument, kept as given; the order it selects is not modelled. */
    const search: SearchStyle

    constructor (first: Node, search: SearchStyle)
      ensures items == multiset{first} && this.search == search
    {
      items := multiset{first};
      this.search := search;
    }

    method Insert(n: Node)
      modifies this
      ensures items == old(items) + multiset{n}
    {
      items := items + multiset{n};
    }

    method Pop() returns (r: Option<Node>)
      modifies this
      ensures old(items) == multiset{} ==> r == None && items == old(items)
      ensures old(items) != multiset{} ==> r.Some? && r.value in old(items)
      ensures r.Some? ==> items == old(items) - multiset{r.value}
    {
      if items == multiset{} {
        r := None;
      } else {
        var n :| n in items;
        items := items - multiset{n};
        r := Some(n);
      }
    }
  }
}
