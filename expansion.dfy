/**
  The expansion step shared by both drivers of src/algo.ts: the moves are tried
  in the order up, left, right, down; a move is dropped when it undoes the last
  move or takes the blank off the board; each surviving move swaps the blank on
  a copy of the parent's grid and builds a node from the parent's path and level.
 */
module Expansion {
  import opened Wrappers
  import opened Types
  import opened Utils

  /** The fixed parameters of one search call. */
  datatype Context = Context(heuristic: Heuristic, search: SearchStyle, size: nat, helpers: Helpers)

  /** The order in which the drivers try the moves. */
  const MoveOrder: seq<Move> := [Up, Left, Right, Down]

  /** Position of a move in `MoveOrder`. */
  function Rank(m: Move): (r: nat)
    ensures r < |MoveOrder| && MoveOrder[r] == m
  {
    match m
    case Up => 0
    case Left => 1
    case Right => 2
    case Down => 3
  }

  /** `prevPath[prevPath.length - 1]`: undefined for the root. */
  function LastMove(path: seq<Move>): Option<Move> {
    if path == [] then None else Some(path[|path| - 1])
  }

  function BoardOf(n: Node): Board {
    Board(n.puzzle, n.x, n.y)
  }

  /** The filter applied to each candidate move before any grid is copied. */
  predicate Allowed(parent: Node, m: Move, size: nat) {
    !BadMove(LastMove(parent.path), m) && !WrongMove(m, parent.x, parent.y, size)
  }

  /** The moves of `s` come in strictly increasing `MoveOrder` position. */
  predicate RankIncreasing(s: seq<Move>) {
    forall i, j :: 0 <= i < j < |s| ==> Rank(s[i]) < Rank(s[j])
  }

  /** In a rank-increasing sequence, the head ranks before any move taken from the tail. */
  lemma HeadRanksFirst(ms: seq<Move>, rest: seq<Move>)
    requires |ms| > 0 && forall m :: m in rest ==> m in ms[1..]
    ensures RankIncreasing(ms) ==> forall m :: m in rest ==> Rank(ms[0]) < Rank(m)
  {
    if RankIncreasing(ms) {
      forall m | m in rest
        ensures Rank(ms[0]) < Rank(m)
      {
        var k :| 0 <= k < |ms[1..]| && ms[1..][k] == m;
        assert ms[k + 1] == m;
      }
    }
  }

  /** The moves of `ms` that pass the filter, in their order in `ms`. */
  function KeepAllowed(parent: Node, ms: seq<Move>, size: nat): (r: seq<Move>)
    ensures forall m :: m in r <==> m in ms && Allowed(parent, m, size)
    ensures RankIncreasing(ms) ==> RankIncreasing(r)
    ensures |r| <= |ms|
  {
    if ms == [] then []
    else
      var rest := KeepAllowed(parent, ms[1..], size);
      HeadRanksFirst(ms, rest);
      if Allowed(parent, ms[0], size) then [ms[0]] + rest else rest
  }

  /** The moves expanded from `parent`, in the drivers' order. */
  function LegalMoves(parent: Node, size: nat): (r: seq<Move>)
    ensures forall m :: m in r <==> Allowed(parent, m, size)
    ensures RankIncreasing(r)
    ensures |r| <= 4
  {
    forall m ensures m in MoveOrder { assert MoveOrder[Rank(m)] == m; }
    KeepAllowed(parent, MoveOrder, size)
  }

  /**
    The successor reached by `m`: the blank is switched on a copy of the
    parent's grid and the node factory extends the parent's path and level.
   */
  function Child(ctx: Context, parent: Node, m: Move): (c: Node)
    requires Fits(BoardOf(parent), ctx.size) && Allowed(parent, m, ctx.size)
    ensures c.path == parent.path + [m] && c.level == parent.level + 1
    ensures c.x == parent.x + Dx(m) && c.y == parent.y + Dy(m) && Fits(BoardOf(c), ctx.size)
    // the tile next to the blank slides into the blank's old place
    ensures c.puzzle[parent.x][parent.y] == parent.puzzle[c.x][c.y]
    // ... and the rest of the grid is the parent's: one swap on a copy
    ensures BoardOf(c) == Switcher(parent.puzzle, parent.x, parent.y, m, ctx.size)
    ensures c.id == ctx.helpers.identify(c.puzzle) && c.heuristic == ctx.heuristic(c.puzzle)
  {
    var b := Switcher(parent.puzzle, parent.x, parent.y, m, ctx.size);
    CreateNode(ctx.helpers, ctx.search, ctx.heuristic, b.puzzle, b.x, b.y, parent.path, m, parent.level)
  }

  /** The nodes generated when `parent` is expanded, in generation order. */
  function Successors(ctx: Context, parent: Node): (r: seq<Node>)
    requires Fits(BoardOf(parent), ctx.size)
    ensures |r| <= 4
    ensures |r| == |LegalMoves(parent, ctx.size)|
    ensures forall i :: 0 <= i < |r| ==> r[i] == Child(ctx, parent, LegalMoves(parent, ctx.size)[i])
  {
    var ms := LegalMoves(parent, ctx.size);
    seq(|ms|, i requires 0 <= i < |ms| => Child(ctx, parent, ms[i]))
  }

  /** The board reached by playing `path` from `b`; None once a move leaves the board. */
  function Play(b: Board, path: seq<Move>, size: nat): (r: Option<Board>)
    requires Fits(b, size)
    ensures r.Some? ==> Fits(r.value, size)
    decreases |path|
  {
    if path == [] then Some(b)
    else
      match Play(b, path[..|path| - 1], size)
      case None => None
      case Some(c) =>
        var m := path[|path| - 1];
        if WrongMove(m, c.x, c.y, size) then None else Some(Switcher(c.puzzle, c.x, c.y, m, size))
  }

  /** No move of the path undoes the move just before it. */
  ghost predicate NoReversal(path: seq<Move>) {
    forall i :: 0 < i < |path| ==> !BadMove(Some(path[i - 1]), path[i])
  }

  /**
    `n` is a node the engine can build from `root`: its grid and blank are what
    playing its path from the root gives, the path never undoes its previous
    move, its level is the path's length, and its id, heuristic and total are
    the ones the factories compute from its grid.
   */
  ghost predicate Reachable(ctx: Context, root: Node, n: Node) {
    && Fits(BoardOf(root), ctx.size)
    && Play(BoardOf(root), n.path, ctx.size) == Some(BoardOf(n))
    && NoReversal(n.path)
    && n.level == |n.path|
    && n.id == ctx.helpers.identify(n.puzzle)
    && n.heuristic == ctx.heuristic(n.puzzle)
    && n.total == (if n.path == [] then ctx.helpers.rootTotal(n.heuristic)
                   else ctx.helpers.createTotal(ctx.search)(n.level, n.heuristic))
  }

  /** The root node the drivers build from a valid puzzle. */
  function Root(ctx: Context, puzzle: Grid): (root: Node)
    requires IsPuzzle(puzzle, ctx.size)
    ensures Fits(BoardOf(root), ctx.size) && root.path == [] && root.puzzle == puzzle
  {
    var (x, y) := FindEmptyBlock(puzzle, ctx.size);
    InitNode(ctx.heuristic(puzzle), puzzle, x, y, ctx.helpers)
  }

  lemma RootReachable(ctx: Context, puzzle: Grid)
    requires IsPuzzle(puzzle, ctx.size)
    ensures Reachable(ctx, Root(ctx, puzzle), Root(ctx, puzzle))
  {
  }

  /** Expanding a reachable node by an allowed move gives a reachable node. */
  lemma ChildReachable(ctx: Context, root: Node, parent: Node, m: Move)
    requires Reachable(ctx, root, parent)
    requires Allowed(parent, m, ctx.size)
    ensures Fits(BoardOf(parent), ctx.size)
    ensures Reachable(ctx, root, Child(ctx, parent, m))
  {
    var c := Child(ctx, parent, m);
    assert c.path[..|c.path| - 1] == parent.path;
    assert Play(BoardOf(root), c.path, ctx.size) == Some(BoardOf(c));
    forall i | 0 < i < |c.path|
      ensures !BadMove(Some(c.path[i - 1]), c.path[i])
    {
      if i < |c.path| - 1 {
        assert c.path[i - 1] == parent.path[i - 1] && c.path[i] == parent.path[i];
      } else {
        assert LastMove(parent.path) == Some(c.path[i - 1]);
      }
    }
  }

  /** Every successor of a reachable node is reachable. */
  lemma SuccessorsReachable(ctx: Context, root: Node, parent: Node)
    requires Reachable(ctx, root, parent)
    ensures Fits(BoardOf(parent), ctx.size)
    ensures forall c :: c in Successors(ctx, parent) ==> Reachable(ctx, root, c)
  {
    var r := Successors(ctx, parent);
    forall i | 0 <= i < |r|
      ensures Reachable(ctx, root, r[i])
    {
      ChildReachable(ctx, root, parent, LegalMoves(parent, ctx.size)[i]);
    }
  }

  /**
    Each successor extends the parent's path by one allowed move, one level
    deeper, and the successors come in the drivers' move order.
   */
  lemma SuccessorsShape(ctx: Context, parent: Node)
    requires Fits(BoardOf(parent), ctx.size)
    ensures var r := Successors(ctx, parent);
            && (forall c :: c in r ==>
                 && c.path[..|c.path| - 1] == parent.path
                 && |c.path| == |parent.path| + 1
                 && c.level == parent.level + 1
                 && Allowed(parent, c.path[|parent.path|], ctx.size))
            && (forall i, j :: 0 <= i < j < |r| ==> Rank(r[i].path[|parent.path|]) < Rank(r[j].path[|parent.path|]))
  {
    var r := Successors(ctx, parent);
    var ms := LegalMoves(parent, ctx.size);
    forall i | 0 <= i < |r|
      ensures r[i].path == parent.path + [ms[i]]
    {
    }
  }

  /**
    The reversal rule drops nothing useful: switching a successor's blank back
    with the inverse move gives exactly the parent's grid and blank position.
   */
  lemma ChildUndo(ctx: Context, parent: Node, m: Move)
    requires Fits(BoardOf(parent), ctx.size) && Allowed(parent, m, ctx.size)
    ensures var c := Child(ctx, parent, m);
            && !WrongMove(Inverse(m), c.x, c.y, ctx.size)
            && Switcher(c.puzzle, c.x, c.y, Inverse(m), ctx.size) == BoardOf(parent)
  {
    SwitchBack(parent.puzzle, parent.x, parent.y, m, ctx.size);
  }
}
