/**
  The two search drivers of src/algo.ts: `astar`, a best-first graph search
  over a queue with a closed set of expanded ids, and `idastar`, an
  iterative-deepening depth-first search over an explicit stack with a bound
  that rises from one iteration to the next.

  Both loop until they pop the solved grid. Here each takes a `fuel` budget,
  the most nodes it may pop, and reports `OutOfFuel` when it is spent; the
  properties proved are the invariants of the loops, not termination.
 */
module Algo {
  import opened Wrappers
  import opened Types
  import opened Utils
  import opened Expansion

  /** `Return`: the goal node and the three counters. */
  datatype Return = Return(node: Node, createdNodes: nat, nbStudiedNodes: nat, maxNumNodes: nat)

  /** Why a driver stopped without the goal. */
  datatype SearchError =
    | QueueEmpty  // the queue ran dry: the source would then read the id of `undefined`
    | OutOfFuel   // the pop budget is spent

  /** A bound of the iterative deepening: a number, or the initial `Infinity` of `nextMaxDepth`. */
  datatype Bound = Finite(v: int) | Infinity

  /** `value <= maxDepth`. */
  predicate Within(value: int, maxDepth: Bound) {
    maxDepth.Infinity? || value <= maxDepth.v
  }

  /** `b` lies strictly above `a`; an infinite bound is above everything, itself included. */
  predicate Above(b: Bound, a: Bound) {
    b.Infinity? || (a.Finite? && b.v > a.v)
  }

  /** `b <= a` in the extended order. */
  predicate AtMost(b: Bound, a: Bound) {
    a.Infinity? || (b.Finite? && b.v <= a.v)
  }

  /** `Math.min(nextMaxDepth, value)`. */
  function MinBound(nextMaxDepth: Bound, value: int): (r: Bound)
    ensures AtMost(r, nextMaxDepth) && AtMost(r, Finite(value))
    ensures r == nextMaxDepth || r == Finite(value)
  {
    if nextMaxDepth.Infinity? || value < nextMaxDepth.v then Finite(value) else nextMaxDepth
  }

  // ---------------------------------------------------------------------------
  // Best-first search

  /** Every node waiting in the queue is reachable from the root. */
  ghost predicate AllReachable(ctx: Context, root: Node, items: multiset<Node>) {
    forall n :: n in items ==> Reachable(ctx, root, n)
  }

  /** Taking a node out of a reachable queue leaves a reachable queue. */
  lemma PopReachable(ctx: Context, root: Node, items: multiset<Node>, n: Node)
    requires AllReachable(ctx, root, items) && n in items
    ensures Reachable(ctx, root, n) && AllReachable(ctx, root, items - multiset{n})
    ensures |items - multiset{n}| == |items| - 1
  {
    forall m | m in items - multiset{n}
      ensures m in items
    {
    }
  }

  /** No id occurs twice among the expanded nodes. */
  ghost predicate DistinctIds(expanded: seq<Node>) {
    forall i, j :: 0 <= i < j < |expanded| ==> expanded[i].id != expanded[j].id
  }

  /** `peak` is the largest sampled queue size, or the initial 1 before any sample. */
  ghost predicate PeakOf(sizes: seq<int>, peak: nat) {
    (peak == 1 || peak in sizes) && forall s :: s in sizes ==> s <= peak
  }

  /** Expanding a node whose id is not yet closed keeps the ids distinct and closed. */
  lemma CloseId(expanded: seq<Node>, studied: set<Id>, n: Node)
    requires DistinctIds(expanded) && (forall m :: m in expanded ==> m.id in studied)
    requires n.id !in studied
    ensures DistinctIds(expanded + [n])
    ensures forall m :: m in expanded + [n] ==> m.id in studied + {n.id}
  {
    forall i, j | 0 <= i < j < |expanded| + 1
      ensures (expanded + [n])[i].id != (expanded + [n])[j].id
    {
      if j == |expanded| {
        assert expanded[i] in expanded;
      }
    }
  }

  /** `maxNumNodes = Math.max(allCurrentNodes, maxNumNodes)` keeps the peak. */
  lemma SamplePeak(sizes: seq<int>, peak: nat, current: int)
    requires PeakOf(sizes, peak)
    ensures PeakOf(sizes + [current], Max(current, peak))
  {
    assert forall s :: s in sizes + [current] ==> s == current || s in sizes;
  }

  /**
    The counters of `astar` against its queue and ghost history: `queued` is the
    queue's size, which `allCurrentNodes` tracks; every created node is either
    still queued or was popped (one pop per sample in `sizes`); the expanded
    nodes have distinct ids, all closed in `studied`, none the solved one; and
    `maxNumNodes` is the peak of the samples.
   */
  ghost predicate Books(queued: nat, allCurrentNodes: int, createdNodes: nat, nbStudiedNodes: nat, maxNumNodes: nat,
                        studied: set<Id>, expanded: seq<Node>, sizes: seq<int>, solvedId: Id) {
    && allCurrentNodes == queued == createdNodes - |sizes|
    && (forall n :: n in expanded ==> n.id in studied)
    && DistinctIds(expanded)
    && (forall n :: n in expanded ==> n.id != solvedId)
    && nbStudiedNodes == |expanded| <= |sizes|
    && 1 <= maxNumNodes <= createdNodes
    && (sizes == [] ==> createdNodes == 1)
    && (sizes != [] ==> sizes[0] == 1)
    && PeakOf(sizes, maxNumNodes)
  }

  /** What the books give a caller: the facts `astar` reports. */
  lemma BooksHold(queued: nat, allCurrentNodes: int, createdNodes: nat, nbStudiedNodes: nat, maxNumNodes: nat,
                  studied: set<Id>, expanded: seq<Node>, sizes: seq<int>, solvedId: Id)
    requires Books(queued, allCurrentNodes, createdNodes, nbStudiedNodes, maxNumNodes, studied, expanded, sizes, solvedId)
    ensures DistinctIds(expanded) && forall n :: n in expanded ==> n.id != solvedId
    ensures nbStudiedNodes == |expanded| <= |sizes| <= createdNodes
    ensures 1 <= maxNumNodes <= createdNodes
    ensures sizes != [] ==> maxNumNodes in sizes && PeakOf(sizes, maxNumNodes) && sizes[0] == 1
  {
    if sizes != [] && maxNumNodes == 1 {
      assert sizes[0] in sizes;
    }
  }

  /** Sampling the queue size and popping one node keeps the books, and a pop now outnumbers the expansions. */
  lemma BooksPop(queued: nat, allCurrentNodes: int, createdNodes: nat, nbStudiedNodes: nat, maxNumNodes: nat,
                 studied: set<Id>, expanded: seq<Node>, sizes: seq<int>, solvedId: Id)
    requires Books(queued, allCurrentNodes, createdNodes, nbStudiedNodes, maxNumNodes, studied, expanded, sizes, solvedId)
    requires queued >= 1
    ensures Books(queued - 1, allCurrentNodes - 1, createdNodes, nbStudiedNodes, Max(allCurrentNodes, maxNumNodes),
                  studied, expanded, sizes + [allCurrentNodes], solvedId)
    ensures nbStudiedNodes < |sizes + [allCurrentNodes]|
  {
    SamplePeak(sizes, maxNumNodes, allCurrentNodes);
  }

  /** Expanding a node whose id is not closed, and queueing its `k` successors, keeps the books. */
  lemma BooksExpand(queued: nat, allCurrentNodes: int, createdNodes: nat, nbStudiedNodes: nat, maxNumNodes: nat,
                    studied: set<Id>, expanded: seq<Node>, sizes: seq<int>, solvedId: Id, n: Node, k: nat)
    requires Books(queued, allCurrentNodes, createdNodes, nbStudiedNodes, maxNumNodes, studied, expanded, sizes, solvedId)
    requires n.id !in studied && n.id != solvedId && nbStudiedNodes < |sizes|
    ensures Books(queued + k, allCurrentNodes + k, createdNodes + k, nbStudiedNodes + 1, maxNumNodes,
                  studied + {n.id}, expanded + [n], sizes, solvedId)
  {
    CloseId(expanded, studied, n);
  }

  /**
    One turn of the loop that does not reach the goal keeps the books: the pop
    is sampled, and a node whose id was not closed joins the expanded ones
    with its `k` successors queued.
   */
  lemma BooksVisit(queued: nat, allCurrentNodes: int, createdNodes: nat, nbStudiedNodes: nat, maxNumNodes: nat,
                   studied: set<Id>, expanded: seq<Node>, sizes: seq<int>, solvedId: Id, n: Node, k: nat,
                   queuedAfter: nat, closed: set<Id>, created: nat, current: int, nbStudied: nat, maxNum: nat)
    requires Books(queued, allCurrentNodes, createdNodes, nbStudiedNodes, maxNumNodes, studied, expanded, sizes, solvedId)
    requires queued >= 1 && n.id != solvedId && maxNum == Max(allCurrentNodes, maxNumNodes)
    requires n.id in studied ==>
               && queuedAfter == queued - 1 && closed == studied && nbStudied == nbStudiedNodes
               && created == createdNodes && current == allCurrentNodes - 1
    requires n.id !in studied ==>
               && queuedAfter == queued - 1 + k && closed == studied + {n.id} && nbStudied == nbStudiedNodes + 1
               && created == createdNodes + k && current == allCurrentNodes - 1 + k
    ensures Books(queuedAfter, current, created, nbStudied, maxNum, closed,
                  if n.id in studied then expanded else expanded + [n], sizes + [allCurrentNodes], solvedId)
  {
    BooksPop(queued, allCurrentNodes, createdNodes, nbStudiedNodes, maxNumNodes, studied, expanded, sizes, solvedId);
    if n.id !in studied {
      BooksExpand(queued - 1, allCurrentNodes - 1, createdNodes, nbStudiedNodes, maxNum, studied, expanded,
                  sizes + [allCurrentNodes], solvedId, n, k);
    }
  }

  /**
    `astar`: pops nodes until one carries `solvedId`. A popped node whose id was
    already expanded is skipped; otherwise its id joins `studied`, it is counted
    in `nbStudiedNodes`, and every successor is created, counted and inserted.
    The ghost `expanded` lists the expanded nodes in order and `sizes` the queue
    size sampled before each pop.
   */
  method Astar(puzzle: Grid, heuristic: Heuristic, search: SearchStyle, solvedId: Id,
               size: nat, helpers: Helpers, fuel: nat)
    returns (r: Result<Return, SearchError>, ghost expanded: seq<Node>, ghost sizes: seq<int>)
    requires IsPuzzle(puzzle, size)
    ensures r.Success? ==> r.value.node.id == solvedId
    ensures r.Success? ==>
              Reachable(Context(heuristic, search, size, helpers), Root(Context(heuristic, search, size, helpers), puzzle), r.value.node)
    // each id is expanded at most once, and never the solved one
    ensures r.Success? ==> r.value.nbStudiedNodes == |expanded|
    ensures DistinctIds(expanded)
    ensures forall n :: n in expanded ==>
              n.id != solvedId && Reachable(Context(heuristic, search, size, helpers), Root(Context(heuristic, search, size, helpers), puzzle), n)
    // expanded <= popped <= created; the goal pop is not counted as expanded
    ensures r.Success? ==> r.value.nbStudiedNodes < |sizes| <= r.value.createdNodes
    // the first sample is the queue holding only the root
    ensures r.Success? ==> sizes[0] == 1
    // the peak is the largest sampled queue size
    ensures r.Success? ==> 1 <= r.value.maxNumNodes <= r.value.createdNodes
    ensures r.Success? ==> r.value.maxNumNodes in sizes && PeakOf(sizes, r.value.maxNumNodes)
    // an already-solved grid: the root is popped first and not counted as studied
    ensures fuel > 0 && helpers.identify(puzzle) == solvedId ==>
              r == Success(Return(Root(Context(heuristic, search, size, helpers), puzzle), 1, 0, 1))
  {
    var ctx := Context(heuristic, search, size, helpers);
    var (x, y) := FindEmptyBlock(puzzle, size);
    var startHeuristic := heuristic(puzzle);
    var firstNode := InitNode(startHeuristic, puzzle, x, y, helpers);
    assert firstNode == Root(ctx, puzzle);
    RootReachable(ctx, puzzle);
    r, expanded, sizes := BestFirst(ctx, firstNode, solvedId, fuel);
  }

  /**
    The queue, the closed set, the counters and the main loop of `astar`, from
    the root node; the contract is the one of `Astar`.
   */
  method BestFirst(ctx: Context, firstNode: Node, solvedId: Id, fuel: nat)
    returns (r: Result<Return, SearchError>, ghost expanded: seq<Node>, ghost sizes: seq<int>)
    requires Reachable(ctx, firstNode, firstNode)
    ensures r.Success? ==> r.value.node.id == solvedId && Reachable(ctx, firstNode, r.value.node)
    ensures r.Success? ==> r.value.nbStudiedNodes == |expanded|
    ensures DistinctIds(expanded)
    ensures forall n :: n in expanded ==> n.id != solvedId && Reachable(ctx, firstNode, n)
    ensures r.Success? ==> r.value.nbStudiedNodes < |sizes| <= r.value.createdNodes
    ensures r.Success? ==> sizes[0] == 1
    ensures r.Success? ==> 1 <= r.value.maxNumNodes <= r.value.createdNodes
    ensures r.Success? ==> r.value.maxNumNodes in sizes && PeakOf(sizes, r.value.maxNumNodes)
    ensures fuel > 0 && firstNode.id == solvedId ==> r == Success(Return(firstNode, 1, 0, 1))
  {
    var toStudy := new Queue(firstNode, ctx.search);
    var studied: set<Id> := {};

    var createdNodes: nat := 1;
    var allCurrentNodes: int := 1;
    var nbStudiedNodes: nat := 0;
    var maxNumNodes: nat := 1;
    expanded, sizes := [], [];

    var budget := fuel;
    while budget > 0
      invariant AllReachable(ctx, firstNode, toStudy.items)
      invariant AllReachable(ctx, firstNode, multiset(expanded))
      invariant Books(|toStudy.items|, allCurrentNodes, createdNodes, nbStudiedNodes, maxNumNodes,
                      studied, expanded, sizes, solvedId)
      invariant firstNode.id == solvedId ==>
                  && budget == fuel && toStudy.items == multiset{firstNode}
                  && createdNodes == 1 && allCurrentNodes == 1 && nbStudiedNodes == 0 && maxNumNodes == 1
      decreases budget
    {
      budget := budget - 1;
      BooksHold(|toStudy.items|, allCurrentNodes, createdNodes, nbStudiedNodes, maxNumNodes, studied, expanded, sizes, solvedId);
      ghost var waiting := toStudy.items;
      var popped, closed, created, current, nbStudied, maxNum :=
        Visit(ctx, firstNode, toStudy, solvedId, studied, createdNodes, allCurrentNodes, nbStudiedNodes, maxNumNodes);
      if popped.None? {
        r := Failure(QueueEmpty);
        return;
      }
      var currentNode := popped.value;
      if currentNode.id == solvedId {
        BooksPop(|waiting|, allCurrentNodes, createdNodes, nbStudiedNodes, maxNumNodes, studied, expanded, sizes, solvedId);
        sizes := sizes + [allCurrentNodes];
        BooksHold(|toStudy.items|, current, created, nbStudied, maxNum, closed, expanded, sizes, solvedId);
        r := Success(Return(currentNode, created, nbStudied, maxNum));
        return;
      }
      BooksVisit(|waiting|, allCurrentNodes, createdNodes, nbStudiedNodes, maxNumNodes, studied, expanded, sizes, solvedId,
                 currentNode, |Successors(ctx, currentNode)|, |toStudy.items|, closed, created, current, nbStudied, maxNum);
      if currentNode.id !in studied {
        assert multiset(expanded + [currentNode]) == multiset(expanded) + multiset{currentNode};
        expanded := expanded + [currentNode];
      }
      sizes := sizes + [allCurrentNodes];
      studied, createdNodes, allCurrentNodes, nbStudiedNodes, maxNumNodes := closed, created, current, nbStudied, maxNum;
    }
    BooksHold(|toStudy.items|, allCurrentNodes, createdNodes, nbStudiedNodes, maxNumNodes, studied, expanded, sizes, solvedId);
    r := Failure(OutOfFuel);
  }

  /**
    One turn of the `astar` loop: the queue size is sampled into
    `maxNumNodes` and a node is popped and counted out of `allCurrentNodes`.
    The solved grid is handed back with nothing else changed; a node whose id
    is already closed is skipped; any other node has its id closed, is counted
    as studied, and is replaced in the queue by its successors.
   */
  method Visit(ctx: Context, root: Node, toStudy: Queue, solvedId: Id, studied: set<Id>,
               createdNodes: nat, allCurrentNodes: int, nbStudiedNodes: nat, maxNumNodes: nat)
    returns (popped: Option<Node>, closed: set<Id>, created: nat, current: int, nbStudied: nat, maxNum: nat)
    requires AllReachable(ctx, root, toStudy.items)
    modifies toStudy
    ensures AllReachable(ctx, root, toStudy.items)
    ensures maxNum == Max(allCurrentNodes, maxNumNodes)
    // an empty queue: nothing is popped
    ensures popped.None? <==> old(toStudy.items) == multiset{}
    ensures popped.None? ==>
              && toStudy.items == old(toStudy.items) && closed == studied
              && created == createdNodes && current == allCurrentNodes && nbStudied == nbStudiedNodes
    ensures popped.Some? ==> popped.value in old(toStudy.items) && Reachable(ctx, root, popped.value)
    // the goal, or a node whose id is already closed: only the pop itself is accounted
    ensures popped.Some? && (popped.value.id == solvedId || popped.value.id in studied) ==>
              && toStudy.items == old(toStudy.items) - multiset{popped.value}
              && |toStudy.items| == |old(toStudy.items)| - 1
              && closed == studied && nbStudied == nbStudiedNodes
              && created == createdNodes && current == allCurrentNodes - 1
    // any other node: its id is closed, it is counted once, and its successors are queued
    ensures popped.Some? && popped.value.id != solvedId && popped.value.id !in studied ==>
              && toStudy.items == old(toStudy.items) - multiset{popped.value} + multiset(Successors(ctx, popped.value))
              && |toStudy.items| == |old(toStudy.items)| - 1 + |Successors(ctx, popped.value)|
              && closed == studied + {popped.value.id} && nbStudied == nbStudiedNodes + 1
              && created == createdNodes + |Successors(ctx, popped.value)|
              && current == allCurrentNodes - 1 + |Successors(ctx, popped.value)|
  {
    closed, created, current, nbStudied := studied, createdNodes, allCurrentNodes, nbStudiedNodes;
    maxNum := Max(allCurrentNodes, maxNumNodes);
    ghost var waiting := toStudy.items;
    popped := toStudy.Pop();
    if popped.None? {
      return;
    }
    var currentNode := popped.value;
    PopReachable(ctx, root, waiting, currentNode);
    current := current - 1;

    if currentNode.id == solvedId || currentNode.id in studied {
      return;
    }
    closed := closed + {currentNode.id};
    nbStudied := nbStudied + 1;
    created, current := InsertSuccessors(ctx, root, toStudy, currentNode, created, current);
  }

  /**
    One expansion in `astar`: the successors of `currentNode` are generated and
    inserted; a queue of reachable nodes stays so.
   */
  method InsertSuccessors(ctx: Context, root: Node, toStudy: Queue, currentNode: Node,
                          createdNodes: nat, allCurrentNodes: int)
    returns (created: nat, current: int)
    requires Reachable(ctx, root, currentNode)
    modifies toStudy
    ensures Fits(BoardOf(currentNode), ctx.size)
    ensures toStudy.items == old(toStudy.items) + multiset(Successors(ctx, currentNode))
    ensures |toStudy.items| == |old(toStudy.items)| + |Successors(ctx, currentNode)|
    ensures created == createdNodes + |Successors(ctx, currentNode)|
    ensures current == allCurrentNodes + |Successors(ctx, currentNode)|
    ensures AllReachable(ctx, root, old(toStudy.items)) ==> AllReachable(ctx, root, toStudy.items)
  {
    SuccessorsReachable(ctx, root, currentNode);
    var successors := Successors(ctx, currentNode);
    ghost var before := toStudy.items;
    created, current := InsertAll(toStudy, successors, createdNodes, allCurrentNodes);
    if AllReachable(ctx, root, before) {
      forall n | n in toStudy.items
        ensures Reachable(ctx, root, n)
      {
        if n !in before {
          assert n in multiset(successors);
        }
      }
    }
  }

  /**
    The `forEach` body for the moves that pass the filter: each new node is
    counted in `createdNodes` and `allCurrentNodes` and inserted in the queue.
   */
  method InsertAll(toStudy: Queue, nodes: seq<Node>, createdNodes: nat, allCurrentNodes: int)
    returns (created: nat, current: int)
    modifies toStudy
    ensures toStudy.items == old(toStudy.items) + multiset(nodes)
    ensures created == createdNodes + |nodes| && current == allCurrentNodes + |nodes|
  {
    created, current := createdNodes, allCurrentNodes;
    for i := 0 to |nodes|
      invariant toStudy.items == old(toStudy.items) + multiset(nodes[..i])
      invariant created == createdNodes + i && current == allCurrentNodes + i
    {
      created := created + 1;
      current := current + 1;
      toStudy.Insert(nodes[i]);
      assert nodes[..i + 1] == nodes[..i] + [nodes[i]];
    }
    assert nodes[..|nodes|] == nodes;
  }

  // ---------------------------------------------------------------------------
  // Iterative deepening

  /** `studied[id] && studied[id] <= value`: a stored 0 is falsy and never prunes. */
  predicate Dominated(studied: map<Id, int>, id: Id, value: int) {
    id in studied && studied[id] != 0 && studied[id] <= value
  }

  /**
    Pruning by `studied` only ever concerns an id recorded in this iteration
    with a non-zero value, and a node dominated at some value stays dominated
    at every larger one.
   */
  lemma DominatedMeaning(studied: map<Id, int>, id: Id, value: int, larger: int)
    ensures id !in studied ==> !Dominated(studied, id, value)
    ensures id in studied && studied[id] == 0 ==> !Dominated(studied, id, value)
    ensures Dominated(studied, id, value) && value <= larger ==> Dominated(studied, id, larger)
  {
  }

  /** A successor survives when it is within the bound and not dominated. */
  predicate Admits(n: Node, getValue: Node -> int, maxDepth: Bound, studied: map<Id, int>) {
    Within(getValue(n), maxDepth) && !Dominated(studied, n.id, getValue(n))
  }

  /** The successors that survive, in generation order. */
  function Admitted(succ: seq<Node>, getValue: Node -> int, maxDepth: Bound, studied: map<Id, int>): seq<Node>
  {
    if succ == [] then []
    else
      var last := succ[|succ| - 1];
      Admitted(succ[..|succ| - 1], getValue, maxDepth, studied)
        + (if Admits(last, getValue, maxDepth, studied) then [last] else [])
  }

  /** A node survives exactly when it was generated, is within the bound and is not dominated. */
  lemma {:induction false} AdmittedMembers(succ: seq<Node>, getValue: Node -> int, maxDepth: Bound, studied: map<Id, int>)
    ensures forall n :: n in Admitted(succ, getValue, maxDepth, studied) <==>
              n in succ && Admits(n, getValue, maxDepth, studied)
  {
    if succ != [] {
      var init := succ[..|succ| - 1];
      AdmittedMembers(init, getValue, maxDepth, studied);
      assert succ == init + [succ[|succ| - 1]];
    }
  }

  /**
    The `map` callback over the successors of one expansion: every successor is
    counted in `createdNodes`; one above the bound is dropped and lowers
    `nextMaxDepth` to at most its value; one within the bound is kept unless
    `studied` dominates it.
   */
  method SelectSuccessors(succ: seq<Node>, getValue: Node -> int, maxDepth: Bound,
                          studied: map<Id, int>, nextMaxDepth: Bound, createdNodes: nat)
    returns (kept: seq<Node>, next: Bound, created: nat)
    ensures created == createdNodes + |succ|
    ensures kept == Admitted(succ, getValue, maxDepth, studied)
    ensures AtMost(next, nextMaxDepth)
    ensures forall n :: n in succ && !Within(getValue(n), maxDepth) ==> AtMost(next, Finite(getValue(n)))
    ensures next == nextMaxDepth || exists n :: n in succ && !Within(getValue(n), maxDepth) && next == Finite(getValue(n))
    ensures Above(nextMaxDepth, maxDepth) ==> Above(next, maxDepth)
  {
    kept, next, created := [], nextMaxDepth, createdNodes;
    for i := 0 to |succ|
      invariant created == createdNodes + i
      invariant kept == Admitted(succ[..i], getValue, maxDepth, studied)
      invariant AtMost(next, nextMaxDepth)
      invariant forall k :: 0 <= k < i && !Within(getValue(succ[k]), maxDepth) ==> AtMost(next, Finite(getValue(succ[k])))
      invariant next == nextMaxDepth || exists k :: 0 <= k < i && !Within(getValue(succ[k]), maxDepth) && next == Finite(getValue(succ[k]))
      invariant Above(nextMaxDepth, maxDepth) ==> Above(next, maxDepth)
    {
      var newNode := succ[i];
      created := created + 1;
      var value := getValue(newNode);
      assert succ[..i + 1][..i] == succ[..i];
      if Within(value, maxDepth) {
        if !Dominated(studied, newNode.id, value) {
          kept := kept + [newNode];
        }
      } else {
        next := MinBound(next, value);
      }
    }
    assert succ[..|succ|] == succ;
  }

  /** Non-increasing values. */
  predicate DescendingBy(s: seq<Node>, getValue: Node -> int) {
    forall i, j :: 0 <= i < j < |s| ==> getValue(s[i]) >= getValue(s[j])
  }

  /** Places `n` before the first element whose value is not above its own. */
  function InsertDescending(n: Node, s: seq<Node>, getValue: Node -> int): (r: seq<Node>)
    requires DescendingBy(s, getValue)
    ensures DescendingBy(r, getValue)
    ensures multiset(r) == multiset(s) + multiset{n}
  {
    if s == [] || getValue(s[0]) <= getValue(n) then [n] + s
    else
      var rest := InsertDescending(n, s[1..], getValue);
      assert s == [s[0]] + s[1..];
      HeadAboveAll(s[0], rest, n, s[1..], getValue);
      [s[0]] + rest
  }

  /** The head kept in front of an insertion stays above everything after it. */
  lemma HeadAboveAll(h: Node, rest: seq<Node>, n: Node, tail: seq<Node>, getValue: Node -> int)
    requires DescendingBy(rest, getValue)
    requires multiset(rest) == multiset(tail) + multiset{n}
    requires getValue(h) > getValue(n)
    requires forall m :: m in tail ==> getValue(h) >= getValue(m)
    ensures DescendingBy([h] + rest, getValue)
  {
    forall i | 0 <= i < |rest| ensures getValue(h) >= getValue(rest[i]) {
      assert rest[i] in multiset(rest);
    }
  }

  /** `.sort((a, b) => getValue(b) - getValue(a))`: the same nodes by descending value. */
  function SortByValueDescending(s: seq<Node>, getValue: Node -> int): (r: seq<Node>)
    ensures multiset(r) == multiset(s)
    ensures DescendingBy(r, getValue)
  {
    if s == [] then []
    else
      var sorted := SortByValueDescending(s[1..], getValue);
      assert s == [s[0]] + s[1..];
      InsertDescending(s[0], sorted, getValue)
  }

  /** The last of the sorted successors, which the stack pops next, has the smallest value. */
  lemma LastIsSmallest(r: seq<Node>, getValue: Node -> int)
    requires DescendingBy(r, getValue) && r != []
    ensures forall n :: n in r ==> getValue(r[|r| - 1]) <= getValue(n)
  {
  }

  /** `studied` after the nodes of `round` have been popped in order: the last write per id wins. */
  function Recorded(round: seq<Node>, getValue: Node -> int): map<Id, int> {
    if round == [] then map[]
    else
      var last := round[|round| - 1];
      Recorded(round[..|round| - 1], getValue)[last.id := getValue(last)]
  }

  /** Popping one more node writes its value under its id. */
  lemma RecordedStep(round: seq<Node>, n: Node, getValue: Node -> int)
    ensures Recorded(round + [n], getValue) == Recorded(round, getValue)[n.id := getValue(n)]
  {
    assert (round + [n])[..|round|] == round;
  }

  /**
    `studied` holds exactly the ids popped in the current iteration, each with
    the value of the latest popped node carrying it.
   */
  lemma {:induction false} RecordedLatest(round: seq<Node>, getValue: Node -> int, k: nat)
    requires k < |round|
    requires forall j :: k < j < |round| ==> round[j].id != round[k].id
    ensures round[k].id in Recorded(round, getValue)
    ensures Recorded(round, getValue)[round[k].id] == getValue(round[k])
  {
    if k < |round| - 1 {
      RecordedLatest(round[..|round| - 1], getValue, k);
    }
  }

  lemma {:induction false} RecordedKeys(round: seq<Node>, getValue: Node -> int)
    ensures Recorded(round, getValue).Keys == set n | n in round :: n.id
  {
    if round != [] {
      var init := round[..|round| - 1];
      RecordedKeys(init, getValue);
      assert round == init + [round[|round| - 1]];
    }
  }

  /** Every node on the stack is reachable from the root and within the bound. */
  ghost predicate OnStack(ctx: Context, root: Node, getValue: Node -> int, maxDepth: Bound, stack: seq<Node>) {
    forall n :: n in stack ==> Reachable(ctx, root, n) && Within(getValue(n), maxDepth)
  }

  /** Popping the top of the stack keeps the rest on it and gives a reachable node within the bound. */
  lemma StackPop(ctx: Context, root: Node, getValue: Node -> int, maxDepth: Bound, stack: seq<Node>)
    requires OnStack(ctx, root, getValue, maxDepth, stack) && |stack| > 0
    ensures OnStack(ctx, root, getValue, maxDepth, stack[..|stack| - 1])
    ensures Reachable(ctx, root, stack[|stack| - 1]) && Within(getValue(stack[|stack| - 1]), maxDepth)
  {
    forall n | n in stack[..|stack| - 1]
      ensures n in stack
    {
    }
  }

  /** Pushing nodes that satisfy the stack invariant keeps it. */
  lemma StackPush(ctx: Context, root: Node, getValue: Node -> int, maxDepth: Bound, stack: seq<Node>, pushed: seq<Node>)
    requires OnStack(ctx, root, getValue, maxDepth, stack)
    requires OnStack(ctx, root, getValue, maxDepth, pushed)
    ensures OnStack(ctx, root, getValue, maxDepth, stack + pushed)
  {
    forall n | n in stack + pushed
      ensures n in stack || n in pushed
    {
    }
  }

  /** Each bound lies strictly above the one before it (or both are infinite). */
  ghost predicate Rising(bounds: seq<Bound>) {
    forall i :: 0 < i < |bounds| ==> Above(bounds[i], bounds[i - 1])
  }

  lemma RisingExtend(bounds: seq<Bound>, b: Bound)
    requires |bounds| >= 1 && Rising(bounds) && Above(b, bounds[|bounds| - 1])
    ensures Rising(bounds + [b])
  {
    forall i | 0 < i < |bounds| + 1
      ensures Above((bounds + [b])[i], (bounds + [b])[i - 1])
    {
      if i < |bounds| {
        assert (bounds + [b])[i] == bounds[i] && (bounds + [b])[i - 1] == bounds[i - 1];
      }
    }
  }

  /**
    One expansion in `idastar`: the successors of `currentNode` are generated
    and counted, filtered by the bound and by `studied`, and sorted by
    descending value, ready to be pushed so that the smallest value is popped
    first. Rejected-by-bound successors lower `nextMaxDepth`.
   */
  method BoundedSuccessors(ctx: Context, root: Node, currentNode: Node, getValue: Node -> int,
                           maxDepth: Bound, studied: map<Id, int>, nextMaxDepth: Bound, createdNodes: nat)
    returns (newNodes: seq<Node>, next: Bound, created: nat)
    requires Reachable(ctx, root, currentNode)
    ensures Fits(BoardOf(currentNode), ctx.size)
    ensures created == createdNodes + |Successors(ctx, currentNode)|
    ensures multiset(newNodes) == multiset(Admitted(Successors(ctx, currentNode), getValue, maxDepth, studied))
    ensures DescendingBy(newNodes, getValue)
    ensures OnStack(ctx, root, getValue, maxDepth, newNodes)
    ensures forall n :: n in newNodes ==> !Dominated(studied, n.id, getValue(n))
    ensures AtMost(next, nextMaxDepth)
    ensures forall n :: n in Successors(ctx, currentNode) && !Within(getValue(n), maxDepth)
              ==> AtMost(next, Finite(getValue(n)))
    ensures Above(nextMaxDepth, maxDepth) ==> Above(next, maxDepth)
    ensures next == nextMaxDepth ||
              exists n :: n in Successors(ctx, currentNode) && !Within(getValue(n), maxDepth) && next == Finite(getValue(n))
  {
    SuccessorsReachable(ctx, root, currentNode);
    var successors := Successors(ctx, currentNode);
    var kept;
    kept, next, created := SelectSuccessors(successors, getValue, maxDepth, studied, nextMaxDepth, createdNodes);
    AdmittedMembers(successors, getValue, maxDepth, studied);
    newNodes := SortByValueDescending(kept, getValue);
    forall n | n in newNodes
      ensures n in kept
    {
      assert n in multiset(newNodes);
    }
  }

  /** The successors of one expansion that lie beyond the bound. */
  ghost function RejectedBy(succ: seq<Node>, getValue: Node -> int, maxDepth: Bound): set<Node> {
    set n | n in succ && !Within(getValue(n), maxDepth)
  }

  /**
    `next` is the least value among the `rejected` nodes, each reachable from
    the root and beyond the bound; with nothing rejected it is still infinite.
   */
  ghost predicate LeastRejected(ctx: Context, root: Node, getValue: Node -> int, maxDepth: Bound,
                                rejected: set<Node>, next: Bound) {
    && (forall n :: n in rejected ==>
          Reachable(ctx, root, n) && !Within(getValue(n), maxDepth) && AtMost(next, Finite(getValue(n))))
    && (next.Finite? ==> exists n :: n in rejected && next == Finite(getValue(n)))
  }

  /** An expansion that lowers `nextMaxDepth` to its least rejected successor keeps it the least rejected value. */
  lemma RejectStep(ctx: Context, root: Node, getValue: Node -> int, maxDepth: Bound,
                   rejected: set<Node>, next: Bound, succ: seq<Node>, lowered: Bound)
    requires LeastRejected(ctx, root, getValue, maxDepth, rejected, next)
    requires forall n :: n in succ ==> Reachable(ctx, root, n)
    requires AtMost(lowered, next)
    requires forall n :: n in succ && !Within(getValue(n), maxDepth) ==> AtMost(lowered, Finite(getValue(n)))
    requires lowered == next || exists n :: n in succ && !Within(getValue(n), maxDepth) && lowered == Finite(getValue(n))
    ensures LeastRejected(ctx, root, getValue, maxDepth, rejected + RejectedBy(succ, getValue, maxDepth), lowered)
  {
    var all := rejected + RejectedBy(succ, getValue, maxDepth);
    if lowered.Finite? {
      if lowered == next {
        var n :| n in rejected && next == Finite(getValue(n));
        assert n in all;
      } else {
        var n :| n in succ && !Within(getValue(n), maxDepth) && lowered == Finite(getValue(n));
        assert n in all;
      }
    }
  }

  /**
    Every bound after the first is the value of a node reachable from the root
    that the bound before it rejected, or infinite.
   */
  ghost predicate Justified(ctx: Context, root: Node, getValue: Node -> int, bounds: seq<Bound>) {
    forall i :: 0 < i < |bounds| ==>
      bounds[i] == Infinity ||
      exists n :: Reachable(ctx, root, n) && !Within(getValue(n), bounds[i - 1]) && bounds[i] == Finite(getValue(n))
  }

  lemma JustifiedExtend(ctx: Context, root: Node, getValue: Node -> int, bounds: seq<Bound>,
                        rejected: set<Node>, next: Bound)
    requires |bounds| >= 1 && Justified(ctx, root, getValue, bounds)
    requires LeastRejected(ctx, root, getValue, bounds[|bounds| - 1], rejected, next)
    ensures Justified(ctx, root, getValue, bounds + [next])
  {
    var longer := bounds + [next];
    forall i | 0 < i < |longer|
      ensures longer[i] == Infinity ||
              exists n :: Reachable(ctx, root, n) && !Within(getValue(n), longer[i - 1]) && longer[i] == Finite(getValue(n))
    {
      if i < |bounds| {
        assert longer[i] == bounds[i] && longer[i - 1] == bounds[i - 1];
      } else if next.Finite? {
        var n :| n in rejected && next == Finite(getValue(n));
        assert Reachable(ctx, root, n) && !Within(getValue(n), longer[i - 1]);
      }
    }
  }

  /** How one iteration of `idastar` ends. */
  datatype Outcome =
    | Found(node: Node)  // the solved grid was popped
    | Cleared            // the stack ran empty: the next iteration starts
    | Starved            // the pop budget ran out first

  /**
    `idastar`: the first bound is the root's value. Each iteration restarts from
    the root and, once its stack is empty, takes `nextMaxDepth` as the new
    bound. The ghost `bounds` lists the bounds in the order they were used.
   */
  method IdaStar(puzzle: Grid, heuristic: Heuristic, search: SearchStyle, solvedId: Id,
                 size: nat, helpers: Helpers, fuel: nat)
    returns (r: Result<Return, SearchError>, ghost bounds: seq<Bound>)
    requires IsPuzzle(puzzle, size)
    ensures r != Failure(QueueEmpty)
    ensures |bounds| >= 1
    ensures bounds[0] == Finite(helpers.getter(search)(Root(Context(heuristic, search, size, helpers), puzzle)))
    // each new bound lies strictly above the previous one (or both are infinite)
    ensures Rising(bounds)
    // ... and is the value of a reachable node the previous bound cut off
    ensures Justified(Context(heuristic, search, size, helpers), Root(Context(heuristic, search, size, helpers), puzzle),
                      helpers.getter(search), bounds)
    ensures r.Success? ==> r.value.node.id == solvedId
    ensures r.Success? ==>
              Reachable(Context(heuristic, search, size, helpers), Root(Context(heuristic, search, size, helpers), puzzle), r.value.node)
    ensures r.Success? ==> Within(helpers.getter(search)(r.value.node), bounds[|bounds| - 1])
    // the counters are at least 1; the goal pop itself is counted as studied (see `Iteration`)
    ensures r.Success? ==> r.value.nbStudiedNodes >= 1 && r.value.createdNodes >= 1 && r.value.maxNumNodes >= 1
    // one studied node per pop, so no more than the fuel
    ensures r.Success? ==> r.value.nbStudiedNodes <= fuel
    // an already-solved grid: the root is popped first and counted as studied
    ensures fuel > 0 && helpers.identify(puzzle) == solvedId ==>
              r == Success(Return(Root(Context(heuristic, search, size, helpers), puzzle), 1, 1, 1))
  {
    var ctx := Context(heuristic, search, size, helpers);
    var (x, y) := FindEmptyBlock(puzzle, size);
    var startHeuristic := heuristic(puzzle);
    var parentNode := InitNode(startHeuristic, puzzle, x, y, helpers);
    assert parentNode == Root(ctx, puzzle);
    RootReachable(ctx, puzzle);
    r, bounds := Deepening(ctx, parentNode, solvedId, fuel);
  }

  /**
    The bound, the counters and the outer loop of `idastar`, from the root
    node; the contract is the one of `IdaStar`.
   */
  method Deepening(ctx: Context, parentNode: Node, solvedId: Id, fuel: nat)
    returns (r: Result<Return, SearchError>, ghost bounds: seq<Bound>)
    requires Reachable(ctx, parentNode, parentNode)
    ensures r != Failure(QueueEmpty)
    ensures |bounds| >= 1
    ensures bounds[0] == Finite(ctx.helpers.getter(ctx.search)(parentNode))
    ensures Rising(bounds)
    ensures Justified(ctx, parentNode, ctx.helpers.getter(ctx.search), bounds)
    ensures r.Success? ==> r.value.node.id == solvedId && Reachable(ctx, parentNode, r.value.node)
    ensures r.Success? ==> Within(ctx.helpers.getter(ctx.search)(r.value.node), bounds[|bounds| - 1])
    ensures r.Success? ==> r.value.nbStudiedNodes >= 1 && r.value.createdNodes >= 1 && r.value.maxNumNodes >= 1
    ensures r.Success? ==> r.value.nbStudiedNodes <= fuel
    ensures fuel > 0 && parentNode.id == solvedId ==> r == Success(Return(parentNode, 1, 1, 1))
  {
    var getValue := ctx.helpers.getter(ctx.search);

    var maxDepth := Finite(getValue(parentNode));

    var createdNodes: nat := 1;
    var nbStudiedNodes: nat := 0;
    var maxNumNodes: nat := 1;
    bounds := [maxDepth];

    var budget := fuel;
    while budget > 0
      invariant |bounds| >= 1 && bounds[0] == Finite(getValue(parentNode)) && bounds[|bounds| - 1] == maxDepth
      invariant Rising(bounds) && Justified(ctx, parentNode, getValue, bounds)
      invariant Within(getValue(parentNode), maxDepth)
      invariant createdNodes >= 1 && maxNumNodes >= 1
      invariant nbStudiedNodes == fuel - budget
      invariant parentNode.id == solvedId ==>
                  budget == fuel && createdNodes == 1 && nbStudiedNodes == 0 && maxNumNodes == 1
      decreases budget
    {
      var outcome, nextMaxDepth;
      ghost var rejected;
      outcome, nextMaxDepth, createdNodes, nbStudiedNodes, maxNumNodes, budget, rejected :=
        Iteration(ctx, parentNode, solvedId, maxDepth, createdNodes, nbStudiedNodes, maxNumNodes, budget);
      match outcome
      case Found(node) =>
        r := Success(Return(node, createdNodes, nbStudiedNodes, maxNumNodes));
        return;
      case Starved =>
        r := Failure(OutOfFuel);
        return;
      case Cleared =>
        RisingExtend(bounds, nextMaxDepth);
        JustifiedExtend(ctx, parentNode, getValue, bounds, rejected, nextMaxDepth);
        maxDepth := nextMaxDepth;
        bounds := bounds + [maxDepth];
    }
    r := Failure(OutOfFuel);
  }

  /**
    One iteration of `idastar` under the bound `maxDepth`: the stack starts as
    the root alone, `studied` empty and `nextMaxDepth` infinite; each pop is
    counted, the solved grid ends the search, and any other node is recorded
    in `studied` and expanded. When the stack runs empty, `nextMaxDepth` lies
    above `maxDepth` and is the least value among the successors the bound
    rejected during the iteration (the ghost `rejected`).
   */
  method Iteration(ctx: Context, root: Node, solvedId: Id, maxDepth: Bound,
                   createdNodes: nat, nbStudiedNodes: nat, maxNumNodes: nat, budget: nat)
    returns (r: Outcome, nextMaxDepth: Bound, created: nat, nbStudied: nat, maxNum: nat, left: nat,
             ghost rejected: set<Node>)
    requires Reachable(ctx, root, root)
    requires Within(ctx.helpers.getter(ctx.search)(root), maxDepth)
    ensures left <= budget && (r.Cleared? ==> left < budget) && (r.Starved? ==> left == 0)
    ensures created >= createdNodes && nbStudied >= nbStudiedNodes && maxNum >= maxNumNodes
    // every pop, the goal pop included, is counted once
    ensures nbStudied == nbStudiedNodes + (budget - left)
    ensures r.Found? ==> r.node.id == solvedId && Reachable(ctx, root, r.node) && nbStudied > nbStudiedNodes
    ensures r.Found? ==> Within(ctx.helpers.getter(ctx.search)(r.node), maxDepth)
    ensures r.Cleared? ==> Above(nextMaxDepth, maxDepth)
    ensures r.Cleared? ==> LeastRejected(ctx, root, ctx.helpers.getter(ctx.search), maxDepth, rejected, nextMaxDepth)
    // the solved root is the first pop
    ensures budget > 0 && root.id == solvedId ==>
              r == Found(root) && created == createdNodes && nbStudied == nbStudiedNodes + 1 && maxNum == maxNumNodes
  {
    var getValue := ctx.helpers.getter(ctx.search);
    nextMaxDepth := Infinity;
    var toStudy := [root];
    var studied: map<Id, int> := map[];
    ghost var round: seq<Node> := [];
    rejected := {};
    created, nbStudied, maxNum, left := createdNodes, nbStudiedNodes, maxNumNodes, budget;

    while |toStudy| > 0
      invariant left <= budget
      invariant left == budget ==>
                  toStudy == [root] && created == createdNodes && nbStudied == nbStudiedNodes && maxNum == maxNumNodes
      invariant created >= createdNodes && nbStudied >= nbStudiedNodes && maxNum >= maxNumNodes
      invariant nbStudied == nbStudiedNodes + (budget - left)
      invariant OnStack(ctx, root, getValue, maxDepth, toStudy)
      invariant Above(nextMaxDepth, maxDepth)
      invariant LeastRejected(ctx, root, getValue, maxDepth, rejected, nextMaxDepth)
      invariant studied == Recorded(round, getValue)
      invariant root.id == solvedId ==> left == budget
      decreases left
    {
      if left == 0 {
        r := Starved;
        return;
      }
      left := left - 1;
      StackPop(ctx, root, getValue, maxDepth, toStudy);
      var currentNode := toStudy[|toStudy| - 1];
      toStudy := toStudy[..|toStudy| - 1];

      maxNum := Max(|toStudy|, maxNum);
      nbStudied := nbStudied + 1;

      if currentNode.id == solvedId {
        r := Found(currentNode);
        return;
      }

      RecordedStep(round, currentNode, getValue);
      studied := studied[currentNode.id := getValue(currentNode)];
      round := round + [currentNode];

      var newNodes, lowered;
      newNodes, lowered, created :=
        BoundedSuccessors(ctx, root, currentNode, getValue, maxDepth, studied, nextMaxDepth, created);
      SuccessorsReachable(ctx, root, currentNode);
      RejectStep(ctx, root, getValue, maxDepth, rejected, nextMaxDepth, Successors(ctx, currentNode), lowered);
      rejected := rejected + RejectedBy(Successors(ctx, currentNode), getValue, maxDepth);
      nextMaxDepth := lowered;
      StackPush(ctx, root, getValue, maxDepth, toStudy, newNodes);
      toStudy := toStudy + newNodes;
    }
    r := Cleared;
  }
}
