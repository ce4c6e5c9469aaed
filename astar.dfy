/**
 * The A* pathfinder: a heap-ordered open list of search nodes, a closed set
 * of positions, parent links for path reconstruction, a breadth-first flood
 * fill that counts free squares, the most-free-space fallback direction, and
 * the cached path that get_next_move consumes one cell per tick.
 *
 * The game is read, never written: the snake (head first, tail last), the
 * food cell and the current heading are parameters. Collision means being
 * in snake_pos[:-1] (the tail will have moved away).
 */
module AStar {
  import opened Grid
  import opened Wrappers
  import Heapq

  /** A search node: its position, the node it was reached from, and g, h and f = g + h. */
  datatype Node = Node(position: Cell, parent: Option<Node>, g: int, h: int, f: int)

  /** Node.__lt__ compares f alone, so every node is keyed by (f, 0, 0). */
  function NodeEntry(n: Node): Heapq.Entry<Node> {
    Heapq.Entry((n.f, 0, 0), n)
  }

  /** The positions from the root of n's parent chain down to n. */
  function Trail(n: Node): (t: seq<Cell>)
    ensures |t| > 0 && t[|t| - 1] == n.position
    decreases n
  {
    match n.parent
    case None => [n.position]
    case Some(p) => Trail(p) + [n.position]
  }

  function Reversed<T>(s: seq<T>): (r: seq<T>)
    ensures |r| == |s| && forall i :: 0 <= i < |s| ==> r[i] == s[|s| - 1 - i]
  {
    if s == [] then [] else Reversed(s[1..]) + [s[0]]
  }

  lemma ReversedSnoc<T>(s: seq<T>, x: T)
    ensures Reversed(s + [x]) == [x] + Reversed(s)
  {
    assert forall i :: 0 <= i < |s| + 1 ==> Reversed(s + [x])[i] == ([x] + Reversed(s))[i];
  }

  /** manhattan_distance: the pixel distance floor-divided by the grid size. */
  function ManhattanDistance(a: Cell, b: Cell): (d: nat)
    ensures d * GridSize <= PixelManhattan(a, b) < (d + 1) * GridSize
  {
    PixelManhattan(a, b) / GridSize
  }

  /** is_collision: the position is one of the segments other than the tail. */
  predicate IsCollision(c: Cell, snake: seq<Cell>) {
    c in Body(snake)
  }

  /** The in-window cells one step from p, in the order of ds. */
  function StepsInWindow(p: Cell, ds: seq<Direction>): seq<Cell> {
    if ds == [] then []
    else (if InWindow(Step(p, ds[0])) then [Step(p, ds[0])] else []) + StepsInWindow(p, ds[1..])
  }

  lemma {:induction false} StepsInWindowMembers(p: Cell, ds: seq<Direction>, c: Cell)
    ensures c in StepsInWindow(p, ds) <==> exists i :: 0 <= i < |ds| && c == Step(p, ds[i]) && InWindow(c)
  {
    if ds != [] {
      StepsInWindowMembers(p, ds[1..], c);
      if c in StepsInWindow(p, ds[1..]) {
        var i :| 0 <= i < |ds[1..]| && c == Step(p, ds[1..][i]) && InWindow(c);
        assert c == Step(p, ds[i + 1]);
      }
      if exists i :: 0 <= i < |ds| && c == Step(p, ds[i]) && InWindow(c) {
        var i :| 0 <= i < |ds| && c == Step(p, ds[i]) && InWindow(c);
        if i > 0 {
          assert c == Step(p, ds[1..][i - 1]);
        }
      }
    }
  }

  /** Every open neighbour of p is among the in-window steps in neighbour order. */
  lemma OpenStepListed(p: Cell, d: Direction, blocked: seq<Cell>)
    requires InWindow(Step(p, d))
    ensures Step(p, d) in StepsInWindow(p, NeighbourOrder)
  {
    var i := match d case Down => 0 case Right => 1 case Up => 2 case Left => 3;
    assert NeighbourOrder[i] == d;
    StepsInWindowMembers(p, NeighbourOrder, Step(p, d));
  }

  lemma {:induction false} StepsInWindowSnoc(p: Cell, ds: seq<Direction>, d: Direction)
    ensures StepsInWindow(p, ds + [d]) == StepsInWindow(p, ds) + (if InWindow(Step(p, d)) then [Step(p, d)] else [])
  {
    if ds == [] {
      assert [d][1..] == [];
    } else {
      assert (ds + [d])[1..] == ds[1..] + [d];
      StepsInWindowSnoc(p, ds[1..], d);
    }
  }

  lemma NeighbourListFacts(p: Cell)
    ensures forall c :: c in StepsInWindow(p, NeighbourOrder) ==> InWindow(c) && Adjacent(p, c)
    ensures forall d :: InWindow(Step(p, d)) ==> Step(p, d) in StepsInWindow(p, NeighbourOrder)
  {
    forall c | c in StepsInWindow(p, NeighbourOrder) ensures InWindow(c) && Adjacent(p, c) {
      StepsInWindowMembers(p, NeighbourOrder, c);
    }
    forall d | InWindow(Step(p, d)) ensures Step(p, d) in StepsInWindow(p, NeighbourOrder) {
      OpenStepListed(p, d, []);
    }
  }

  /**
   * get_neighbors: the in-window cells one grid step away, in the order
   * down, right, up, left.
   */
  method GetNeighbors(position: Cell) returns (neighbors: seq<Cell>)
    ensures neighbors == StepsInWindow(position, NeighbourOrder)
    ensures forall c :: c in neighbors ==> InWindow(c) && Adjacent(position, c)
    ensures forall d :: InWindow(Step(position, d)) ==> Step(position, d) in neighbors
  {
    neighbors := [];
    for k := 0 to |NeighbourOrder|
      invariant neighbors == StepsInWindow(position, NeighbourOrder[..k])
    {
      var next := Step(position, NeighbourOrder[k]);
      StepsInWindowSnoc(position, NeighbourOrder[..k], NeighbourOrder[k]);
      assert NeighbourOrder[..k + 1] == NeighbourOrder[..k] + [NeighbourOrder[k]];
      if InWindow(next) {
        neighbors := neighbors + [next];
      }
    }
    assert NeighbourOrder[..|NeighbourOrder|] == NeighbourOrder;
    NeighbourListFacts(position);
  }

  /** Some entry of the open list sits at c. */
  predicate InOpen(open: seq<Heapq.Entry<Node>>, c: Cell) {
    exists e :: e in open && e.item.position == c
  }

  /** Some entry of the open list sits at c with a g of at most g. */
  predicate OpenWithin(open: seq<Heapq.Entry<Node>>, c: Cell, g: int) {
    exists e :: e in open && e.item.position == c && e.item.g <= g
  }

  /**
   * should_add_to_open: false exactly when a node at the same position is
   * already open with an f no larger than the neighbour's.
   */
  method ShouldAddToOpen(open: seq<Heapq.Entry<Node>>, neighbor: Node) returns (add: bool)
    ensures add <==> forall e :: e in open && e.item.position == neighbor.position ==> neighbor.f < e.item.f
  {
    for k := 0 to |open|
      invariant forall j :: 0 <= j < k && open[j].item.position == neighbor.position ==> neighbor.f < open[j].item.f
    {
      var node := open[k].item;
      if node.position == neighbor.position && neighbor.f >= node.f {
        return false;
      }
    }
    return true;
  }

  /** The entries of the open list whose position is already closed. */
  function CountClosed(open: seq<Heapq.Entry<Node>>, closed: set<Cell>): nat {
    if open == [] then 0
    else (if open[0].item.position in closed then 1 else 0) + CountClosed(open[1..], closed)
  }

  lemma {:induction false} CountClosedAppend(a: seq<Heapq.Entry<Node>>, b: seq<Heapq.Entry<Node>>, closed: set<Cell>)
    ensures CountClosed(a + b, closed) == CountClosed(a, closed) + CountClosed(b, closed)
  {
    if a != [] {
      assert (a + b)[1..] == a[1..] + b;
      CountClosedAppend(a[1..], b, closed);
    } else {
      assert a + b == b;
    }
  }

  /** Whether the entry's position is closed, as CountClosed counts it. */
  function ClosedMark(e: Heapq.Entry<Node>, closed: set<Cell>): nat {
    if e.item.position in closed then 1 else 0
  }

  /** Dropping the i-th entry removes exactly that entry's contribution. */
  lemma CountClosedRemove(b: seq<Heapq.Entry<Node>>, i: nat, closed: set<Cell>)
    requires i < |b|
    ensures CountClosed(b, closed) == CountClosed(b[..i] + b[i + 1..], closed) + ClosedMark(b[i], closed)
  {
    assert b == b[..i] + ([b[i]] + b[i + 1..]);
    CountClosedAppend(b[..i], [b[i]] + b[i + 1..], closed);
    CountClosedAppend([b[i]], b[i + 1..], closed);
    CountClosedAppend(b[..i], b[i + 1..], closed);
  }

  /** Removing a matching entry from both sides of a permutation leaves a permutation. */
  lemma PermutationWithoutFirst(a: seq<Heapq.Entry<Node>>, b: seq<Heapq.Entry<Node>>) returns (i: nat)
    requires |a| > 0 && multiset(a) == multiset(b)
    ensures i < |b| && b[i] == a[0]
    ensures multiset(a[1..]) == multiset(b[..i] + b[i + 1..])
  {
    assert a[0] in multiset(b);
    i :| 0 <= i < |b| && b[i] == a[0];
    assert a == [a[0]] + a[1..];
    assert b == b[..i] + [b[i]] + b[i + 1..];
    assert multiset(a[1..]) == multiset(a) - multiset{a[0]};
    assert multiset(b[..i] + b[i + 1..]) == multiset(b) - multiset{b[i]};
  }

  /** The count depends only on the multiset of entries, not on the heap's order. */
  lemma {:induction false} CountClosedPermutation(a: seq<Heapq.Entry<Node>>, b: seq<Heapq.Entry<Node>>, closed: set<Cell>)
    requires multiset(a) == multiset(b)
    ensures CountClosed(a, closed) == CountClosed(b, closed)
    decreases |a|
  {
    if a == [] {
      assert |multiset(b)| == 0;
    } else {
      var i := PermutationWithoutFirst(a, b);
      CountClosedPermutation(a[1..], b[..i] + b[i + 1..], closed);
      CountClosedRemove(b, i, closed);
    }
  }

  /**
   * A node whose parent chain is a walk from the search start to its
   * position, taking g steps.
   */
  ghost predicate NodeOk(e: Heapq.Entry<Node>, start: Cell, blocked: seq<Cell>) {
    WalkFromTo(Trail(e.item), start, e.item.position, blocked) && e.item.position in Universe(start) &&
    |Trail(e.item)| == e.item.g + 1
  }

  /**
   * An entry keyed by its node's f, where f is g plus the Manhattan estimate
   * from the node's position to end.
   */
  predicate Scored(e: Heapq.Entry<Node>, end: Cell) {
    e == NodeEntry(e.item) && e.item.f == e.item.g + ManhattanDistance(e.item.position, end)
  }

  /** A child one open step from a well-formed parent is well formed. */
  lemma ChildOk(parent: Node, child: Node, start: Cell, blocked: seq<Cell>)
    requires NodeOk(NodeEntry(parent), start, blocked)
    requires child.parent == Some(parent) && child.g == parent.g + 1
    requires Adjacent(parent.position, child.position) && Open(child.position, blocked)
    ensures NodeOk(NodeEntry(child), start, blocked)
  {
    var t := Trail(parent);
    assert Trail(child) == t + [child.position];
    assert (t + [child.position])[0] == t[0];
    OpenInUniverse(child.position, start, blocked);
  }

  /** Every open neighbour of a closed position is closed or has an open entry. */
  ghost predicate Covered(closed: set<Cell>, open: seq<Heapq.Entry<Node>>, blocked: seq<Cell>) {
    forall c, d :: c in closed && Open(Step(c, d), blocked) ==> Step(c, d) in closed || InOpen(open, Step(c, d))
  }

  lemma LargerSubsetLeavesLess(u: set<Cell>, v0: set<Cell>, v: set<Cell>)
    requires v0 <= v <= u && v != v0
    ensures |u - v| < |u - v0|
  {
    var x :| x in v && x !in v0;
    SubsetCardinality(u - v, (u - v0) - {x});
  }

  lemma SubtractGrows(u: set<Cell>, v: set<Cell>, x: Cell)
    requires x in u && x !in v
    ensures |u - (v + {x})| < |u - v|
  {
    assert u - (v + {x}) == (u - v) - {x};
  }

  /**
   * The path reconstruction loop: collect positions following parent links,
   * then reverse.
   */
  method ReconstructPath(node: Node) returns (path: seq<Cell>)
    ensures path == Trail(node)
  {
    var collected: seq<Cell> := [];
    var current: Option<Node> := Some(node);
    while current.Some?
      invariant Trail(node) == (if current.Some? then Trail(current.value) else []) + Reversed(collected)
      decreases current
    {
      ReversedSnoc(collected, current.value.position);
      collected := collected + [current.value.position];
      current := current.value.parent;
    }
    path := Reversed(collected);
  }

  /**
   * Pushing a well-formed entry keeps every entry well formed, loses none,
   * adds no closed entry when the pushed position is open, and puts an entry
   * at the pushed position.
   */
  lemma PushEntry(before: seq<Heapq.Entry<Node>>, after: seq<Heapq.Entry<Node>>, x: Heapq.Entry<Node>,
                  start: Cell, end: Cell, blocked: seq<Cell>, closed: set<Cell>)
    requires multiset(after) == multiset(before) + multiset{x}
    requires forall e :: e in before ==> NodeOk(e, start, blocked) && Scored(e, end)
    requires NodeOk(x, start, blocked) && Scored(x, end) && x.item.position !in closed
    ensures forall e :: e in after ==> NodeOk(e, start, blocked) && Scored(e, end)
    ensures forall e :: e in before ==> e in after
    ensures CountClosed(after, closed) == CountClosed(before, closed)
    ensures OpenWithin(after, x.item.position, x.item.g)
    ensures forall c, g :: OpenWithin(before, c, g) ==> OpenWithin(after, c, g)
  {
    Heapq.PushMembers(before, x, after);
    CountClosedPermutation(after, before + [x], closed);
    CountClosedAppend(before, [x], closed);
  }

  /** An open cell c is closed or has an open entry with g at most g. */
  ghost predicate Handled(open: seq<Heapq.Entry<Node>>, c: Cell, closed: set<Cell>, blocked: seq<Cell>, g: int) {
    Open(c, blocked) ==> c in closed || OpenWithin(open, c, g)
  }

  /** Cells handled before a push stay handled after it, and one more cell is now handled. */
  lemma HandledKept(before: seq<Heapq.Entry<Node>>, after: seq<Heapq.Entry<Node>>, cells: seq<Cell>, k: int,
                    closed: set<Cell>, blocked: seq<Cell>, g: int)
    requires 0 <= k < |cells|
    requires forall c, g' :: OpenWithin(before, c, g') ==> OpenWithin(after, c, g')
    requires forall j :: 0 <= j < k ==> Handled(before, cells[j], closed, blocked, g)
    requires Handled(after, cells[k], closed, blocked, g)
    ensures forall j :: 0 <= j < k + 1 ==> Handled(after, cells[j], closed, blocked, g)
  {
    forall j | 0 <= j < k ensures Handled(after, cells[j], closed, blocked, g) {
      assert Handled(before, cells[j], closed, blocked, g);
    }
  }

  /**
   * A scored neighbour that should_add_to_open refuses already has an open
   * entry at its position with a g no larger than its own.
   */
  lemma RefusedWithin(open: seq<Heapq.Entry<Node>>, neighbor: Node, end: Cell)
    requires forall e :: e in open ==> Scored(e, end)
    requires Scored(NodeEntry(neighbor), end)
    requires !forall e :: e in open && e.item.position == neighbor.position ==> neighbor.f < e.item.f
    ensures OpenWithin(open, neighbor.position, neighbor.g)
  {
    var e :| e in open && e.item.position == neighbor.position && neighbor.f >= e.item.f;
    assert Scored(e, end);
  }

  /**
   * One pass of find_path's neighbour loop: a neighbour that is not closed and
   * not on the snake is scored and pushed unless should_add_to_open refuses it.
   */
  method ConsiderNeighbor(open: seq<Heapq.Entry<Node>>, closed: set<Cell>, current: Node, newPosition: Cell,
                          end: Cell, snake: seq<Cell>, ghost start: Cell)
    returns (openList: seq<Heapq.Entry<Node>>)
    requires forall e :: e in open ==> NodeOk(e, start, Body(snake)) && Scored(e, end)
    requires NodeOk(NodeEntry(current), start, Body(snake))
    requires Adjacent(current.position, newPosition) && InWindow(newPosition)
    ensures forall e :: e in openList ==> NodeOk(e, start, Body(snake)) && Scored(e, end)
    ensures forall c, g :: OpenWithin(open, c, g) ==> OpenWithin(openList, c, g)
    ensures forall e :: e in open ==> e in openList
    ensures Handled(openList, newPosition, closed, Body(snake), current.g + 1)
    ensures CountClosed(openList, closed) == CountClosed(open, closed)
    ensures Heapq.IsHeap(open) ==> Heapq.IsHeap(openList)
  {
    ghost var blocked := Body(snake);
    openList := open;
    if newPosition in closed {
      return;
    }
    var neighbor := Node(newPosition, Some(current), 0, 0, 0);
    if IsCollision(newPosition, snake) {
      return;
    }
    var g := current.g + 1;
    var h := ManhattanDistance(neighbor.position, end);
    neighbor := neighbor.(g := g, h := h, f := g + h);
    var add := ShouldAddToOpen(openList, neighbor);
    if add {
      openList := Heapq.HeapPush(open, NodeEntry(neighbor));
      ChildOk(current, neighbor, start, blocked);
      PushEntry(open, openList, NodeEntry(neighbor), start, end, blocked, closed);
    } else {
      RefusedWithin(openList, neighbor, end);
    }
  }

  /**
   * The neighbour loop of find_path: each in-window, unclosed, collision-free
   * neighbour of current is pushed onto the open list unless should_add_to_open
   * refuses it.
   */
  method ExpandNode(open: seq<Heapq.Entry<Node>>, closed: set<Cell>, current: Node, end: Cell, snake: seq<Cell>, ghost start: Cell)
    returns (openList: seq<Heapq.Entry<Node>>)
    requires forall e :: e in open ==> NodeOk(e, start, Body(snake))
    requires NodeOk(NodeEntry(current), start, Body(snake))
    requires forall e :: e in open ==> Scored(e, end)
    ensures forall e :: e in openList ==> NodeOk(e, start, Body(snake)) && Scored(e, end)
    ensures forall e :: e in open ==> e in openList
    ensures forall d :: Open(Step(current.position, d), Body(snake)) ==>
      Step(current.position, d) in closed || InOpen(openList, Step(current.position, d))
    ensures forall d :: Open(Step(current.position, d), Body(snake)) ==>
      Step(current.position, d) in closed || OpenWithin(openList, Step(current.position, d), current.g + 1)
    ensures CountClosed(openList, closed) == CountClosed(open, closed)
    ensures Heapq.IsHeap(open) ==> Heapq.IsHeap(openList)
  {
    ghost var blocked := Body(snake);
    openList := open;
    var neighbours := GetNeighbors(current.position);
    for k := 0 to |neighbours|
      invariant forall e :: e in openList ==> NodeOk(e, start, blocked) && Scored(e, end)
      invariant forall e :: e in open ==> e in openList
      invariant forall j :: 0 <= j < k ==> Handled(openList, neighbours[j], closed, blocked, current.g + 1)
      invariant CountClosed(openList, closed) == CountClosed(open, closed)
      invariant Heapq.IsHeap(open) ==> Heapq.IsHeap(openList)
    {
      ghost var before := openList;
      openList := ConsiderNeighbor(openList, closed, current, neighbours[k], end, snake, start);
      HandledKept(before, openList, neighbours, k, closed, blocked, current.g + 1);
    }
    forall d | Open(Step(current.position, d), blocked)
      ensures Step(current.position, d) in closed || OpenWithin(openList, Step(current.position, d), current.g + 1)
    {
      var j :| 0 <= j < |neighbours| && neighbours[j] == Step(current.position, d);
      assert Handled(openList, neighbours[j], closed, blocked, current.g + 1);
    }
  }

  /**
   * What the search loop keeps: every open node carries a walk from start,
   * the goal is never closed, the start is closed or open, and every open
   * neighbour of a closed position is closed or open.
   */
  ghost predicate SearchState(start: Cell, end: Cell, blocked: seq<Cell>, open: seq<Heapq.Entry<Node>>, closed: set<Cell>) {
    (forall e :: e in open ==> NodeOk(e, start, blocked)) &&
    end !in closed &&
    closed <= Universe(start) &&
    (start in closed || InOpen(open, start)) &&
    Covered(closed, open, blocked)
  }

  /** Popping a non-goal node, closing it and expanding it keeps the search state. */
  lemma SearchStep(start: Cell, end: Cell, blocked: seq<Cell>, open: seq<Heapq.Entry<Node>>, closed: set<Cell>,
                   top: Heapq.Entry<Node>, rest: seq<Heapq.Entry<Node>>, expanded: seq<Heapq.Entry<Node>>)
    requires SearchState(start, end, blocked, open, closed)
    requires multiset(rest) + multiset{top} == multiset(open)
    requires top.item.position != end
    requires forall e :: e in expanded ==> NodeOk(e, start, blocked)
    requires forall e :: e in rest ==> e in expanded
    requires forall d :: Open(Step(top.item.position, d), blocked) ==>
      Step(top.item.position, d) in closed + {top.item.position} || InOpen(expanded, Step(top.item.position, d))
    ensures SearchState(start, end, blocked, expanded, closed + {top.item.position})
  {
    Heapq.PopMembers(open, top, rest);
    var x := top.item.position;
    var closed' := closed + {x};
    forall c, d | c in closed' && Open(Step(c, d), blocked)
      ensures Step(c, d) in closed' || InOpen(expanded, Step(c, d))
    {
      if c != x {
        assert Step(c, d) in closed || InOpen(open, Step(c, d));
      }
    }
  }

  /** An exhausted search has closed everything reachable, so the goal is unreachable. */
  lemma SearchExhausted(start: Cell, end: Cell, blocked: seq<Cell>, closed: set<Cell>)
    requires SearchState(start, end, blocked, [], closed)
    ensures !Reachable(start, end, blocked)
  {
    assert ClosedUnderSteps(closed, blocked);
    if Reachable(start, end, blocked) {
      ClosedContainsReachable(closed, start, end, blocked);
    }
  }

  /**
   * The Manhattan estimate is consistent: along a walk it drops by at most
   * one per step.
   */
  lemma HeuristicAlongWalk(p: seq<Cell>, end: Cell, blocked: seq<Cell>)
    requires IsWalk(p, blocked)
    ensures ManhattanDistance(p[0], end) <= ManhattanDistance(p[|p| - 1], end) + |p| - 1
  {
    WalkManhattanBound(p, blocked);
  }

  /** A walk that leaves a set has a first cell outside it, right after a cell inside. */
  lemma {:induction false} FirstOutside(q: seq<Cell>, closed: set<Cell>) returns (i: nat)
    requires |q| > 0 && q[0] in closed && q[|q| - 1] !in closed
    ensures 0 < i < |q| && q[i - 1] in closed && q[i] !in closed
  {
    i := 1;
    while q[i] in closed
      invariant 0 < i < |q| && q[i - 1] in closed
      decreases |q| - i
    {
      i := i + 1;
    }
  }

  /**
   * What the search keeps for optimality: dist records the g each closed
   * position was first closed with, which no walk from start undercuts; every
   * open, unclosed neighbour of a closed c has an open entry with g at most
   * dist[c] + 1; once start is closed every open entry is scored; and the
   * open list is a heap.
   */
  ghost predicate ShortestState(start: Cell, end: Cell, blocked: seq<Cell>, open: seq<Heapq.Entry<Node>>,
                                closed: set<Cell>, dist: map<Cell, int>) {
    dist.Keys == closed &&
    Heapq.IsHeap(open) &&
    (start in closed ==> forall e :: e in open ==> Scored(e, end)) &&
    (forall c, q :: c in dist && WalkFromTo(q, start, c, blocked) ==> dist[c] <= |q| - 1) &&
    (forall c, d :: c in dist && Open(Step(c, d), blocked) && Step(c, d) !in closed ==>
      OpenWithin(open, Step(c, d), dist[c] + 1))
  }

  /**
   * The node popped at an unclosed position took as few steps as any walk
   * from start to that position.
   */
  lemma PopShortest(start: Cell, end: Cell, blocked: seq<Cell>, open: seq<Heapq.Entry<Node>>, closed: set<Cell>,
                    dist: map<Cell, int>, top: Heapq.Entry<Node>, q: seq<Cell>)
    requires ShortestState(start, end, blocked, open, closed, dist)
    requires top in open && forall e :: e in open ==> !Heapq.Less(e.key, top.key)
    requires top.item.position !in closed && (start in closed || top.item.g == 0)
    requires WalkFromTo(q, start, top.item.position, blocked)
    ensures top.item.g <= |q| - 1
  {
    if start in closed {
      var x := top.item.position;
      var i := FirstOutside(q, closed);
      var c, y := q[i - 1], q[i];
      var d := DirectionTo(c, y);
      assert Step(c, d) == y;
      assert WalkFromTo(q[..i], start, c, blocked);
      assert dist[c] <= i - 1;
      var e :| e in open && e.item.position == y && e.item.g <= dist[c] + 1;
      assert Scored(e, end) && Scored(top, end);
      assert IsWalk(q[i..], blocked);
      HeuristicAlongWalk(q[i..], end, blocked);
    }
  }

  /** Popping, closing and expanding a node keeps the optimality bookkeeping. */
  lemma ShortestStep(start: Cell, end: Cell, blocked: seq<Cell>, open: seq<Heapq.Entry<Node>>, closed: set<Cell>,
                     dist: map<Cell, int>, top: Heapq.Entry<Node>, rest: seq<Heapq.Entry<Node>>,
                     expanded: seq<Heapq.Entry<Node>>)
    requires ShortestState(start, end, blocked, open, closed, dist)
    requires multiset(rest) + multiset{top} == multiset(open)
    requires top.item.position !in closed ==> forall q :: WalkFromTo(q, start, top.item.position, blocked) ==> top.item.g <= |q| - 1
    requires start in closed + {top.item.position}
    requires forall e :: e in rest ==> e in expanded
    requires forall e :: e in expanded ==> Scored(e, end)
    requires Heapq.IsHeap(expanded)
    requires forall d :: Open(Step(top.item.position, d), blocked) ==>
      Step(top.item.position, d) in closed + {top.item.position} ||
      OpenWithin(expanded, Step(top.item.position, d), top.item.g + 1)
    ensures ShortestState(start, end, blocked, expanded, closed + {top.item.position},
      if top.item.position in closed then dist else dist[top.item.position := top.item.g])
  {
    Heapq.PopMembers(open, top, rest);
    var x := top.item.position;
    var closed' := closed + {x};
    var dist' := if x in closed then dist else dist[x := top.item.g];
    forall c, d | c in dist' && Open(Step(c, d), blocked) && Step(c, d) !in closed'
      ensures OpenWithin(expanded, Step(c, d), dist'[c] + 1)
    {
      if c != x || x in closed {
        var e :| e in open && e.item.position == Step(c, d) && e.item.g <= dist[c] + 1;
        assert e in rest;
      }
    }
  }

  /**
   * find_path: a path from start to end through in-window cells that are not
   * in snake_pos[:-1], or [] when there is none.
   */
  method FindPath(start: Cell, end: Cell, snake: seq<Cell>) returns (path: seq<Cell>)
    ensures path != [] ==> WalkFromTo(path, start, end, Body(snake))
    ensures path == [] <==> !Reachable(start, end, Body(snake))
    ensures start == end ==> path == [start]
    ensures forall p :: WalkFromTo(p, start, end, Body(snake)) ==> |path| <= |p|
  {
    ghost var blocked := Body(snake);
    var startNode := Node(start, None, 0, 0, 0);
    var endNode := Node(end, None, 0, 0, 0);
    var openList: seq<Heapq.Entry<Node>> := [];
    var closedList: set<Cell> := {};
    ghost var dist: map<Cell, int> := map[];
    openList := Heapq.HeapPush(openList, NodeEntry(startNode));
    assert openList == [NodeEntry(startNode)] by {
      assert |openList| == 1 && openList[0] in multiset(openList);
    }
    assert WalkFromTo(Trail(startNode), start, start, blocked);
    while |openList| > 0
      invariant SearchState(start, end, blocked, openList, closedList)
      invariant ShortestState(start, end, blocked, openList, closedList, dist)
      invariant start !in closedList ==> closedList == {} && openList == [NodeEntry(startNode)]
      invariant start == end ==> closedList == {} && openList == [NodeEntry(startNode)]
      decreases |Universe(start) - closedList|, CountClosed(openList, closedList)
    {
      ghost var closedBefore, openBefore := closedList, openList;
      var top;
      top, openList := Heapq.HeapPop(openList);
      Heapq.PopMembers(openBefore, top, openList);
      ghost var rest := openList;
      CountClosedPermutation(openBefore, rest + [top], closedBefore);
      CountClosedAppend(rest, [top], closedBefore);
      var currentNode := top.item;
      if currentNode.position !in closedBefore {
        forall q | WalkFromTo(q, start, currentNode.position, blocked) ensures currentNode.g <= |q| - 1 {
          PopShortest(start, end, blocked, openBefore, closedBefore, dist, top, q);
        }
      }
      closedList := closedList + {currentNode.position};
      if currentNode.position == endNode.position {
        path := ReconstructPath(currentNode);
        return;
      }
      openList := ExpandNode(openList, closedList, currentNode, end, snake, start);
      SearchStep(start, end, blocked, openBefore, closedBefore, top, rest, openList);
      ShortestStep(start, end, blocked, openBefore, closedBefore, dist, top, rest, openList);
      if currentNode.position !in closedBefore {
        dist := dist[currentNode.position := currentNode.g];
      }
      if currentNode.position !in closedBefore {
        SubtractGrows(Universe(start), closedBefore, currentNode.position);
      } else {
        assert closedList == closedBefore;
      }
    }
    SearchExhausted(start, end, blocked, closedList);
    path := [];
  }

  /** A returned path never takes fewer steps than the Manhattan estimate. */
  lemma PathNoShorterThanManhattan(path: seq<Cell>, start: Cell, end: Cell, snake: seq<Cell>)
    requires WalkFromTo(path, start, end, Body(snake))
    ensures |path| - 1 >= ManhattanDistance(start, end)
  {
    WalkManhattanBound(path, Body(snake));
  }

  /** The squares count_free_squares reaches from s: s itself and every cell reachable from it. */
  ghost function FreeRegion(s: Cell, blocked: seq<Cell>): set<Cell> {
    set c | c in Universe(s) && Reachable(s, c, blocked)
  }

  /** From a board cell, at most the whole board is free. */
  lemma FreeRegionWithinBoard(s: Cell, blocked: seq<Cell>)
    requires IsGridCell(s)
    ensures |FreeRegion(s, blocked)| <= GridCount * GridCount
  {
    forall c | c in FreeRegion(s, blocked) ensures c in BoardCells() {
      ReachableStaysOnBoard(s, c, blocked);
      BoardCellsAreGridCells(c);
    }
    BoardCellCount();
    SubsetCardinality(FreeRegion(s, blocked), BoardCells());
  }

  /**
   * The flood fill's bookkeeping: every queued cell is visited and not yet
   * counted, the queue has no repeats, every visited cell is counted or
   * queued, and every visited cell is reachable from the start.
   */
  ghost predicate FloodState(startPos: Cell, blocked: seq<Cell>, popped: set<Cell>, visited: set<Cell>, queue: seq<Cell>) {
    (forall c :: c in queue ==> c in visited && c !in popped) &&
    (forall i, j :: 0 <= i < j < |queue| ==> queue[i] != queue[j]) &&
    (forall c :: c in visited ==> c in popped || c in queue) &&
    popped <= visited <= Universe(startPos) &&
    (forall c :: c in visited ==> Reachable(startPos, c, blocked))
  }

  /** Every open cell of cs has been visited. */
  ghost predicate OpenAmongVisited(cs: seq<Cell>, blocked: seq<Cell>, visited: set<Cell>) {
    forall c :: c in cs && Open(c, blocked) ==> c in visited
  }

  lemma FloodStatePush(startPos: Cell, blocked: seq<Cell>, popped: set<Cell>, visited: set<Cell>, queue: seq<Cell>, x: Cell)
    requires FloodState(startPos, blocked, popped, visited, queue)
    requires x !in visited && x in Universe(startPos) && Reachable(startPos, x, blocked)
    ensures FloodState(startPos, blocked, popped, visited + {x}, queue + [x])
  {
    var q := queue + [x];
    forall i, j | 0 <= i < j < |q| ensures q[i] != q[j] {
      if j == |queue| {
        assert q[i] == queue[i];
      } else {
        assert q[i] == queue[i] && q[j] == queue[j];
      }
    }
  }

  /** The neighbour loop of count_free_squares: queue each unvisited, collision-free neighbour of pos. */
  method EnqueueNeighbours(pos: Cell, snake: seq<Cell>, visited0: set<Cell>, queue0: seq<Cell>, ghost startPos: Cell, ghost popped: set<Cell>)
    returns (visited: set<Cell>, queue: seq<Cell>)
    requires FloodState(startPos, Body(snake), popped, visited0, queue0) && pos in popped
    ensures FloodState(startPos, Body(snake), popped, visited, queue)
    ensures visited0 <= visited
    ensures OpenAmongVisited(StepsInWindow(pos, NeighbourOrder), Body(snake), visited)
    ensures visited == visited0 ==> queue == queue0
  {
    ghost var blocked := Body(snake);
    ghost var universe := Universe(startPos);
    visited, queue := visited0, queue0;
    var neighbours := GetNeighbors(pos);
    for k := 0 to |neighbours|
      invariant FloodState(startPos, blocked, popped, visited, queue)
      invariant visited0 <= visited
      invariant OpenAmongVisited(neighbours[..k], blocked, visited)
      invariant visited == visited0 ==> queue == queue0
    {
      var nextPos := neighbours[k];
      assert neighbours[..k + 1] == neighbours[..k] + [nextPos];
      if nextPos !in visited && !IsCollision(nextPos, snake) {
        ReachableAdjacent(startPos, pos, nextPos, blocked);
        OpenInUniverse(nextPos, startPos, blocked);
        FloodStatePush(startPos, blocked, popped, visited, queue, nextPos);
        visited := visited + {nextPos};
        queue := queue + [nextPos];
      }
    }
    assert neighbours[..|neighbours|] == neighbours;
  }

  /**
   * count_free_squares: breadth-first flood fill from startPos through
   * in-window cells outside snake_pos[:-1]; every dequeued cell is counted.
   */
  method CountFreeSquares(startPos: Cell, snake: seq<Cell>) returns (count: nat)
    ensures count == |FreeRegion(startPos, Body(snake))|
    ensures count >= 1
  {
    ghost var blocked := Body(snake);
    ghost var region := FreeRegion(startPos, blocked);
    ghost var universe := Universe(startPos);
    ReachableRefl(startPos, blocked);
    var visited: set<Cell> := {startPos};
    var queue: seq<Cell> := [startPos];
    count := 0;
    ghost var popped: set<Cell> := {};
    while |queue| > 0
      invariant FloodState(startPos, blocked, popped, visited, queue)
      invariant count == |popped|
      invariant startPos in visited
      invariant forall c, d :: c in popped && Open(Step(c, d), blocked) ==> Step(c, d) in visited
      decreases |universe - visited|, |queue|
    {
      var pos := queue[0];
      ghost var v0 := visited;
      queue := queue[1..];
      count := count + 1;
      popped := popped + {pos};
      visited, queue := EnqueueNeighbours(pos, snake, visited, queue, startPos, popped);
      if visited != v0 {
        LargerSubsetLeavesLess(universe, v0, visited);
      }
      forall d | Open(Step(pos, d), blocked) ensures Step(pos, d) in visited {
        OpenStepListed(pos, d, blocked);
      }
    }
    assert visited == popped;
    assert ClosedUnderSteps(visited, blocked);
    forall c | c in region ensures c in visited {
      ClosedContainsReachable(visited, startPos, c, blocked);
    }
    assert visited == region;
  }

  /** get_next_position: the cell one step away in d, or None when it leaves the window. */
  function GetNextPosition(position: Cell, direction: Direction): (r: Option<Cell>)
    ensures r.Some? <==> InWindow(Step(position, direction))
    ensures r.Some? ==> r.value == Step(position, direction) && DirectionTo(position, r.value) == direction
  {
    DirectionToStep(position, direction);
    var next := Step(position, direction);
    if InWindow(next) then Some(next) else None
  }

  /** Rank of a direction in the enum's iteration order. */
  function Rank(d: Direction): nat {
    match d
    case Right => 0
    case Left => 1
    case Up => 2
    case Down => 3
  }

  /** The head can step in d: the cell is inside the window and not a collision. */
  predicate CanMove(snake: seq<Cell>, d: Direction)
    requires |snake| > 0
  {
    Open(Step(snake[0], d), Body(snake))
  }

  /** The free squares count_free_squares finds after stepping the head in d. */
  ghost function FreeAfter(snake: seq<Cell>, d: Direction): nat
    requires |snake| > 0
  {
    |FreeRegion(Step(snake[0], d), Body(snake))|
  }

  /** The directions of ds the head can step in, in the order of ds. */
  function MovableDirections(snake: seq<Cell>, ds: seq<Direction>): (r: seq<Direction>)
    requires |snake| > 0
    ensures forall d :: d in r ==> d in ds && CanMove(snake, d)
  {
    if ds == [] then []
    else (if CanMove(snake, ds[0]) then [ds[0]] else []) + MovableDirections(snake, ds[1..])
  }

  lemma {:induction false} MovableDirectionsComplete(snake: seq<Cell>, ds: seq<Direction>, d: Direction)
    requires |snake| > 0 && d in ds && CanMove(snake, d)
    ensures d in MovableDirections(snake, ds)
  {
    if ds[0] != d {
      MovableDirectionsComplete(snake, ds[1..], d);
    }
  }

  lemma {:induction false} MovableDirectionsSnoc(snake: seq<Cell>, ds: seq<Direction>, d: Direction)
    requires |snake| > 0
    ensures MovableDirections(snake, ds + [d]) == MovableDirections(snake, ds) + (if CanMove(snake, d) then [d] else [])
  {
    if ds == [] {
      assert [d][1..] == [];
    } else {
      var first: seq<Direction> := if CanMove(snake, ds[0]) then [ds[0]] else [];
      var last: seq<Direction> := if CanMove(snake, d) then [d] else [];
      assert (ds + [d])[1..] == ds[1..] + [d];
      assert MovableDirections(snake, ds + [d]) == first + MovableDirections(snake, ds[1..] + [d]);
      MovableDirectionsSnoc(snake, ds[1..], d);
      assert first + (MovableDirections(snake, ds[1..]) + last) == (first + MovableDirections(snake, ds[1..])) + last;
    }
  }

  /** Directions listed in strictly increasing enum order. */
  predicate RankSorted(ds: seq<Direction>) {
    forall i, j :: 0 <= i < j < |ds| ==> Rank(ds[i]) < Rank(ds[j])
  }

  lemma SortedTail(ds: seq<Direction>)
    requires |ds| > 0 && RankSorted(ds)
    ensures RankSorted(ds[1..])
    ensures forall e :: e in ds[1..] ==> Rank(ds[0]) < Rank(e)
  {
    var tail := ds[1..];
    forall i, j | 0 <= i < j < |tail| ensures Rank(tail[i]) < Rank(tail[j]) {
      assert tail[i] == ds[i + 1] && tail[j] == ds[j + 1];
    }
    forall e | e in tail ensures Rank(ds[0]) < Rank(e) {
      var j :| 0 <= j < |tail| && tail[j] == e;
      assert ds[j + 1] == e;
    }
  }

  lemma SortedCons(x: Direction, rest: seq<Direction>)
    requires RankSorted(rest) && forall e :: e in rest ==> Rank(x) < Rank(e)
    ensures RankSorted([x] + rest)
  {
    var m := [x] + rest;
    forall i, j | 0 <= i < j < |m| ensures Rank(m[i]) < Rank(m[j]) {
      assert m[j] == rest[j - 1];
      if i > 0 {
        assert m[i] == rest[i - 1];
      }
    }
  }

  /** Filtering keeps the enum order. */
  lemma {:induction false} MovableDirectionsSorted(snake: seq<Cell>, ds: seq<Direction>)
    requires |snake| > 0 && RankSorted(ds)
    ensures RankSorted(MovableDirections(snake, ds))
  {
    if ds != [] {
      SortedTail(ds);
      MovableDirectionsSorted(snake, ds[1..]);
      if CanMove(snake, ds[0]) {
        SortedCons(ds[0], MovableDirections(snake, ds[1..]));
      }
    }
  }

  lemma DirectionOrderSorted()
    ensures RankSorted(DirectionOrder)
  {
    forall i, j | 0 <= i < j < |DirectionOrder| ensures Rank(DirectionOrder[i]) < Rank(DirectionOrder[j]) {
      assert Rank(DirectionOrder[i]) == i && Rank(DirectionOrder[j]) == j;
    }
  }

  /** Each direction paired with the free squares after stepping in it. */
  ghost function WithFree(snake: seq<Cell>, ds: seq<Direction>): (r: seq<(Direction, nat)>)
    requires |snake| > 0
    ensures |r| == |ds| && forall i :: 0 <= i < |ds| ==> r[i] == (ds[i], FreeAfter(snake, ds[i]))
  {
    seq(|ds|, i requires 0 <= i < |ds| => (ds[i], FreeAfter(snake, ds[i])))
  }

  /** The (direction, free squares) pairs get_safe_direction collects. */
  ghost function SafeMoves(snake: seq<Cell>): seq<(Direction, nat)>
    requires |snake| > 0
  {
    WithFree(snake, MovableDirections(snake, DirectionOrder))
  }

  /** max(moves, key=count): the first pair whose count no later pair exceeds. */
  function FirstMax(moves: seq<(Direction, nat)>): (Direction, nat)
    requires |moves| > 0
  {
    if |moves| == 1 then moves[0]
    else
      var m := FirstMax(moves[..|moves| - 1]);
      if moves[|moves| - 1].1 > m.1 then moves[|moves| - 1] else m
  }

  lemma {:induction false} FirstMaxIsFirstMaximum(moves: seq<(Direction, nat)>) returns (k: nat)
    requires |moves| > 0
    ensures k < |moves| && moves[k] == FirstMax(moves)
    ensures forall j :: 0 <= j < |moves| ==> moves[j].1 <= moves[k].1
    ensures forall j :: 0 <= j < k ==> moves[j].1 < moves[k].1
  {
    if |moves| == 1 {
      k := 0;
    } else {
      var init := moves[..|moves| - 1];
      k := FirstMaxIsFirstMaximum(init);
      if moves[|moves| - 1].1 > FirstMax(init).1 {
        k := |moves| - 1;
      }
    }
  }

  /** What get_safe_direction returns for this snake and heading. */
  ghost function SafeDirection(snake: seq<Cell>, heading: Direction): Direction
    requires |snake| > 0
  {
    var moves := SafeMoves(snake);
    if moves == [] then heading else FirstMax(moves).0
  }

  /** With no open neighbour, get_safe_direction keeps the current heading. */
  lemma SafeDirectionKeepsHeading(snake: seq<Cell>, heading: Direction)
    requires |snake| > 0 && forall d :: !CanMove(snake, d)
    ensures SafeDirection(snake, heading) == heading
  {
    NoMovable(snake, DirectionOrder);
  }

  lemma {:induction false} NoMovable(snake: seq<Cell>, ds: seq<Direction>)
    requires |snake| > 0 && forall d :: !CanMove(snake, d)
    ensures MovableDirections(snake, ds) == []
  {
    if ds != [] {
      NoMovable(snake, ds[1..]);
    }
  }

  /**
   * With some open neighbour, get_safe_direction picks an open direction
   * with the most free squares, and the first such in enum order.
   */
  lemma SafeDirectionIsRoomiest(snake: seq<Cell>, heading: Direction, d: Direction)
    requires |snake| > 0 && CanMove(snake, d)
    ensures CanMove(snake, SafeDirection(snake, heading))
    ensures FreeAfter(snake, d) <= FreeAfter(snake, SafeDirection(snake, heading))
    ensures Rank(d) < Rank(SafeDirection(snake, heading)) ==> FreeAfter(snake, d) < FreeAfter(snake, SafeDirection(snake, heading))
  {
    var dirs := MovableDirections(snake, DirectionOrder);
    var moves := SafeMoves(snake);
    assert d in DirectionOrder by {
      assert DirectionOrder[Rank(d)] == d;
    }
    MovableDirectionsComplete(snake, DirectionOrder, d);
    DirectionOrderSorted();
    MovableDirectionsSorted(snake, DirectionOrder);
    var j :| 0 <= j < |dirs| && dirs[j] == d;
    var k := FirstMaxKeepsOrder(dirs, moves, j);
    assert dirs[k] in dirs;
  }

  /**
   * Over directions in enum order, the first maximum of the counts is at
   * least every count, and strictly above the count of every direction
   * before it in enum order.
   */
  lemma FirstMaxKeepsOrder(dirs: seq<Direction>, moves: seq<(Direction, nat)>, j: int) returns (k: int)
    requires |moves| == |dirs| && RankSorted(dirs)
    requires forall i :: 0 <= i < |dirs| ==> moves[i].0 == dirs[i]
    requires 0 <= j < |dirs|
    ensures 0 <= k < |dirs| && FirstMax(moves) == moves[k]
    ensures moves[j].1 <= moves[k].1
    ensures Rank(dirs[j]) < Rank(dirs[k]) ==> moves[j].1 < moves[k].1
  {
    k := FirstMaxIsFirstMaximum(moves);
    if k < j {
      assert Rank(dirs[k]) < Rank(dirs[j]);
    }
  }

  /** max(moves, key=lambda x: x[1]): scan left to right, replacing only on a strictly larger count. */
  method MaxByCount(moves: seq<(Direction, nat)>) returns (best: (Direction, nat))
    requires |moves| > 0
    ensures best == FirstMax(moves)
  {
    best := moves[0];
    for i := 1 to |moves|
      invariant best == FirstMax(moves[..i])
    {
      assert moves[..i + 1][..i] == moves[..i];
      if moves[i].1 > best.1 {
        best := moves[i];
      }
    }
    assert moves[..|moves|] == moves;
  }

  /** Scanning one more direction adds its pair exactly when the head can step there. */
  lemma SafeMovesStep(snake: seq<Cell>, k: int)
    requires |snake| > 0 && 0 <= k < |DirectionOrder|
    ensures var d := DirectionOrder[k];
      WithFree(snake, MovableDirections(snake, DirectionOrder[..k + 1])) ==
      WithFree(snake, MovableDirections(snake, DirectionOrder[..k])) + (if CanMove(snake, d) then [(d, FreeAfter(snake, d))] else [])
  {
    var d := DirectionOrder[k];
    assert DirectionOrder[..k + 1] == DirectionOrder[..k] + [d];
    MovableDirectionsSnoc(snake, DirectionOrder[..k], d);
  }

  /**
   * get_safe_direction: among the directions (in enum order) whose next cell is
   * inside the window and not a collision, the one whose flood fill counts the
   * most free squares, the first on a tie; the current heading when none is open.
   */
  method GetSafeDirection(snake: seq<Cell>, heading: Direction) returns (r: Direction)
    requires |snake| > 0
    ensures r == SafeDirection(snake, heading)
  {
    var head := snake[0];
    var possibleMoves: seq<(Direction, nat)> := [];
    for k := 0 to |DirectionOrder|
      invariant possibleMoves == WithFree(snake, MovableDirections(snake, DirectionOrder[..k]))
    {
      var direction := DirectionOrder[k];
      SafeMovesStep(snake, k);
      var nextPos := GetNextPosition(head, direction);
      if nextPos.Some? && !IsCollision(nextPos.value, snake) {
        var freeSquares := CountFreeSquares(nextPos.value, snake);
        possibleMoves := possibleMoves + [(direction, freeSquares)];
      }
    }
    assert DirectionOrder[..|DirectionOrder|] == DirectionOrder;
    if |possibleMoves| > 0 {
      var best := MaxByCount(possibleMoves);
      return best.0;
    }
    return heading;
  }

  /** The pathfinder object: only the cached path survives between calls. */
  class AStarPathfinder {
    var currentPath: seq<Cell>

    constructor ()
      ensures currentPath == []
    {
      currentPath := [];
    }

    /**
     * get_next_move: with a cached path, pop its first cell and head towards
     * it. Without one, search a path to the food, else to the tail; a fresh
     * path starts at the head itself, so the move returned is UP and the rest
     * of the path is cached. With neither path, fall back to the safe direction.
     */
    method GetNextMove(snake: seq<Cell>, food: Cell, heading: Direction) returns (r: Direction)
      requires |snake| > 0
      modifies this
      ensures old(currentPath) != [] ==>
        currentPath == old(currentPath)[1..] && r == DirectionTo(snake[0], old(currentPath)[0])
      ensures var head, tail, blocked := snake[0], snake[|snake| - 1], Body(snake);
        old(currentPath) == [] && Reachable(head, food, blocked) ==>
          r == Up && exists p :: (WalkFromTo(p, head, food, blocked) && currentPath == p[1..] &&
                                  forall q :: WalkFromTo(q, head, food, blocked) ==> |p| <= |q|)
      ensures var head, tail, blocked := snake[0], snake[|snake| - 1], Body(snake);
        old(currentPath) == [] && !Reachable(head, food, blocked) && Reachable(head, tail, blocked) ==>
          r == Up && exists p :: (WalkFromTo(p, head, tail, blocked) && currentPath == p[1..] &&
                                  forall q :: WalkFromTo(q, head, tail, blocked) ==> |p| <= |q|)
      ensures var head, tail, blocked := snake[0], snake[|snake| - 1], Body(snake);
        old(currentPath) == [] && !Reachable(head, food, blocked) && !Reachable(head, tail, blocked) ==>
          currentPath == [] && r == SafeDirection(snake, heading)
    {
      if currentPath == [] {
        var path := FindPath(snake[0], food, snake);
        if path == [] {
          path := FindPath(snake[0], snake[|snake| - 1], snake);
        }
        if path != [] {
          currentPath := path;
        } else {
          r := GetSafeDirection(snake, heading);
          return;
        }
      }
      var nextPos := currentPath[0];
      currentPath := currentPath[1..];
      r := DirectionTo(snake[0], nextPos);
    }
  }
}
