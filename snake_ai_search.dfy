/**
 * The bookkeeping of the older snake AI's A* search, kept apart from the
 * search itself: the frontier's cells, the invariants that tie the frontier,
 * came_from and cost_so_far together, and the facts each step of the search
 * preserves.
 */
module SnakeAISearch {
  import opened Grid
  import opened Wrappers
  import Heapq
  import AStar

  /** The frontier holds (priority, cell) pairs; its key is (priority, x, y). */
  type FrontierEntry = Heapq.Entry<Cell>

  function FrontierItem(priority: int, c: Cell): FrontierEntry {
    Heapq.Entry((priority, c.0, c.1), c)
  }

  ghost function Items(frontier: seq<FrontierEntry>): set<Cell> {
    set e | e in frontier :: e.item
  }

  lemma ItemsAfterPush(before: seq<FrontierEntry>, x: FrontierEntry, after: seq<FrontierEntry>)
    requires multiset(after) == multiset(before) + multiset{x}
    ensures Items(after) == Items(before) + {x.item}
  {
    Heapq.PushMembers(before, x, after);
  }

  lemma ItemsAfterPop(before: seq<FrontierEntry>, top: FrontierEntry, rest: seq<FrontierEntry>)
    requires multiset(rest) + multiset{top} == multiset(before)
    ensures top.item in Items(before)
    ensures Items(rest) <= Items(before) <= Items(rest) + {top.item}
  {
    Heapq.PopMembers(before, top, rest);
  }

  /** k's recorded parent is a cheaper cell next to k, and k itself is open. */
  ghost predicate Linked(k: Cell, parent: Option<Cell>, cost: map<Cell, nat>, snake: seq<Cell>) {
    parent.Some? && parent.value in cost && k in cost && cost[parent.value] < cost[k] &&
    Adjacent(parent.value, k) && Open(k, snake)
  }

  /**
   * The search maps: the start costs 0 and has no parent, came_from and
   * cost_so_far share their keys, and every other key is linked to a parent.
   */
  ghost predicate Explored(start: Cell, snake: seq<Cell>, cameFrom: map<Cell, Option<Cell>>, cost: map<Cell, nat>) {
    start in cost && cost[start] == 0 && cameFrom.Keys == cost.Keys && cameFrom[start] == None &&
    (forall c :: c in cost ==> c == start || InWindow(c)) &&
    forall k {:trigger cameFrom[k]} :: k in cameFrom && k != start ==> Linked(k, cameFrom[k], cost, snake)
  }

  /** Every open neighbour of k has a cost. */
  ghost predicate Expanded(k: Cell, cost: map<Cell, nat>, snake: seq<Cell>) {
    forall d :: Open(Step(k, d), snake) ==> Step(k, d) in cost
  }

  /** Frontier cells have costs, and every costed cell off the frontier has been expanded. */
  ghost predicate Pending(frontier: seq<FrontierEntry>, cost: map<Cell, nat>, snake: seq<Cell>) {
    Items(frontier) <= cost.Keys &&
    forall k {:trigger Expanded(k, cost, snake)} :: k in cost && k !in Items(frontier) ==> Expanded(k, cost, snake)
  }

  /** A ghost list of the keys of cost_so_far, without repetitions. */
  ghost predicate Listed(keys: seq<Cell>, cost: map<Cell, nat>) {
    Distinct(keys) && forall c :: c in keys <==> c in cost
  }

  /** The sum of the recorded costs of the listed cells: it falls whenever a cost falls. */
  ghost function CostSum(keys: seq<Cell>, cost: map<Cell, nat>): nat
    requires forall c :: c in keys ==> c in cost
  {
    if keys == [] then 0 else cost[keys[0]] + CostSum(keys[1..], cost)
  }

  lemma {:induction false} CostSumUnchanged(keys: seq<Cell>, cost: map<Cell, nat>, k: Cell, v: nat)
    requires forall c :: c in keys ==> c in cost
    requires k !in keys
    ensures CostSum(keys, cost[k := v]) == CostSum(keys, cost)
  {
    if keys != [] {
      CostSumUnchanged(keys[1..], cost, k, v);
    }
  }

  lemma {:induction false} CostSumLower(keys: seq<Cell>, cost: map<Cell, nat>, k: Cell, v: nat)
    requires forall c :: c in keys ==> c in cost
    requires Distinct(keys) && k in keys && v < cost[k]
    ensures CostSum(keys, cost[k := v]) < CostSum(keys, cost)
  {
    var rest := keys[1..];
    assert Distinct(rest) by {
      forall i, j | 0 <= i < j < |rest| ensures rest[i] != rest[j] {
        assert rest[i] == keys[i + 1] && rest[j] == keys[j + 1];
      }
    }
    if keys[0] == k {
      assert k !in rest by {
        forall i | 0 <= i < |rest| ensures rest[i] != k {
          assert rest[i] == keys[i + 1];
        }
      }
      CostSumUnchanged(rest, cost, k, v);
    } else {
      CostSumLower(rest, cost, k, v);
    }
  }

  /** Lowering the cost of another cell keeps k linked to its parent. */
  lemma LinkKept(k: Cell, parent: Option<Cell>, cost: map<Cell, nat>, snake: seq<Cell>, next: Cell, v: nat)
    requires Linked(k, parent, cost, snake) && k != next && next in cost && v < cost[next]
    ensures Linked(k, parent, cost[next := v], snake)
  {
  }

  /** Giving next a cheaper cost and current as its parent keeps the maps well formed. */
  lemma ExploredAfterLower(start: Cell, snake: seq<Cell>, cameFrom: map<Cell, Option<Cell>>, cost: map<Cell, nat>,
                           keys: seq<Cell>, current: Cell, next: Cell)
    requires Explored(start, snake, cameFrom, cost) && Listed(keys, cost)
    requires current in cost && Adjacent(current, next) && Open(next, snake) && next != start
    requires next in cost && cost[current] + 1 < cost[next]
    ensures Explored(start, snake, cameFrom[next := Some(current)], cost[next := cost[current] + 1])
    ensures Listed(keys, cost[next := cost[current] + 1])
    ensures CostSum(keys, cost[next := cost[current] + 1]) < CostSum(keys, cost)
  {
    var cost' := cost[next := cost[current] + 1];
    var cameFrom' := cameFrom[next := Some(current)];
    forall k | k in cameFrom' && k != start ensures Linked(k, cameFrom'[k], cost', snake) {
      if k != next {
        LinkKept(k, cameFrom[k], cost, snake, next, cost[current] + 1);
      }
    }
    ListedLower(keys, cost, next, cost[current] + 1);
  }

  /** Lowering the cost of a listed key keeps the list and lowers the cost sum. */
  lemma ListedLower(keys: seq<Cell>, cost: map<Cell, nat>, k: Cell, v: nat)
    requires Listed(keys, cost) && k in cost && v < cost[k]
    ensures Listed(keys, cost[k := v])
    ensures CostSum(keys, cost[k := v]) < CostSum(keys, cost)
  {
    CostSumLower(keys, cost, k, v);
  }

  /** Recording the first cost of a new key. */
  lemma NewCost(start: Cell, snake: seq<Cell>, cameFrom: map<Cell, Option<Cell>>, cost: map<Cell, nat>,
                keys: seq<Cell>, current: Cell, next: Cell)
    requires Explored(start, snake, cameFrom, cost) && Listed(keys, cost)
    requires current in cost && Adjacent(current, next) && Open(next, snake) && next != start
    requires next !in cost
    ensures Explored(start, snake, cameFrom[next := Some(current)], cost[next := cost[current] + 1])
    ensures Listed(keys + [next], cost[next := cost[current] + 1])
  {
  }

  /**
   * Where the neighbour loop stands relative to its entry state (frontier0,
   * cost0, keys0): the maps are still well formed, keys only grow, every new
   * key waits on the frontier, current's cost is untouched, and unless a key
   * was added, either nothing changed or the cost sum fell.
   */
  ghost predicate Progress(start: Cell, snake: seq<Cell>, current: Cell,
                           frontier0: seq<FrontierEntry>, cost0: map<Cell, nat>, keys0: seq<Cell>,
                           frontier: seq<FrontierEntry>, cameFrom: map<Cell, Option<Cell>>, cost: map<Cell, nat>, keys: seq<Cell>)
  {
    Explored(start, snake, cameFrom, cost) && Listed(keys, cost) && Listed(keys0, cost0) &&
    current in cost0 && current in cost && cost[current] == cost0[current] &&
    cost0.Keys <= cost.Keys && Items(frontier0) <= Items(frontier) <= cost.Keys &&
    (forall k :: k in cost && k !in cost0 ==> k in Items(frontier)) &&
    (cost.Keys == cost0.Keys ==> keys == keys0 && ((frontier == frontier0 && cost == cost0) || CostSum(keys, cost) < CostSum(keys0, cost0)))
  }

  /** A new key: it gets its first cost, a frontier entry and a parent. */
  lemma ProgressNew(start: Cell, snake: seq<Cell>, current: Cell, next: Cell, x: FrontierEntry,
                    frontier0: seq<FrontierEntry>, cost0: map<Cell, nat>, keys0: seq<Cell>,
                    frontier: seq<FrontierEntry>, cameFrom: map<Cell, Option<Cell>>, cost: map<Cell, nat>, keys: seq<Cell>,
                    frontier': seq<FrontierEntry>)
    requires Progress(start, snake, current, frontier0, cost0, keys0, frontier, cameFrom, cost, keys)
    requires Adjacent(current, next) && Open(next, snake) && next != start && next !in cost
    requires x.item == next && multiset(frontier') == multiset(frontier) + multiset{x}
    ensures Progress(start, snake, current, frontier0, cost0, keys0, frontier',
                     cameFrom[next := Some(current)], cost[next := cost[current] + 1], keys + [next])
  {
    NewCost(start, snake, cameFrom, cost, keys, current, next);
    ItemsAfterPush(frontier, x, frontier');
  }

  /** A known key reached more cheaply: a lower cost, a new frontier entry and a new parent. */
  lemma ProgressLower(start: Cell, snake: seq<Cell>, current: Cell, next: Cell, x: FrontierEntry,
                      frontier0: seq<FrontierEntry>, cost0: map<Cell, nat>, keys0: seq<Cell>,
                      frontier: seq<FrontierEntry>, cameFrom: map<Cell, Option<Cell>>, cost: map<Cell, nat>, keys: seq<Cell>,
                      frontier': seq<FrontierEntry>)
    requires Progress(start, snake, current, frontier0, cost0, keys0, frontier, cameFrom, cost, keys)
    requires Adjacent(current, next) && Open(next, snake) && next != start
    requires next in cost && cost[current] + 1 < cost[next]
    requires x.item == next && multiset(frontier') == multiset(frontier) + multiset{x}
    ensures Progress(start, snake, current, frontier0, cost0, keys0, frontier',
                     cameFrom[next := Some(current)], cost[next := cost[current] + 1], keys)
  {
    ExploredAfterLower(start, snake, cameFrom, cost, keys, current, next);
    ItemsAfterPush(frontier, x, frontier');
  }

  /** Recording next with current as its parent, whether next is new or only cheaper. */
  lemma ProgressRecord(start: Cell, snake: seq<Cell>, current: Cell, next: Cell, x: FrontierEntry,
                       frontier0: seq<FrontierEntry>, cost0: map<Cell, nat>, keys0: seq<Cell>,
                       frontier: seq<FrontierEntry>, cameFrom: map<Cell, Option<Cell>>, cost: map<Cell, nat>, keys: seq<Cell>,
                       frontier': seq<FrontierEntry>, cameFrom': map<Cell, Option<Cell>>, cost': map<Cell, nat>, keys': seq<Cell>)
    requires Progress(start, snake, current, frontier0, cost0, keys0, frontier, cameFrom, cost, keys)
    requires Adjacent(current, next) && Open(next, snake)
    requires next !in cost || cost[current] + 1 < cost[next]
    requires x.item == next && multiset(frontier') == multiset(frontier) + multiset{x}
    requires cost' == cost[next := cost[current] + 1] && cameFrom' == cameFrom[next := Some(current)]
    requires keys' == if next in cost then keys else keys + [next]
    ensures Progress(start, snake, current, frontier0, cost0, keys0, frontier', cameFrom', cost', keys')
    ensures forall c :: c in cost ==> c in cost'
    ensures next in cost'
  {
    assert next != start;
    if next in cost {
      ProgressLower(start, snake, current, next, x, frontier0, cost0, keys0, frontier, cameFrom, cost, keys, frontier');
    } else {
      ProgressNew(start, snake, current, next, x, frontier0, cost0, keys0, frontier, cameFrom, cost, keys, frontier');
    }
  }

  /** Before the neighbour loop, nothing has changed yet. */
  lemma ProgressStart(start: Cell, snake: seq<Cell>, current: Cell, frontier: seq<FrontierEntry>,
                      cameFrom: map<Cell, Option<Cell>>, cost: map<Cell, nat>, keys: seq<Cell>)
    requires Explored(start, snake, cameFrom, cost) && Listed(keys, cost) && current in cost
    requires Items(frontier) <= cost.Keys
    ensures Progress(start, snake, current, frontier, cost, keys, frontier, cameFrom, cost, keys)
  {
  }

  /** The search's initial state: only the start, at cost 0, without a parent, on the frontier. */
  lemma SearchStart(start: Cell, snake: seq<Cell>)
    ensures Explored(start, snake, map[start := None], map[start := 0])
    ensures Listed([start], map[start := 0])
    ensures Pending([FrontierItem(0, start)], map[start := 0], snake)
  {
    assert Items([FrontierItem(0, start)]) == {start} by {
      assert FrontierItem(0, start) in [FrontierItem(0, start)];
    }
  }

  /** A cell stays expanded while costs are only added. */
  lemma ExpandedGrows(k: Cell, cost0: map<Cell, nat>, cost: map<Cell, nat>, snake: seq<Cell>)
    requires Expanded(k, cost0, snake) && forall c :: c in cost0 ==> c in cost
    ensures Expanded(k, cost, snake)
  {
  }

  /**
   * After current was popped and its neighbours relaxed, every costed cell off
   * the frontier is expanded again.
   */
  lemma PendingAfterExpansion(start: Cell, snake: seq<Cell>, current: Cell, before: seq<FrontierEntry>,
                              rest: seq<FrontierEntry>, cost0: map<Cell, nat>, keys0: seq<Cell>,
                              frontier: seq<FrontierEntry>, cameFrom: map<Cell, Option<Cell>>, cost: map<Cell, nat>, keys: seq<Cell>)
    requires Pending(before, cost0, snake) && Items(before) <= Items(rest) + {current}
    requires Progress(start, snake, current, rest, cost0, keys0, frontier, cameFrom, cost, keys)
    requires Expanded(current, cost, snake)
    ensures Pending(frontier, cost, snake)
  {
    forall k | k in cost && k !in Items(frontier) ensures Expanded(k, cost, snake) {
      assert k in cost0;
      if k != current {
        assert k !in Items(before);
        assert Expanded(k, cost0, snake);
        ExpandedGrows(k, cost0, cost, snake);
      }
    }
  }

  /** One turn of the search loop lowers (unvisited cells, cost sum, frontier length) lexicographically. */
  lemma SearchMeasure(start: Cell, snake: seq<Cell>, current: Cell, before: seq<FrontierEntry>,
                      rest: seq<FrontierEntry>, cost0: map<Cell, nat>, keys0: seq<Cell>,
                      frontier: seq<FrontierEntry>, cameFrom: map<Cell, Option<Cell>>, cost: map<Cell, nat>, keys: seq<Cell>)
    requires Progress(start, snake, current, rest, cost0, keys0, frontier, cameFrom, cost, keys)
    requires |rest| < |before|
    ensures Listed(keys0, cost0) && Listed(keys, cost)
    ensures var u := Universe(start);
      |u - cost.Keys| < |u - cost0.Keys| ||
      (|u - cost.Keys| == |u - cost0.Keys| &&
       (CostSum(keys, cost) < CostSum(keys0, cost0) ||
        (CostSum(keys, cost) == CostSum(keys0, cost0) && |frontier| < |before|)))
  {
    if cost.Keys != cost0.Keys {
      KeysInUniverse(start, cost);
      AStar.LargerSubsetLeavesLess(Universe(start), cost0.Keys, cost.Keys);
    }
  }

  /** The costed cells lie in the start's universe: the window plus the start itself. */
  lemma KeysInUniverse(start: Cell, cost: map<Cell, nat>)
    requires forall c :: c in cost ==> c == start || InWindow(c)
    ensures cost.Keys <= Universe(start)
  {
    forall c | c in cost ensures c in Universe(start) {
      assert c == (c.0, c.1);
    }
  }

  /** A search that ran out of frontier has costed everything reachable from the start. */
  lemma ExhaustedSearch(start: Cell, goal: Cell, snake: seq<Cell>, frontier: seq<FrontierEntry>, cost: map<Cell, nat>)
    requires Pending(frontier, cost, snake) && |frontier| == 0 && start in cost && goal !in cost
    ensures !Reachable(start, goal, snake)
  {
    assert Items(frontier) == {};
    forall c, d | c in cost.Keys && Open(Step(c, d), snake) ensures Step(c, d) in cost.Keys {
      assert Expanded(c, cost, snake);
    }
    if Reachable(start, goal, snake) {
      ClosedContainsReachable(cost.Keys, start, goal, snake);
    }
  }
}
