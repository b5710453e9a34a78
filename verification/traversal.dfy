/**
 * Breadth-first traversal of an adjacency-list graph (`bfs` in
 * algorithms.py), and the reachability relation it is measured against.
 */
module Traversal {

  /** `graph.get(n, [])`: a node without an entry has no neighbours. */
  function Neighbours<T>(g: map<T, seq<T>>, n: T): seq<T> {
    if n in g then g[n] else []
  }

  /** Every node the graph mentions, as a key or inside an adjacency list. */
  ghost function Nodes<T>(g: map<T, seq<T>>): set<T> {
    g.Keys + set k, y | k in g && y in g[k] :: y
  }

  /** No element occurs twice. */
  predicate Distinct<T(==)>(s: seq<T>) {
    forall i, j :: 0 <= i < j < |s| ==> s[i] != s[j]
  }

  /** A non-empty walk along edges. */
  ghost predicate IsPath<T>(g: map<T, seq<T>>, p: seq<T>) {
    |p| > 0 && forall i :: 0 <= i < |p| - 1 ==> p[i + 1] in Neighbours(g, p[i])
  }

  /** `to` can be reached from `from` in zero or more steps. */
  ghost predicate Reachable<T(!new)>(g: map<T, seq<T>>, from: T, to: T) {
    exists p :: IsPath(g, p) && p[0] == from && p[|p| - 1] == to
  }

  /** All neighbours of every element of `s` are in `s` too. */
  ghost predicate Closed<T>(g: map<T, seq<T>>, s: seq<T>) {
    forall i, y :: 0 <= i < |s| && y in Neighbours(g, s[i]) ==> y in s
  }

  /** `y` is the `k`-th neighbour of the `j`-th element of `s`. */
  ghost predicate EdgeAt<T>(g: map<T, seq<T>>, s: seq<T>, j: int, k: int, y: T) {
    0 <= j < |s| && 0 <= k < |Neighbours(g, s[j])| && Neighbours(g, s[j])[k] == y
  }

  /** `(j, k)` comes strictly before `(j', k')` in lexicographic order. */
  predicate Before(j: int, k: int, j': int, k': int) {
    j < j' || (j == j' && k < k')
  }

  /** Some edge out of `s` that comes before `(c, k)` leads to `y`. */
  ghost predicate EnteredBefore<T>(g: map<T, seq<T>>, s: seq<T>, y: T, c: int, k: int) {
    exists j, m :: EdgeAt(g, s, j, m, y) && Before(j, m, c, k)
  }

  /** Every element after the first was discovered as a neighbour of an earlier one. */
  ghost predicate Discovered<T>(g: map<T, seq<T>>, s: seq<T>) {
    forall i {:trigger EnteredBefore(g, s, s[i], i, 0)} :: 0 < i < |s| ==> EnteredBefore(g, s, s[i], i, 0)
  }

  /**
   * Breadth-first order with adjacency-list tie-breaking: of two elements
   * after the first, the earlier one is entered by an edge (emitting
   * element, position in its adjacency list) that comes lexicographically
   * before every edge entering the later one.
   */
  ghost predicate LevelOrder<T>(g: map<T, seq<T>>, s: seq<T>) {
    forall i, i', j', k' {:trigger EnteredBefore(g, s, s[i], j', k'), EdgeAt(g, s, j', k', s[i'])} ::
      0 < i < i' < |s| && EdgeAt(g, s, j', k', s[i']) ==> EnteredBefore(g, s, s[i], j', k')
  }

  /** Every element after the first is entered by an edge that comes before `(c, k)`. */
  ghost predicate ReachedBefore<T>(g: map<T, seq<T>>, s: seq<T>, c: int, k: int) {
    forall i {:trigger EnteredBefore(g, s, s[i], c, k)} :: 0 < i < |s| ==> EnteredBefore(g, s, s[i], c, k)
  }

  /** A set closed under the edges that contains `from` contains all it reaches. */
  lemma {:induction false} ClosedHoldsReachable<T(!new)>(g: map<T, seq<T>>, s: seq<T>, from: T, to: T)
    requires from in s && Closed(g, s)
    requires Reachable(g, from, to)
    ensures to in s
  {
    var p :| IsPath(g, p) && p[0] == from && p[|p| - 1] == to;
    var k := 0;
    while k < |p| - 1
      invariant 0 <= k < |p|
      invariant p[k] in s
    {
      var i :| 0 <= i < |s| && s[i] == p[k];
      assert p[k + 1] in Neighbours(g, s[i]);
      k := k + 1;
    }
  }

  /** One more edge extends a reachable node to its neighbours. */
  lemma ReachableStep<T(!new)>(g: map<T, seq<T>>, from: T, mid: T, to: T)
    requires Reachable(g, from, mid) && to in Neighbours(g, mid)
    ensures Reachable(g, from, to)
  {
    var p :| IsPath(g, p) && p[0] == from && p[|p| - 1] == mid;
    var q := p + [to];
    assert IsPath(g, q) && q[0] == from && q[|q| - 1] == to;
  }

  /** In a discovery order that starts at `from`, every element is reachable from it. */
  lemma {:induction false} DiscoveredAreReachable<T(!new)>(g: map<T, seq<T>>, s: seq<T>, from: T, i: nat)
    requires |s| > 0 && s[0] == from && Discovered(g, s)
    requires i < |s|
    ensures Reachable(g, from, s[i])
    decreases i
  {
    if i == 0 {
      assert IsPath(g, [from]);
    } else {
      assert EnteredBefore(g, s, s[i], i, 0);
      var j, m :| EdgeAt(g, s, j, m, s[i]) && Before(j, m, i, 0);
      DiscoveredAreReachable(g, s, from, j);
      ReachableStep(g, from, s[j], s[i]);
    }
  }

  /**
   * Every edge `(j, m)` that comes before `(c, k)` (the edges the traversal
   * has scanned) leads into `visited`.
   */
  ghost predicate Scanned<T>(g: map<T, seq<T>>, s: seq<T>, visited: set<T>, c: int, k: int) {
    forall j, m :: 0 <= j < |s| && 0 <= m < |Neighbours(g, s[j])| && Before(j, m, c, k) ==>
      Neighbours(g, s[j])[m] in visited
  }

  /**
   * The state the traversal keeps while it scans edge `(c, k)`: the
   * discovery order `s` (emitted nodes followed by the queue) starts at
   * `start`, repeats nothing, is exactly the visited set, discovers each
   * later node from an earlier one, is in breadth-first order, and every
   * node in it was entered by an edge already scanned, each of which leads
   * into the visited set.
   */
  ghost predicate Explored<T(!new)>(g: map<T, seq<T>>, start: T, s: seq<T>, visited: set<T>, c: int, k: int) {
    && |s| > 0 && s[0] == start
    && Distinct(s)
    && (forall x :: x in visited <==> x in s)
    && Discovered(g, s)
    && LevelOrder(g, s)
    && ReachedBefore(g, s, c, k)
    && Scanned(g, s, visited, c, k)
  }

  /** An edge out of a prefix of `s` is an edge out of `s`. */
  lemma EdgeAtExtend<T>(g: map<T, seq<T>>, s: seq<T>, n: T, j: int, k: int, y: T)
    requires EdgeAt(g, s, j, k, y)
    ensures EdgeAt(g, s + [n], j, k, y)
  {
    assert (s + [n])[j] == s[j];
  }

  /** An edge out of `s` is still there once `s` is extended, and comes before any later bound. */
  lemma EnteredBeforeExtend<T>(g: map<T, seq<T>>, s: seq<T>, n: T, y: T, c: int, k: int, c': int, k': int)
    requires EnteredBefore(g, s, y, c, k)
    requires c < c' || (c == c' && k <= k')
    ensures EnteredBefore(g, s + [n], y, c', k')
  {
    var j, m :| EdgeAt(g, s, j, m, y) && Before(j, m, c, k);
    EdgeAtExtend(g, s, n, j, m, y);
  }

  /** Appending the target of an edge out of `s` keeps every element discovered. */
  lemma DiscoveredGrows<T>(g: map<T, seq<T>>, s: seq<T>, c: int, k: int, n: T)
    requires Discovered(g, s) && EdgeAt(g, s, c, k, n)
    ensures Discovered(g, s + [n])
  {
    var e := s + [n];
    forall i | 0 < i < |e|
      ensures EnteredBefore(g, e, e[i], i, 0)
    {
      if i == |s| {
        EdgeAtExtend(g, s, n, c, k, n);
        assert EdgeAt(g, e, c, k, e[i]) && Before(c, k, i, 0);
      } else {
        assert e[i] == s[i];
        EnteredBeforeExtend(g, s, n, s[i], i, 0, i, 0);
      }
    }
  }

  /**
   * Appending `n`, entered by no edge before `(c, k)`, keeps the sequence in
   * breadth-first order.
   */
  lemma LevelOrderGrows<T>(g: map<T, seq<T>>, s: seq<T>, c: int, k: int, n: T)
    requires LevelOrder(g, s) && ReachedBefore(g, s, c, k)
    requires c < |s| && !EnteredBefore(g, s, n, c, k)
    ensures LevelOrder(g, s + [n])
  {
    var s' := s + [n];
    forall i, i', j', k' | 0 < i < i' < |s'| && EdgeAt(g, s', j', k', s'[i'])
      ensures EnteredBefore(g, s', s'[i], j', k')
    {
      assert s'[i] == s[i];
      assert EnteredBefore(g, s, s[i], c, k);
      if i' < |s| && j' < |s| {
        assert s'[j'] == s[j'] && s'[i'] == s[i'];
        assert EdgeAt(g, s, j', k', s[i']);
        EnteredBeforeExtend(g, s, n, s[i], j', k', j', k');
      } else if j' < |s| {
        assert s'[j'] == s[j'] && s'[i'] == n;
        assert EdgeAt(g, s, j', k', n);
        assert !Before(j', k', c, k);
        EnteredBeforeExtend(g, s, n, s[i], c, k, j', k');
      } else {
        EnteredBeforeExtend(g, s, n, s[i], c, k, j', k');
      }
    }
  }

  /** After appending the target of edge `(c, k)`, every element is entered before `(c, k + 1)`. */
  lemma ReachedBeforeGrows<T>(g: map<T, seq<T>>, s: seq<T>, c: int, k: int, n: T)
    requires ReachedBefore(g, s, c, k)
    requires EdgeAt(g, s, c, k, n)
    ensures ReachedBefore(g, s + [n], c, k + 1)
  {
    var s' := s + [n];
    forall i | 0 < i < |s'|
      ensures EnteredBefore(g, s', s'[i], c, k + 1)
    {
      if i < |s| {
        assert s'[i] == s[i];
        EnteredBeforeExtend(g, s, n, s[i], c, k, c, k + 1);
      } else {
        EdgeAtExtend(g, s, n, c, k, n);
        assert s'[i] == n;
        assert EdgeAt(g, s', c, k, s'[i]) && Before(c, k, c, k + 1);
      }
    }
  }

  /** Moving the bound `(c, k)` later keeps every element entered before it. */
  lemma ReachedBeforeWeaken<T>(g: map<T, seq<T>>, s: seq<T>, c: int, k: int, c': int, k': int)
    requires ReachedBefore(g, s, c, k)
    requires c < c' || (c == c' && k <= k')
    ensures ReachedBefore(g, s, c', k')
  {
    forall i | 0 < i < |s|
      ensures EnteredBefore(g, s, s[i], c', k')
    {
      assert EnteredBefore(g, s, s[i], c, k);
      var j, m :| EdgeAt(g, s, j, m, s[i]) && Before(j, m, c, k);
    }
  }

  /** A node outside `visited` is entered by no edge the traversal has scanned. */
  lemma NotYetEntered<T>(g: map<T, seq<T>>, s: seq<T>, visited: set<T>, c: int, k: int, n: T)
    requires Scanned(g, s, visited, c, k) && n !in visited
    ensures !EnteredBefore(g, s, n, c, k)
  {
  }

  /** After appending the target `n` of edge `(c, k)`, the scanned edges now include `(c, k)`. */
  lemma ScannedGrows<T>(g: map<T, seq<T>>, s: seq<T>, visited: set<T>, c: int, k: int, n: T)
    requires Scanned(g, s, visited, c, k) && EdgeAt(g, s, c, k, n)
    ensures Scanned(g, s + [n], visited + {n}, c, k + 1)
  {
    var s' := s + [n];
    forall j, m | 0 <= j < |s'| && 0 <= m < |Neighbours(g, s'[j])| && Before(j, m, c, k + 1)
      ensures Neighbours(g, s'[j])[m] in visited + {n}
    {
      assert s'[j] == s[j];
    }
  }

  /** Appending a new node keeps the sequence free of repetitions and equal to the visited set. */
  lemma DistinctGrows<T>(s: seq<T>, visited: set<T>, n: T)
    requires Distinct(s) && (forall x :: x in visited <==> x in s) && n !in visited
    ensures Distinct(s + [n]) && (forall x :: x in visited + {n} <==> x in s + [n])
  {
  }

  /** Scanning edge `(c, k)` into a node not yet visited: mark it and append it to the queue. */
  lemma ScanNew<T(!new)>(g: map<T, seq<T>>, start: T, s: seq<T>, visited: set<T>, c: int, k: int, n: T)
    requires Explored(g, start, s, visited, c, k)
    requires EdgeAt(g, s, c, k, n) && n !in visited
    ensures Explored(g, start, s + [n], visited + {n}, c, k + 1)
  {
    NotYetEntered(g, s, visited, c, k, n);
    DiscoveredGrows(g, s, c, k, n);
    LevelOrderGrows(g, s, c, k, n);
    ReachedBeforeGrows(g, s, c, k, n);
    ScannedGrows(g, s, visited, c, k, n);
    DistinctGrows(s, visited, n);
    assert (s + [n])[0] == start;
  }

  /** Scanning edge `(c, k)` into a node already visited changes nothing but the position. */
  lemma ScanOld<T(!new)>(g: map<T, seq<T>>, start: T, s: seq<T>, visited: set<T>, c: int, k: int, n: T)
    requires Explored(g, start, s, visited, c, k)
    requires EdgeAt(g, s, c, k, n) && n in visited
    ensures Explored(g, start, s, visited, c, k + 1)
  {
    ReachedBeforeWeaken(g, s, c, k, c, k + 1);
    forall j, m | 0 <= j < |s| && 0 <= m < |Neighbours(g, s[j])| && Before(j, m, c, k + 1)
      ensures Neighbours(g, s[j])[m] in visited
    {
      if !Before(j, m, c, k) {
        assert j == c && m == k;
      }
    }
  }

  /** Once every edge out of element `c` is scanned, the scan moves on to element `c + 1`. */
  lemma ScanDone<T(!new)>(g: map<T, seq<T>>, start: T, s: seq<T>, visited: set<T>, c: int)
    requires 0 <= c < |s|
    requires Explored(g, start, s, visited, c, |Neighbours(g, s[c])|)
    ensures Explored(g, start, s, visited, c + 1, 0)
  {
    ReachedBeforeWeaken(g, s, c, |Neighbours(g, s[c])|, c + 1, 0);
  }

  /** Appending to the queue is appending to the emitted-plus-queue sequence. */
  lemma AppendAssoc<T>(r: seq<T>, queue: seq<T>, n: T)
    ensures r + queue + [n] == r + (queue + [n])
  {
  }

  /**
   * ScanNew for a state split into the emitted nodes `r`, whose last element
   * is being scanned, and the queue: the new node joins the end of the queue.
   */
  lemma Enqueue<T(!new)>(g: map<T, seq<T>>, start: T, r: seq<T>, queue: seq<T>, visited: set<T>, k: int, n: T)
    requires |r| > 0 && Explored(g, start, r + queue, visited, |r| - 1, k)
    requires 0 <= k < |Neighbours(g, r[|r| - 1])| && Neighbours(g, r[|r| - 1])[k] == n && n !in visited
    ensures Explored(g, start, r + (queue + [n]), visited + {n}, |r| - 1, k + 1)
  {
    AppendAssoc(r, queue, n);
    assert (r + queue)[|r| - 1] == r[|r| - 1];
    ScanNew(g, start, r + queue, visited, |r| - 1, k, n);
  }

  /** ScanOld for a state split into the emitted nodes and the queue. */
  lemma Skip<T(!new)>(g: map<T, seq<T>>, start: T, r: seq<T>, queue: seq<T>, visited: set<T>, k: int, n: T)
    requires |r| > 0 && Explored(g, start, r + queue, visited, |r| - 1, k)
    requires 0 <= k < |Neighbours(g, r[|r| - 1])| && Neighbours(g, r[|r| - 1])[k] == n && n in visited
    ensures Explored(g, start, r + queue, visited, |r| - 1, k + 1)
  {
    assert (r + queue)[|r| - 1] == r[|r| - 1];
    ScanOld(g, start, r + queue, visited, |r| - 1, k, n);
  }

  /** ScanDone for a state split into the emitted nodes and the queue. */
  lemma NextNode<T(!new)>(g: map<T, seq<T>>, start: T, r: seq<T>, queue: seq<T>, visited: set<T>)
    requires |r| > 0 && Explored(g, start, r + queue, visited, |r| - 1, |Neighbours(g, r[|r| - 1])|)
    ensures Explored(g, start, r + queue, visited, |r|, 0)
  {
    assert (r + queue)[|r| - 1] == r[|r| - 1];
    ScanDone(g, start, r + queue, visited, |r| - 1);
  }

  /**
   * The inner `for neighbor in graph.get(current_node, [])` loop: each
   * neighbour not yet visited is marked and enqueued, in adjacency order.
   * `current` is the node just emitted at the end of `r`; the nodes emitted
   * before it have had their neighbours scanned already.
   */
  method VisitNeighbours<T(==,!new)>(g: map<T, seq<T>>, current: T, ghost start: T, ghost r: seq<T>,
                                     queue: seq<T>, visited: set<T>)
    returns (queue': seq<T>, visited': set<T>)
    requires |r| > 0 && r[|r| - 1] == current
    requires Explored(g, start, r + queue, visited, |r| - 1, 0)
    ensures Explored(g, start, r + queue', visited', |r|, 0)
    ensures visited <= visited'
  {
    var adj := Neighbours(g, current);
    queue', visited' := queue, visited;
    var k := 0;
    while k < |adj|
      invariant 0 <= k <= |adj|
      invariant Explored(g, start, r + queue', visited', |r| - 1, k)
      invariant visited <= visited'
    {
      var n := adj[k];
      if n !in visited' {
        Enqueue(g, start, r, queue', visited', k, n);
        visited' := visited' + {n};
        queue' := queue' + [n];
      } else {
        Skip(g, start, r, queue', visited', k, n);
      }
      k := k + 1;
    }
    NextNode(g, start, r, queue', visited');
  }

  /**
   * Every node of a traversal from a key of the graph is the start node or
   * occurs in some adjacency list, so it is mentioned by the graph.
   */
  lemma VisitedInGraph<T(!new)>(g: map<T, seq<T>>, start: T, s: seq<T>, visited: set<T>, c: int, k: int)
    requires start in g && Explored(g, start, s, visited, c, k)
    ensures forall x :: x in visited ==> x == start || exists y :: y in g && x in g[y]
    ensures visited <= Nodes(g)
  {
    forall x | x in visited ensures (x == start || exists y :: y in g && x in g[y]) && x in Nodes(g) {
      var i :| 0 <= i < |s| && s[i] == x;
      if i > 0 {
        assert EnteredBefore(g, s, s[i], i, 0);
        var j, m :| EdgeAt(g, s, j, m, s[i]) && Before(j, m, i, 0);
        assert s[j] in g && x in g[s[j]];
      }
    }
  }

  /**
   * With the queue empty, the emitted order is closed under the edges and
   * holds exactly the nodes reachable from `start`.
   */
  lemma BfsResult<T(!new)>(g: map<T, seq<T>>, start: T, r: seq<T>, visited: set<T>)
    requires Explored(g, start, r, visited, |r|, 0)
    ensures Closed(g, r)
    ensures forall n :: n in r <==> Reachable(g, start, n)
  {
    forall i, y | 0 <= i < |r| && y in Neighbours(g, r[i])
      ensures y in r
    {
      var m :| 0 <= m < |Neighbours(g, r[i])| && Neighbours(g, r[i])[m] == y;
      assert Before(i, m, |r|, 0);
    }
    forall n | n in r
      ensures Reachable(g, start, n)
    {
      var i :| 0 <= i < |r| && r[i] == n;
      DiscoveredAreReachable(g, r, start, i);
    }
    forall n | Reachable(g, start, n)
      ensures n in r
    {
      ClosedHoldsReachable(g, r, start, n);
    }
  }

  /** Visiting a node not visited before leaves fewer nodes of the graph unvisited. */
  lemma Shrinks<T>(all: set<T>, visited: set<T>, visited': set<T>)
    requires visited <= visited' <= all && visited' != visited
    ensures all - visited' < all - visited
  {
    var x :| x in visited' && x !in visited;
    assert x in all - visited;
  }

  /**
   * One iteration of the `while queue` loop: dequeue the front node, emit
   * it, and scan its neighbours. Every node visited is mentioned by the
   * graph, and the step either visits a new node or shortens the queue.
   */
  method Dequeue<T(==,!new)>(g: map<T, seq<T>>, ghost start: T, r: seq<T>, queue: seq<T>, visited: set<T>)
    returns (r': seq<T>, queue': seq<T>, visited': set<T>)
    requires |queue| > 0 && start in g && visited <= Nodes(g)
    requires Explored(g, start, r + queue, visited, |r|, 0)
    ensures Explored(g, start, r' + queue', visited', |r'|, 0)
    ensures visited <= visited' <= Nodes(g)
    ensures Nodes(g) - visited' < Nodes(g) - visited || (visited' == visited && |queue'| < |queue|)
  {
    var current := queue[0];
    r', queue' := r + [current], queue[1..];
    assert r' + queue' == r + queue;
    queue', visited' := VisitNeighbours(g, current, start, r', queue', visited);
    VisitedInGraph(g, start, r' + queue', visited', |r'|, 0);
    if visited' != visited {
      Shrinks(Nodes(g), visited, visited');
    } else {
      SameLength(r' + queue', r + queue);
    }
  }

  /** When the queue runs empty the emitted nodes are the breadth-first order from `start`. */
  lemma Finished<T(!new)>(g: map<T, seq<T>>, start: T, r: seq<T>, queue: seq<T>, visited: set<T>)
    requires start in g && |queue| == 0
    requires Explored(g, start, r + queue, visited, |r|, 0)
    ensures IsBfsOrder(g, start, r)
  {
    assert r + queue == r;
    BfsResult(g, start, r, visited);
  }

  /**
   * `bfs`: an absent start node yields the empty traversal. Otherwise nodes
   * are dequeued in FIFO order and emitted; each neighbour, in adjacency
   * order, is marked visited and enqueued the first time it is seen. The
   * output is the breadth-first order of IsBfsOrder: it starts at `start`,
   * repeats nothing, emits every other node after a node it is adjacent
   * from, orders nodes by their first entering edge, and holds exactly the
   * nodes reachable from `start`.
   */
  method Bfs<T(==,!new)>(g: map<T, seq<T>>, start: T) returns (r: seq<T>)
    ensures IsBfsOrder(g, start, r)
  {
    if start !in g {
      return [];
    }
    var visited := {start};
    var queue := [start];
    r := [];
    assert r + queue == [start];
    while |queue| > 0
      invariant visited <= Nodes(g)
      invariant Explored(g, start, r + queue, visited, |r|, 0)
      decreases Nodes(g) - visited, |queue|
    {
      r, queue, visited := Dequeue(g, start, r, queue, visited);
    }
    Finished(g, start, r, queue, visited);
  }

  // ---------------------------------------------------------------- uniqueness of the order

  /**
   * What a traversal from `start` must be: empty when `start` is not a key;
   * otherwise it starts at `start`, repeats nothing, discovers each later
   * node from an earlier one, is in breadth-first order with adjacency-list
   * tie-breaking, and holds exactly the nodes reachable from `start`.
   */
  ghost predicate IsBfsOrder<T(!new)>(g: map<T, seq<T>>, start: T, s: seq<T>) {
    && (start !in g ==> s == [])
    && (start in g ==>
          && |s| > 0 && s[0] == start
          && Distinct(s)
          && Discovered(g, s)
          && LevelOrder(g, s)
          && (forall n :: n in s <==> Reachable(g, start, n)))
  }

  /** The position of the first occurrence of `y` in `xs`. */
  ghost function FirstIndex<T>(xs: seq<T>, y: T): (i: nat)
    requires y in xs
    ensures i < |xs| && xs[i] == y
    ensures forall k :: 0 <= k < i ==> xs[k] != y
  {
    if xs[0] == y then 0 else 1 + FirstIndex(xs[1..], y)
  }

  /** The lexicographically first edge out of `s[j..bound]` that leads to `y`. */
  ghost function FirstEdge<T>(g: map<T, seq<T>>, s: seq<T>, y: T, j: nat, bound: nat): (e: (int, int))
    requires j <= bound <= |s|
    requires exists j', k' :: j <= j' < bound && EdgeAt(g, s, j', k', y)
    ensures j <= e.0 < bound && EdgeAt(g, s, e.0, e.1, y)
    ensures forall j', k' :: j <= j' < bound && EdgeAt(g, s, j', k', y) ==> !Before(j', k', e.0, e.1)
    decreases bound - j
  {
    if y in Neighbours(g, s[j]) then
      (j, FirstIndex(Neighbours(g, s[j]), y))
    else
      assert forall j', k' :: EdgeAt(g, s, j', k', y) ==> j' != j;
      FirstEdge(g, s, y, j + 1, bound)
  }

  /**
   * Two breadth-first orders that agree before position `m`: the first edge
   * entering `a[m]` comes no later than any edge from the common prefix
   * entering `b[m]`.
   */
  lemma FirstEdgeNoLater<T>(g: map<T, seq<T>>, a: seq<T>, b: seq<T>, m: int,
                            p: int, k: int, q: int, l: int)
    requires LevelOrder(g, a) && Distinct(b)
    requires 0 < m < |a| && m < |b| && a[..m] == b[..m] && b[m] in a
    requires p < m && EdgeAt(g, a, p, k, a[m])
    requires forall j, k' :: 0 <= j < m && EdgeAt(g, a, j, k', a[m]) ==> !Before(j, k', p, k)
    requires 0 <= q < m && EdgeAt(g, b, q, l, b[m])
    ensures !Before(q, l, p, k)
  {
    assert a[q] == a[..m][q] == b[..m][q] == b[q];
    assert EdgeAt(g, a, q, l, b[m]);
    if a[m] != b[m] {
      var my :| 0 <= my < |a| && a[my] == b[m];
      assert forall i :: 0 <= i < m ==> a[i] == a[..m][i] == b[..m][i] == b[i];
      assert my > m;
      assert EnteredBefore(g, a, a[m], q, l);
      var j2, k2 :| EdgeAt(g, a, j2, k2, a[m]) && Before(j2, k2, q, l);
    }
  }

  /** The first edge from `s[..m]` into `s[m]`, which a discovered order always has. */
  lemma FirstEntry<T>(g: map<T, seq<T>>, s: seq<T>, m: int) returns (p: int, k: int)
    requires Discovered(g, s) && 0 < m < |s|
    ensures 0 <= p < m && EdgeAt(g, s, p, k, s[m])
    ensures forall j, k' :: 0 <= j < m && EdgeAt(g, s, j, k', s[m]) ==> !Before(j, k', p, k)
  {
    assert EnteredBefore(g, s, s[m], m, 0);
    var e := FirstEdge(g, s, s[m], 0, m);
    p, k := e.0, e.1;
  }

  /** Two breadth-first orders with the same nodes that agree before position `m` agree at `m`. */
  lemma BfsOrderStep<T>(g: map<T, seq<T>>, start: T, a: seq<T>, b: seq<T>, m: int)
    requires |a| > 0 && a[0] == start && Distinct(a) && Discovered(g, a) && LevelOrder(g, a)
    requires |b| > 0 && b[0] == start && Distinct(b) && Discovered(g, b) && LevelOrder(g, b)
    requires forall n :: n in a <==> n in b
    requires 0 <= m < |a| && m < |b| && a[..m] == b[..m]
    ensures a[m] == b[m]
  {
    if m > 0 {
      var p, k := FirstEntry(g, a, m);
      var q, l := FirstEntry(g, b, m);
      assert a[m] in b && b[m] in a;
      FirstEdgeNoLater(g, a, b, m, p, k, q, l);
      FirstEdgeNoLater(g, b, a, m, q, l, p, k);
      assert p == q && k == l;
      assert a[p] == a[..m][p] == b[..m][p] == b[p];
    }
  }

  /** A sequence without repetitions has as many elements as its set. */
  lemma {:induction false} DistinctSize<T>(s: seq<T>)
    requires Distinct(s)
    ensures |set x | x in s| == |s|
  {
    if |s| > 0 {
      DistinctSize(s[1..]);
      assert (set x | x in s) == {s[0]} + (set x | x in s[1..]);
      assert s[0] !in s[1..];
    }
  }

  /** Two sequences without repetitions over the same elements have the same length. */
  lemma SameLength<T>(a: seq<T>, b: seq<T>)
    requires Distinct(a) && Distinct(b)
    requires forall n :: n in a <==> n in b
    ensures |a| == |b|
  {
    DistinctSize(a);
    DistinctSize(b);
    assert (set x | x in a) == (set x | x in b);
  }

  /** Extending agreeing prefixes by an agreeing element. */
  lemma PrefixGrows<T>(a: seq<T>, b: seq<T>, m: int)
    requires 0 <= m < |a| && m < |b| && a[..m] == b[..m] && a[m] == b[m]
    ensures a[..m + 1] == b[..m + 1]
  {
    assert a[..m + 1] == a[..m] + [a[m]];
    assert b[..m + 1] == b[..m] + [b[m]];
  }

  /** Two breadth-first orders over the same nodes agree on every prefix. */
  lemma SameOrders<T>(g: map<T, seq<T>>, start: T, a: seq<T>, b: seq<T>)
    requires |a| > 0 && a[0] == start && Distinct(a) && Discovered(g, a) && LevelOrder(g, a)
    requires |b| > 0 && b[0] == start && Distinct(b) && Discovered(g, b) && LevelOrder(g, b)
    requires forall n :: n in a <==> n in b
    ensures a == b
  {
    SameLength(a, b);
    var m := 0;
    while m < |a|
      invariant 0 <= m <= |a| == |b|
      invariant a[..m] == b[..m]
    {
      BfsOrderStep(g, start, a, b, m);
      PrefixGrows(a, b, m);
      m := m + 1;
    }
    assert a == a[..m] && b == b[..m];
  }

  /** The breadth-first order is unique: two traversals meeting IsBfsOrder are equal. */
  lemma BfsOrderUnique<T(!new)>(g: map<T, seq<T>>, start: T, a: seq<T>, b: seq<T>)
    requires IsBfsOrder(g, start, a) && IsBfsOrder(g, start, b)
    ensures a == b
  {
    if start in g {
      assert forall n :: n in a <==> n in b;
      SameOrders(g, start, a, b);
    }
  }
}
