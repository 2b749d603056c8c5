/**
 Breadth-first search over adjacency lists with a bounded queue that is not circular: its
 slots are used once, until the queue runs empty and starts again from the first.
 */
module Bfs {
  import FiniteSets

  const SIZE: nat := 100

  datatype List = Nil | Cons(vertex: nat, next: List)

  predicate Has(l: List, v: nat) {
    match l
    case Nil => false
    case Cons(w, next) => w == v || Has(next, v)
  }

  type Adjacency = seq<List>

  predicate Edge(A: Adjacency, u: nat, v: nat) {
    u < |A| && Has(A[u], v)
  }

  ghost predicate InRange(A: Adjacency) {
    forall u: nat, v: nat :: Edge(A, u, v) ==> v < |A|
  }

  // ----- what a distance is

  ghost predicate Walk(A: Adjacency, p: seq<nat>, a: nat, b: nat) {
    && p != [] && p[0] == a && p[|p| - 1] == b
    && forall k :: 0 <= k < |p| - 1 ==> Edge(A, p[k], p[k + 1])
  }

  ghost predicate Reachable(A: Adjacency, a: nat, b: nat) {
    exists p :: Walk(A, p, a, b)
  }

  /** `d` is the least number of edges on a walk from `a` to `b`. */
  ghost predicate IsDistance(A: Adjacency, a: nat, b: nat, d: nat) {
    && (exists p :: Walk(A, p, a, b) && |p| == d + 1)
    && (forall p :: Walk(A, p, a, b) ==> d + 1 <= |p|)
  }

  // ----- the state of a search

  /** The level of every vertex discovered so far. */
  type Levels = map<nat, nat>

  ghost predicate Marks(visited: seq<int>, d: Levels) {
    && (forall v :: v in d ==> v < |visited|)
    && (forall v :: 0 <= v < |visited| ==> (visited[v] != 0 <==> v in d))
  }

  // The pairwise facts below are stated through named predicates, so that they are used only
  // for the pairs a proof asks for.

  predicate Differ(s: seq<nat>, i: int, j: int)
    requires 0 <= i < j < |s|
  {
    s[i] != s[j]
  }

  ghost predicate Distinct(s: seq<nat>) {
    forall i, j {:trigger Differ(s, i, j)} :: 0 <= i < j < |s| ==> Differ(s, i, j)
  }

  predicate NotAfter(s: seq<nat>, d: Levels, i: int, j: int) {
    0 <= i <= j < |s| && s[i] in d && s[j] in d && d[s[i]] <= d[s[j]]
  }

  ghost predicate ByLevel(s: seq<nat>, d: Levels) {
    forall i, j {:trigger NotAfter(s, d, i, j)} :: 0 <= i <= j < |s| ==> NotAfter(s, d, i, j)
  }

  predicate Listed(s: seq<nat>, v: nat) {
    v in s
  }

  /** `line` lists the discovered vertices once each, by level. */
  ghost predicate Lists(line: seq<nat>, d: Levels) {
    && Distinct(line)
    && (forall i :: 0 <= i < |line| ==> line[i] in d)
    && (forall v {:trigger Listed(line, v)} :: v in d ==> Listed(line, v))
    && ByLevel(line, d)
  }

  /** Every discovered vertex but the start was found from one a level below. */
  ghost predicate Grown(A: Adjacency, start: nat, d: Levels) {
    && start in d && d[start] == 0
    && forall v {:trigger HasParent(A, d, v)} :: v in d && v != start ==> HasParent(A, d, v)
  }

  ghost predicate HasParent(A: Adjacency, d: Levels, v: nat) {
    v in d && exists u :: u in d && Edge(A, u, v) && d[v] == d[u] + 1
  }

  ghost predicate Expanded(A: Adjacency, d: Levels, u: nat) {
    u in d && forall v :: Edge(A, u, v) ==> v in d && d[v] <= d[u] + 1
  }

  /** A queue that holds one level followed by the next. */
  ghost predicate TwoLevels(q: seq<nat>, d: Levels) {
    && ByLevel(q, d)
    && (q != [] ==> q[0] in d && q[|q| - 1] in d && d[q[|q| - 1]] <= d[q[0]] + 1)
  }

  /** `line` is every vertex ever enqueued; the first `h` have been dequeued, the rest are in
      the queue, and nothing is more than one level ahead of the last one dequeued. */
  ghost predicate Searching(A: Adjacency, start: nat, line: seq<nat>, h: nat, d: Levels) {
    && h <= |line|
    && Lists(line, d)
    && Grown(A, start, d)
    && (if h == 0 then line == [start]
        else forall i :: h <= i < |line| ==> d[line[i]] <= d[line[h - 1]] + 1)
  }

  // ----- why the levels are distances

  lemma {:induction false} GrownGivesWalk(A: Adjacency, start: nat, d: Levels, v: nat) returns (p: seq<nat>)
    requires Grown(A, start, d) && v in d
    ensures Walk(A, p, start, v) && |p| == d[v] + 1
    decreases d[v]
  {
    if v == start {
      p := [start];
    } else {
      assert HasParent(A, d, v);
      var u :| u in d && Edge(A, u, v) && d[v] == d[u] + 1;
      var front := GrownGivesWalk(A, start, d, u);
      p := front + [v];
    }
  }

  lemma {:induction false} ExpandedBoundsWalks(A: Adjacency, start: nat, d: Levels, p: seq<nat>, b: nat)
    requires Grown(A, start, d) && forall u :: u in d ==> Expanded(A, d, u)
    requires Walk(A, p, start, b)
    ensures b in d && d[b] + 1 <= |p|
    decreases |p|
  {
    if |p| > 1 {
      var front := p[..|p| - 1];
      var u := front[|front| - 1];
      assert Walk(A, front, start, u);
      ExpandedBoundsWalks(A, start, d, front, u);
      assert Expanded(A, d, u) && Edge(A, p[|p| - 2], p[|p| - 1]);
    }
  }

  lemma LevelsAreDistances(A: Adjacency, start: nat, d: Levels)
    requires Grown(A, start, d) && forall u :: u in d ==> Expanded(A, d, u)
    ensures forall v :: v in d ==> IsDistance(A, start, v, d[v])
    ensures forall v :: v in d <==> Reachable(A, start, v)
  {
    forall v | v in d ensures IsDistance(A, start, v, d[v]) && Reachable(A, start, v) {
      var p := GrownGivesWalk(A, start, d, v);
      forall p' | Walk(A, p', start, v) ensures d[v] + 1 <= |p'| {
        ExpandedBoundsWalks(A, start, d, p', v);
      }
    }
    forall v | Reachable(A, start, v) ensures v in d {
      var p :| Walk(A, p, start, v);
      ExpandedBoundsWalks(A, start, d, p, v);
    }
  }

  // ----- when the queue fills

  /** The vertices of a list that are not yet known, each once, in the order of the list. */
  function News(l: List, known: seq<nat>): seq<nat> {
    match l
    case Nil => []
    case Cons(v, next) => if v in known then News(next, known) else [v] + News(next, known + [v])
  }

  /** Where a vertex first stands in a list. */
  function First(l: List, v: nat): nat
    requires Has(l, v)
  {
    if l.vertex == v then 0 else 1 + First(l.next, v)
  }

  /** `news` are exactly the vertices of the list that are not known, in the order in which they
      first stand there. */
  ghost predicate InListOrder(l: List, known: seq<nat>, news: seq<nat>) {
    && (forall v :: v in news <==> Has(l, v) && v !in known)
    && forall i, j :: 0 <= i < j < |news| ==> First(l, news[i]) < First(l, news[j])
  }

  lemma {:induction false} NewsInOrder(l: List, known: seq<nat>)
    ensures InListOrder(l, known, News(l, known))
  {
    if l.Cons? {
      var v, next := l.vertex, l.next;
      if v in known {
        NewsInOrder(next, known);
        var news := News(next, known);
        forall i, j | 0 <= i < j < |news| ensures First(l, news[i]) < First(l, news[j]) {
          assert news[i] in news && news[j] in news;
        }
      } else {
        NewsInOrder(next, known + [v]);
        NewFirst(l, known, News(next, known + [v]));
      }
    }
  }

  lemma NewFirst(l: List, known: seq<nat>, news: seq<nat>)
    requires l.Cons? && l.vertex !in known && InListOrder(l.next, known + [l.vertex], news)
    ensures InListOrder(l, known, [l.vertex] + news)
  {
    var all := [l.vertex] + news;
    forall v ensures v in all <==> Has(l, v) && v !in known {
      assert v in all <==> v == l.vertex || v in news;
    }
    forall i, j | 0 <= i < j < |all| ensures Has(l, all[i]) && Has(l, all[j]) && First(l, all[i]) < First(l, all[j]) {
      assert all[i] in all && all[j] in news;
      if i > 0 {
        assert all[i] in news && First(l.next, news[i - 1]) < First(l.next, news[j - 1]);
      }
    }
  }

  /** All vertices discovered, in order, when the first `h` of them have been expanded. */
  function LineAfter(A: Adjacency, start: nat, h: nat): seq<nat> {
    if h == 0 then [start]
    else
      var line := LineAfter(A, start, h - 1);
      if h <= |line| && line[h - 1] < |A| then line + News(A[line[h - 1]], line) else line
  }

  /** How many of the first `h` vertices had been taken off when the queue last ran empty. */
  function Emptied(A: Adjacency, start: nat, h: nat): nat {
    if h == 0 then 0
    else if |LineAfter(A, start, h - 1)| == h then h
    else Emptied(A, start, h - 1)
  }

  /** Some expansion overfills the queue. */
  ghost predicate Fills(A: Adjacency, start: nat) {
    exists h: nat :: FillsAt(A, start, h)
  }

  /** Expanding the h-th vertex calls for more than SIZE slots since the queue last ran empty. */
  predicate FillsAt(A: Adjacency, start: nat, h: nat) {
    0 < h <= |LineAfter(A, start, h - 1)| && |LineAfter(A, start, h)| - Emptied(A, start, h) > SIZE
  }

  lemma {:induction false} LineEnds(A: Adjacency, start: nat, h: nat, i: nat)
    requires h <= i && |LineAfter(A, start, h)| <= h
    ensures LineAfter(A, start, i) == LineAfter(A, start, h) && (i > h ==> !FillsAt(A, start, i))
  {
    if i > h {
      LineEnds(A, start, h, i - 1);
    }
  }

  ghost predicate NeverFilled(A: Adjacency, start: nat, h: nat) {
    forall i: nat :: i <= h ==> !FillsAt(A, start, i)
  }

  /** With the first `h` vertices expanded, `rear` counts the slots since the queue last ran
      empty, and they have always sufficed. */
  ghost predicate Rested(A: Adjacency, start: nat, rear: int, line: seq<nat>, h: nat) {
    line == LineAfter(A, start, h) && rear == |line| - Emptied(A, start, h) - 1 && NeverFilled(A, start, h)
  }

  /** The same while the h-th vertex is expanded and `temp` is left of its list. */
  ghost predicate Scanned(A: Adjacency, start: nat, rear: int, line: seq<nat>, h: nat, temp: List) {
    && 0 < h <= |LineAfter(A, start, h - 1)| && NeverFilled(A, start, h - 1)
    && LineAfter(A, start, h) == line + News(temp, line) && rear == |line| - Emptied(A, start, h) - 1
  }

  lemma ExpansionBegins(A: Adjacency, start: nat, rear: int, rear': int, line: seq<nat>, h: nat)
    requires Rested(A, start, rear, line, h) && h < |line| && line[h] < |A|
    requires rear' == if |line| == h + 1 then -1 else rear
    ensures Scanned(A, start, rear', line, h + 1, A[line[h]])
  {
  }

  lemma KnownIsSkipped(A: Adjacency, start: nat, rear: int, line: seq<nat>, h: nat, temp: List)
    requires Scanned(A, start, rear, line, h, temp) && temp.Cons? && temp.vertex in line
    ensures Scanned(A, start, rear, line, h, temp.next)
  {
  }

  lemma NewIsNext(A: Adjacency, start: nat, rear: int, line: seq<nat>, h: nat, temp: List)
    requires Scanned(A, start, rear, line, h, temp) && temp.Cons? && temp.vertex !in line
    ensures Scanned(A, start, rear + 1, line + [temp.vertex], h, temp.next)
    ensures rear == SIZE - 1 ==> FillsAt(A, start, h)
  {
    var v, later := temp.vertex, News(temp.next, line + [temp.vertex]);
    assert line + ([v] + later) == (line + [v]) + later;
  }

  lemma ExpansionEnds(A: Adjacency, start: nat, rear: int, line: seq<nat>, h: nat)
    requires Scanned(A, start, rear, line, h, Nil) && rear < SIZE
    ensures Rested(A, start, rear, line, h)
  {
    assert line + [] == line;
  }

  lemma NeverFills(A: Adjacency, start: nat, rear: int, line: seq<nat>, h: nat, i: nat)
    requires Rested(A, start, rear, line, h) && |line| <= h
    ensures !FillsAt(A, start, i)
  {
    if i > h {
      LineEnds(A, start, h, i);
    }
  }

  /** The list of k, k-1, ..., 1, as it is after edges to 1, 2, ..., k have been added. */
  function Leaves(k: nat): List {
    if k == 0 then Nil else Cons(k, Leaves(k - 1))
  }

  lemma {:induction false} LeavesAreNew(k: nat, known: seq<nat>)
    requires forall v :: v in known ==> v == 0 || v > k
    ensures |News(Leaves(k), known)| == k
  {
    if k > 0 {
      LeavesAreNew(k - 1, known + [k]);
    }
  }

  lemma {:induction false} HasLeaf(k: nat, v: nat)
    ensures Has(Leaves(k), v) <==> 1 <= v <= k
  {
    if k > 0 {
      HasLeaf(k - 1, v);
    }
  }

  /** The vertex 0 joined to each of 1, ..., k. */
  function Star(k: nat): Adjacency {
    [Leaves(k)] + seq(k, _ => Cons(0, Nil))
  }

  /** A star with more than SIZE rays fills the queue when it is searched from its centre. */
  lemma StarFills(k: nat)
    requires k > SIZE
    ensures InRange(Star(k)) && |Star(k)| == k + 1 && FillsAt(Star(k), 0, 1) && Fills(Star(k), 0)
  {
    forall u: nat, v: nat | Edge(Star(k), u, v) ensures v < |Star(k)| {
      if u == 0 {
        HasLeaf(k, v);
      } else {
        assert Star(k)[u] == Cons(0, Nil) && !Has(Nil, v);
      }
    }
    LeavesAreNew(k, [0]);
    assert LineAfter(Star(k), 0, 0) == [0];
    assert LineAfter(Star(k), 0, 1) == [0] + News(Leaves(k), [0]);
    var h: nat :| h == 1;
    assert FillsAt(Star(k), 0, h);
  }

  // ----- the steps of a search

  lemma {:induction false} DistinctFits(s: seq<nat>, n: nat)
    requires Distinct(s) && forall v :: v in s ==> v < n
    ensures |s| <= n
  {
    var elems := set v | v in s;
    DistinctSize(s, elems);
    FiniteSets.AtMost(elems, n);
  }

  lemma {:induction false} DistinctSize(s: seq<nat>, elems: set<nat>)
    requires Distinct(s) && elems == set v | v in s
    ensures |elems| == |s|
  {
    if s != [] {
      var front, last := s[..|s| - 1], s[|s| - 1];
      forall i, j | 0 <= i < j < |front| ensures Differ(front, i, j) {
        assert Differ(s, i, j);
      }
      assert last !in front by {
        forall i | 0 <= i < |front| ensures front[i] != last {
          assert Differ(s, i, |s| - 1);
        }
      }
      assert elems == (set v | v in front) + {last};
      DistinctSize(front, set v | v in front);
    }
  }

  /** Taking the first vertex off the queue. */
  lemma DequeueKeeps(A: Adjacency, start: nat, line: seq<nat>, h: nat, d: Levels)
    requires Searching(A, start, line, h, d) && h < |line|
    ensures TwoLevels(line[h..], d)
    ensures Searching(A, start, line, h + 1, d)
  {
    var q := line[h..];
    forall i, j | 0 <= i <= j < |q| ensures NotAfter(q, d, i, j) {
      assert NotAfter(line, d, h + i, h + j);
    }
    if h > 0 {
      assert NotAfter(line, d, h - 1, h);
    }
  }

  lemma GrownStays(A: Adjacency, start: nat, d: Levels, u: nat, v: nat)
    requires Grown(A, start, d) && u in d && v !in d && Edge(A, u, v)
    ensures Grown(A, start, d[v := d[u] + 1])
  {
    var d' := d[v := d[u] + 1];
    forall w | w in d' && w != start ensures HasParent(A, d', w) {
      if w == v {
        assert u in d' && Edge(A, u, v) && d'[v] == d'[u] + 1;
      } else {
        assert HasParent(A, d, w);
        var x :| x in d && Edge(A, x, w) && d[w] == d[x] + 1;
        assert x in d' && Edge(A, x, w) && d'[w] == d'[x] + 1;
      }
    }
  }

  lemma ListsGrow(line: seq<nat>, d: Levels, v: nat, level: nat)
    requires Lists(line, d) && v !in d && forall i :: 0 <= i < |line| ==> d[line[i]] <= level
    ensures Lists(line + [v], d[v := level])
  {
    var line', d' := line + [v], d[v := level];
    forall i, j | 0 <= i < j < |line'| ensures Differ(line', i, j) {
      assert j < |line| ==> Differ(line, i, j);
    }
    forall i, j | 0 <= i <= j < |line'| ensures NotAfter(line', d', i, j) {
      assert j < |line| ==> NotAfter(line, d, i, j);
    }
    assert v == line'[|line|];
    forall w | w in d' ensures Listed(line', w) {
      if w != v {
        assert Listed(line, w);
      }
    }
  }

  /** Discovering a vertex from the last one dequeued. */
  lemma DiscoverKeeps(A: Adjacency, start: nat, line: seq<nat>, h: nat, d: Levels, v: nat)
    requires Searching(A, start, line, h, d) && 0 < h
    requires v !in d && Edge(A, line[h - 1], v)
    ensures Searching(A, start, line + [v], h, d[v := d[line[h - 1]] + 1])
  {
    var u := line[h - 1];
    GrownStays(A, start, d, u, v);
    forall i | 0 <= i < |line| ensures d[line[i]] <= d[u] + 1 {
      assert i < h ==> NotAfter(line, d, i, h - 1);
    }
    ListsGrow(line, d, v, d[u] + 1);
  }

  // ----- the queue

  class Queue {
    var items: array<nat>
    var front: int
    var rear: int

    ghost predicate Valid()
      reads this
    {
      items.Length == SIZE && ((front == -1 && rear == -1) || 0 <= front <= rear < SIZE)
    }

    ghost function Contents(): seq<nat>
      requires Valid()
      reads this, items
    {
      if rear == -1 then [] else items[front..rear + 1]
    }

    constructor ()
      ensures Valid() && fresh(items) && Contents() == [] && rear == -1
    {
      items := new nat[SIZE];
      front, rear := -1, -1;
    }

    method IsEmpty() returns (empty: bool)
      requires Valid()
      ensures empty <==> Contents() == []
    {
      empty := rear == -1;
    }

    /** A full queue drops the value; full means that the last slot has been used. */
    method Enqueue(value: nat) returns (full: bool)
      requires Valid()
      modifies this`front, this`rear, items
      ensures Valid() && full == (old(rear) == SIZE - 1)
      ensures Contents() == if full then old(Contents()) else old(Contents()) + [value]
      ensures rear == if full then old(rear) else old(rear) + 1
    {
      if rear == SIZE - 1 {
        full := true;
      } else {
        full := false;
        if front == -1 {
          front := 0;
        }
        rear := rear + 1;
        items[rear] := value;
      }
    }

    method Dequeue() returns (item: int)
      requires Valid()
      modifies this`front, this`rear
      ensures Valid()
      ensures old(Contents()) == [] ==> item == -1 && Contents() == []
      ensures old(Contents()) != [] ==> item == old(Contents())[0] && Contents() == old(Contents())[1..]
      ensures rear == if old(Contents()) != [] && Contents() != [] then old(rear) else -1
    {
      if rear == -1 {
        item := -1;
      } else {
        item := items[front];
        assert items[front..rear + 1][1..] == items[front + 1..rear + 1];
        front := front + 1;
        if front > rear {
          front, rear := -1, -1;
        }
      }
    }
  }

  // ----- the graph

  class Graph {
    const numVertices: nat
    const adjLists: array<List>
    const visited: array<int>

    ghost predicate Valid()
      reads this, adjLists
    {
      adjLists.Length == visited.Length == numVertices && InRange(adjLists[..])
    }

    constructor (vertices: nat)
      ensures Valid() && numVertices == vertices && fresh(adjLists) && fresh(visited)
      ensures forall u, v :: !Edge(adjLists[..], u, v)
      ensures forall i :: 0 <= i < vertices ==> visited[i] == 0
    {
      numVertices := vertices;
      var lists := new List[vertices];
      var marks := new int[vertices];
      for i := 0 to vertices
        invariant forall k :: 0 <= k < i ==> lists[k] == Nil && marks[k] == 0
      {
        lists[i] := Nil;
        marks[i] := 0;
      }
      adjLists, visited := lists, marks;
    }

    /** Joins the two vertices in both directions and changes no other edge. Each becomes the
        first in the other's list. */
    method AddEdge(src: nat, dest: nat)
      requires Valid() && src < numVertices && dest < numVertices
      modifies adjLists
      ensures Valid()
      ensures forall u, v :: Edge(adjLists[..], u, v) <==>
                old(Edge(adjLists[..], u, v)) || (u == src && v == dest) || (u == dest && v == src)
      ensures src != dest ==> adjLists[src] == Cons(dest, old(adjLists[src]))
      ensures src != dest ==> adjLists[dest] == Cons(src, old(adjLists[dest]))
      ensures src == dest ==> adjLists[src] == Cons(src, Cons(src, old(adjLists[src])))
      ensures forall u :: 0 <= u < numVertices && u != src && u != dest ==> adjLists[u] == old(adjLists[u])
    {
      ghost var A := adjLists[..];
      adjLists[src] := Cons(dest, adjLists[src]);
      ghost var B := adjLists[..];
      assert forall u, v :: Edge(B, u, v) <==> Edge(A, u, v) || (u == src && v == dest);
      adjLists[dest] := Cons(src, adjLists[dest]);
      assert forall u, v :: Edge(adjLists[..], u, v) <==> Edge(B, u, v) || (u == dest && v == src);
    }
  }

  // ----- the search

  /** All neighbours of `u` except those still in `rest` are discovered, at most one level on. */
  ghost predicate ExpandedBut(A: Adjacency, d: Levels, u: nat, rest: List) {
    && u in d
    && (forall v: nat :: Edge(A, u, v) && !Has(rest, v) ==> v in d && d[v] <= d[u] + 1)
    && (forall v: nat :: Has(rest, v) ==> Edge(A, u, v))
  }

  ghost predicate AllExpanded(A: Adjacency, d: Levels, line: seq<nat>, h: nat) {
    h <= |line| && forall i {:trigger Expanded(A, d, line[i])} :: 0 <= i < h ==> Expanded(A, d, line[i])
  }

  lemma ExpandedStays(A: Adjacency, d: Levels, line: seq<nat>, h: nat, v: nat, level: nat)
    requires AllExpanded(A, d, line, h) && v !in d
    ensures AllExpanded(A, d[v := level], line + [v], h)
  {
    var d' := d[v := level];
    forall i | 0 <= i < h ensures Expanded(A, d', (line + [v])[i]) {
      assert Expanded(A, d, line[i]);
    }
  }

  ghost predicate Snapshots(printed: seq<seq<nat>>, order: seq<nat>, d: Levels) {
    && |printed| == |order|
    && forall k :: 0 <= k < |printed| ==> printed[k] != [] && printed[k][0] == order[k] && TwoLevels(printed[k], d)
  }

  lemma ByLevelStays(q: seq<nat>, d: Levels, v: nat, level: nat)
    requires ByLevel(q, d) && v !in d
    ensures ByLevel(q, d[v := level])
  {
    var d' := d[v := level];
    forall i, j | 0 <= i <= j < |q| ensures NotAfter(q, d', i, j) {
      assert NotAfter(q, d, i, j);
    }
  }

  lemma SnapshotsStay(printed: seq<seq<nat>>, order: seq<nat>, d: Levels, v: nat, level: nat)
    requires Snapshots(printed, order, d) && v !in d
    ensures Snapshots(printed, order, d[v := level])
  {
    forall k | 0 <= k < |printed| ensures TwoLevels(printed[k], d[v := level]) {
      assert TwoLevels(printed[k], d);
      ByLevelStays(printed[k], d, v, level);
    }
  }

  /** The marks, the queue and its last used slot, as values. */
  datatype Machine = Machine(visited: seq<int>, queue: seq<nat>, rear: int)

  /** What has happened: `line` is every vertex ever enqueued, the first `h` of them dequeued. */
  datatype Log = Log(line: seq<nat>, h: nat, d: Levels, printed: seq<seq<nat>>)

  /** Everything that holds between any two queue operations: the marks are the discovered
      vertices, the queue holds the rest of the line, and no slot is used ahead of it. */
  ghost predicate SearchState(A: Adjacency, start: nat, m: Machine, t: Log) {
    && InRange(A)
    && Searching(A, start, t.line, t.h, t.d)
    && Marks(m.visited, t.d)
    && |m.visited| == |A|
    && m.queue == t.line[t.h..]
    && m.rear < |t.line|
    && Snapshots(t.printed, t.line[..t.h], t.d)
  }

  /** The state between two turns of the main loop. */
  ghost predicate Resting(A: Adjacency, start: nat, m: Machine, t: Log) {
    SearchState(A, start, m, t) && AllExpanded(A, t.d, t.line, t.h)
  }

  lemma RoomForOneMore(A: Adjacency, visited: seq<int>, line: seq<nat>, d: Levels, v: nat)
    requires Lists(line, d) && Marks(visited, d) && |visited| == |A|
    requires v < |A| && v !in d
    ensures |line| < |A|
  {
    forall i, j | 0 <= i < j < |line + [v]| ensures Differ(line + [v], i, j) {
      assert j < |line| ==> Differ(line, i, j);
    }
    DistinctFits(line + [v], |A|);
  }

  lemma MarksGrow(visited: seq<int>, d: Levels, v: nat, level: nat)
    requires Marks(visited, d) && v < |visited|
    ensures Marks(visited[v := 1], d[v := level])
  {
  }

  lemma QueueGrows(line: seq<nat>, h: nat, v: nat)
    requires h <= |line|
    ensures (line + [v])[..h] == line[..h] && (line + [v])[h..] == line[h..] + [v]
  {
  }

  /** Marking and enqueuing a neighbour of the last vertex dequeued; with at most SIZE vertices
      the queue has room. */
  lemma MarkKeeps(A: Adjacency, start: nat, m: Machine, t: Log, v: nat) returns (t': Log)
    requires SearchState(A, start, m, t) && 0 < t.h
    requires v < |A| && m.visited[v] == 0 && Edge(A, t.line[t.h - 1], v)
    ensures |A| <= SIZE ==> m.rear < SIZE - 1
    ensures v !in t.d && t.line[t.h - 1] in t.d && t.h <= |t.line|
    ensures t' == t.(line := t.line + [v], d := t.d[v := t.d[t.line[t.h - 1]] + 1])
    ensures t'.line[..t.h] == t.line[..t.h] && t'.line[t.h - 1] == t.line[t.h - 1]
    ensures SearchState(A, start, Machine(m.visited[v := 1], m.queue + [v], m.rear + 1), t')
  {
    RoomForOneMore(A, m.visited, t.line, t.d, v);
    DiscoverKeeps(A, start, t.line, t.h, t.d, v);
    SnapshotsStay(t.printed, t.line[..t.h], t.d, v, t.d[t.line[t.h - 1]] + 1);
    MarksGrow(m.visited, t.d, v, t.d[t.line[t.h - 1]] + 1);
    QueueGrows(t.line, t.h, v);
    t' := t.(line := t.line + [v], d := t.d[v := t.d[t.line[t.h - 1]] + 1]);
  }

  /** The neighbours of the last vertex dequeued have been scanned, up to `temp`. */
  ghost predicate Scanning(A: Adjacency, start: nat, m: Machine, t: Log, temp: List) {
    && SearchState(A, start, m, t)
    && 0 < t.h
    && AllExpanded(A, t.d, t.line, t.h - 1)
    && ExpandedBut(A, t.d, t.line[t.h - 1], temp)
  }

  lemma SeenIsNear(A: Adjacency, start: nat, line: seq<nat>, h: nat, d: Levels, v: nat)
    requires Searching(A, start, line, h, d) && 0 < h && v in d
    ensures line[h - 1] in d && d[v] <= d[line[h - 1]] + 1
  {
    assert Listed(line, v);
    var i :| 0 <= i < |line| && line[i] == v;
    assert i < h ==> NotAfter(line, d, i, h - 1);
  }

  lemma ScanSeen(A: Adjacency, start: nat, m: Machine, t: Log, temp: List)
    requires Scanning(A, start, m, t, temp) && temp.Cons?
    requires temp.vertex < |m.visited| && m.visited[temp.vertex] != 0
    ensures Scanning(A, start, m, t, temp.next)
  {
    SeenIsNear(A, start, t.line, t.h, t.d, temp.vertex);
    assert forall w: nat :: Has(temp.next, w) ==> Has(temp, w);
  }

  lemma ExpandedButGrows(A: Adjacency, d: Levels, u: nat, temp: List)
    requires ExpandedBut(A, d, u, temp) && temp.Cons? && temp.vertex !in d
    ensures ExpandedBut(A, d[temp.vertex := d[u] + 1], u, temp.next)
  {
    assert forall w: nat :: Has(temp.next, w) ==> Has(temp, w);
  }

  lemma ScanNew(A: Adjacency, start: nat, m: Machine, t: Log, temp: List) returns (t': Log)
    requires Scanning(A, start, m, t, temp) && temp.Cons?
    requires temp.vertex < |m.visited| && m.visited[temp.vertex] == 0
    ensures |A| <= SIZE ==> m.rear < SIZE - 1
    ensures Scanning(A, start, Machine(m.visited[temp.vertex := 1], m.queue + [temp.vertex], m.rear + 1), t', temp.next)
    ensures t'.h == t.h && t'.printed == t.printed && t'.line == t.line + [temp.vertex]
    ensures t.h <= |t.line| && t'.line[..t.h] == t.line[..t.h]
  {
    var v, u := temp.vertex, t.line[t.h - 1];
    ScanInRange(A, start, m, t, temp);
    t' := MarkKeeps(A, start, m, t, v);
    assert AllExpanded(A, t'.d, t'.line, t.h - 1) by {
      ExpandedStays(A, t.d, t.line, t.h - 1, v, t.d[u] + 1);
    }
    assert ExpandedBut(A, t'.d, u, temp.next) by {
      ExpandedButGrows(A, t.d, u, temp);
    }
  }

  /** One turn of the scan: a vertex already marked is skipped; another is marked, and enqueued
      unless the last slot has been used. */
  ghost predicate Visits(m: Machine, v: nat, m': Machine, dropped: bool)
    requires v < |m.visited|
  {
    if m.visited[v] != 0 then m' == m && !dropped
    else
      && dropped == (m.rear == SIZE - 1)
      && m'.visited == m.visited[v := 1]
      && (if dropped then m'.queue == m.queue && m'.rear == m.rear
          else m'.queue == m.queue + [v] && m'.rear == m.rear + 1)
  }

  lemma ScanInRange(A: Adjacency, start: nat, m: Machine, t: Log, temp: List)
    requires Scanning(A, start, m, t, temp) && temp.Cons?
    ensures temp.vertex < |m.visited| && Edge(A, t.line[t.h - 1], temp.vertex)
  {
    assert Has(temp, temp.vertex) && Edge(A, t.line[t.h - 1], temp.vertex);
  }

  lemma StartSearch(A: Adjacency, start: nat, visited: seq<int>)
    requires InRange(A) && start < |A| == |visited| && forall i :: 0 <= i < |visited| ==> visited[i] == 0
    ensures Resting(A, start, Machine(visited[start := 1], [start], 0), Log([start], 0, map[start := 0], []))
  {
  }

  /** Showing the queue and taking its first vertex off; the scan of its neighbours begins. */
  lemma TakeTurn(A: Adjacency, start: nat, m: Machine, m': Machine, t: Log) returns (t': Log)
    requires Resting(A, start, m, t)
    requires m.queue != [] && m'.visited == m.visited && m'.queue == m.queue[1..] && m'.rear <= m.rear
    ensures m.queue[0] < |A| && Scanning(A, start, m', t', A[m.queue[0]])
    ensures t'.h == t.h + 1 && t'.line == t.line && t'.printed == t.printed + [m.queue]
    ensures t.h < |t.line| && t'.h <= |t'.line| && t'.line[..t'.h] == t.line[..t.h] + [m.queue[0]]
  {
    DequeueKeeps(A, start, t.line, t.h, t.d);
    assert t.line[..t.h + 1] == t.line[..t.h] + [m.queue[0]];
    assert t.line[t.h] in t.d;
    t' := t.(h := t.h + 1, printed := t.printed + [m.queue]);
  }

  lemma ScanEnds(A: Adjacency, start: nat, m: Machine, t: Log)
    requires Scanning(A, start, m, t, Nil)
    ensures Resting(A, start, m, t)
  {
    assert Expanded(A, t.d, t.line[t.h - 1]);
  }

  /** What a finished search has established: `d` gives every reachable vertex its distance,
      exactly these are marked, `order` lists each of them once by distance, and every queue
      shown holds one level and then the next. */
  ghost predicate Found(A: Adjacency, start: nat, visited: seq<int>, order: seq<nat>, printed: seq<seq<nat>>, d: Levels) {
    && (forall v :: 0 <= v < |visited| ==> (visited[v] != 0 <==> Reachable(A, start, v)))
    && (forall v :: v in d <==> Reachable(A, start, v))
    && (forall v :: v in d ==> IsDistance(A, start, v, d[v]))
    && Lists(order, d) && Snapshots(printed, order, d)
  }

  lemma SearchEnds(A: Adjacency, start: nat, m: Machine, t: Log)
    requires Resting(A, start, m, t) && m.queue == []
    ensures Found(A, start, m.visited, t.line[..t.h], t.printed, t.d)
  {
    assert t.line[..t.h] == t.line;
    forall u | u in t.d ensures Expanded(A, t.d, u) {
      assert Listed(t.line, u);
      var i :| 0 <= i < |t.line| && t.line[i] == u;
      assert Expanded(A, t.d, t.line[i]);
    }
    LevelsAreDistances(A, start, t.d);
  }

  // ----- with the possibility that a vertex is dropped

  /** How a search is going: its log as long as nothing was dropped, and then a vertex that was,
      and the expansion in which it happened. */
  datatype Course = Course(t: Log, full: bool, lost: nat, at: nat)

  predicate Marked(visited: seq<int>, v: nat) {
    v < |visited| && visited[v] != 0
  }

  /** Whatever has been dropped: all that is marked is reachable, and all that is in the queue
      or was dequeued is marked. */
  ghost predicate Sound(A: Adjacency, start: nat, m: Machine, order: seq<nat>) {
    && InRange(A) && |m.visited| == |A|
    && (forall v :: v in m.queue || v in order ==> Marked(m.visited, v))
    && (forall v: nat :: Marked(m.visited, v) ==> Reachable(A, start, v))
  }

  /** A vertex that was marked and is not in the queue stays out of it for good. */
  predicate Lost(m: Machine, order: seq<nat>, v: nat) {
    Marked(m.visited, v) && v !in m.queue && v !in order
  }

  ghost predicate Going(A: Adjacency, start: nat, m: Machine, order: seq<nat>, printed: seq<seq<nat>>, g: Course) {
    && Sound(A, start, m, order) && (|A| <= SIZE ==> !g.full)
    && (if g.full then Lost(m, order, g.lost) && FillsAt(A, start, g.at)
        else
          && g.t.h <= |g.t.line| && order == g.t.line[..g.t.h] && printed == g.t.printed
          && ShowsQueues(A, start, printed))
  }

  /** What is shown before each removal: the vertices discovered and not yet removed. */
  ghost predicate ShowsQueues(A: Adjacency, start: nat, printed: seq<seq<nat>>) {
    forall k :: 0 <= k < |printed| ==> ShowsQueue(A, start, k, printed[k])
  }

  predicate ShowsQueue(A: Adjacency, start: nat, k: nat, shown: seq<nat>) {
    k <= |LineAfter(A, start, k)| && shown == LineAfter(A, start, k)[k..]
  }

  /** Between two turns of the main loop. */
  ghost predicate Between(A: Adjacency, start: nat, m: Machine, order: seq<nat>, printed: seq<seq<nat>>, g: Course) {
    && Going(A, start, m, order, printed, g)
    && (!g.full ==> Resting(A, start, m, g.t) && Rested(A, start, m.rear, g.t.line, g.t.h))
  }

  /** While the neighbours of `u`, the last vertex dequeued, are scanned; `temp` are left. */
  ghost predicate Within(
    A: Adjacency, start: nat, m: Machine, order: seq<nat>, printed: seq<seq<nat>>, g: Course, u: nat, temp: List)
  {
    && Going(A, start, m, order, printed, g)
    && Reachable(A, start, u) && (forall v: nat :: Has(temp, v) ==> Edge(A, u, v))
    && (!g.full ==>
          && Scanning(A, start, m, g.t, temp) && g.t.line[g.t.h - 1] == u
          && Scanned(A, start, m.rear, g.t.line, g.t.h, temp))
  }

  lemma ReachableFurther(A: Adjacency, start: nat, u: nat, v: nat)
    requires Reachable(A, start, u) && Edge(A, u, v)
    ensures Reachable(A, start, v)
  {
    var p :| Walk(A, p, start, u);
    assert Walk(A, p + [v], start, v);
  }

  lemma VisitKeepsSound(A: Adjacency, start: nat, m: Machine, order: seq<nat>, u: nat, v: nat, m': Machine, dropped: bool)
    requires Sound(A, start, m, order) && Reachable(A, start, u) && Edge(A, u, v) && v < |m.visited|
    requires Visits(m, v, m', dropped)
    ensures Sound(A, start, m', order)
    ensures dropped ==> Lost(m', order, v)
    ensures forall w: nat :: Lost(m, order, w) ==> Lost(m', order, w)
  {
    ReachableFurther(A, start, u, v);
  }

  lemma KnownInLine(t: Log, visited: seq<int>, v: nat)
    requires Lists(t.line, t.d) && Marks(visited, t.d) && v < |visited|
    ensures v in t.line <==> visited[v] != 0
  {
    assert v in t.d ==> Listed(t.line, v);
  }

  /** One neighbour, whether it is new or not and whether there is room for it or not. */
  lemma ScanTurn(
    A: Adjacency, start: nat, m: Machine, order: seq<nat>, printed: seq<seq<nat>>, g: Course, u: nat, temp: List,
    m': Machine, dropped: bool)
    returns (g': Course)
    requires Within(A, start, m, order, printed, g, u, temp) && temp.Cons? && temp.vertex < |m.visited|
    requires Visits(m, temp.vertex, m', dropped)
    ensures Within(A, start, m', order, printed, g', u, temp.next) && g'.full == (g.full || dropped)
  {
    var v := temp.vertex;
    assert Has(temp, v) && forall w: nat :: Has(temp.next, w) ==> Has(temp, w);
    VisitKeepsSound(A, start, m, order, u, v, m', dropped);
    if g.full {
      g' := g;
    } else if m.visited[v] != 0 {
      SeenTurn(A, start, m, g.t, temp);
      g' := g;
    } else {
      var t' := NewTurn(A, start, m, g.t, temp);
      g' := if dropped then Course(g.t, true, v, g.t.h) else Course(t', false, 0, 0);
      assert !dropped ==> m' == Machine(m.visited[v := 1], m.queue + [v], m.rear + 1);
    }
  }

  lemma SeenTurn(A: Adjacency, start: nat, m: Machine, t: Log, temp: List)
    requires Scanning(A, start, m, t, temp) && Scanned(A, start, m.rear, t.line, t.h, temp)
    requires temp.Cons? && temp.vertex < |m.visited| && m.visited[temp.vertex] != 0
    ensures Scanning(A, start, m, t, temp.next) && Scanned(A, start, m.rear, t.line, t.h, temp.next)
  {
    ScanSeen(A, start, m, t, temp);
    KnownInLine(t, m.visited, temp.vertex);
    KnownIsSkipped(A, start, m.rear, t.line, t.h, temp);
  }

  lemma NewTurn(A: Adjacency, start: nat, m: Machine, t: Log, temp: List) returns (t': Log)
    requires Scanning(A, start, m, t, temp) && Scanned(A, start, m.rear, t.line, t.h, temp)
    requires temp.Cons? && temp.vertex < |m.visited| && m.visited[temp.vertex] == 0
    ensures Scanning(A, start, Machine(m.visited[temp.vertex := 1], m.queue + [temp.vertex], m.rear + 1), t', temp.next)
    ensures Scanned(A, start, m.rear + 1, t'.line, t'.h, temp.next)
    ensures |A| <= SIZE ==> m.rear < SIZE - 1
    ensures m.rear == SIZE - 1 ==> FillsAt(A, start, t.h)
    ensures t'.printed == t.printed && 0 < t.h == t'.h <= |t.line| <= |t'.line|
    ensures t'.line[..t.h] == t.line[..t.h] && t'.line[t.h - 1] == t.line[t.h - 1]
  {
    t' := ScanNew(A, start, m, t, temp);
    KnownInLine(t, m.visited, temp.vertex);
    NewIsNext(A, start, m.rear, t.line, t.h, temp);
  }

  /** How many marks are missing and how many vertices wait: each turn takes one off. */
  function Work(m: Machine): nat {
    Zeros(m.visited) + |m.queue|
  }

  function Zeros(s: seq<int>): nat {
    if s == [] then 0 else (if s[0] == 0 then 1 else 0) + Zeros(s[1..])
  }

  lemma {:induction false} OneZeroLess(s: seq<int>, i: nat)
    requires i < |s| && s[i] == 0
    ensures Zeros(s) == Zeros(s[i := 1]) + 1
  {
    if i > 0 {
      assert s[i := 1][1..] == s[1..][i - 1 := 1];
      OneZeroLess(s[1..], i - 1);
    } else {
      assert s[i := 1][1..] == s[1..];
    }
  }

  lemma VisitKeepsWork(m: Machine, v: nat, m': Machine, dropped: bool)
    requires v < |m.visited| && Visits(m, v, m', dropped)
    ensures Work(m') <= Work(m)
  {
    if m.visited[v] == 0 {
      OneZeroLess(m.visited, v);
    }
  }

  lemma DequeueKeepsSound(A: Adjacency, start: nat, m: Machine, m': Machine, order: seq<nat>)
    requires Sound(A, start, m, order)
    requires m.queue != [] && m'.visited == m.visited && m'.queue == m.queue[1..]
    ensures m.queue[0] < |A| && Reachable(A, start, m.queue[0]) && Work(m') < Work(m)
    ensures Sound(A, start, m', order + [m.queue[0]])
    ensures forall v: nat :: Lost(m, order, v) ==> Lost(m', order + [m.queue[0]], v)
    ensures forall v: nat :: Has(A[m.queue[0]], v) ==> Edge(A, m.queue[0], v)
  {
    assert Marked(m.visited, m.queue[0]);
  }

  lemma OneMoreShown(A: Adjacency, start: nat, m: Machine, t: Log)
    requires SearchState(A, start, m, t) && Rested(A, start, m.rear, t.line, t.h) && ShowsQueues(A, start, t.printed)
    ensures ShowsQueues(A, start, t.printed + [m.queue])
  {
    assert |t.printed| == t.h && ShowsQueue(A, start, t.h, m.queue);
  }

  /** Showing the queue and taking its first vertex off. */
  lemma TurnBegins(
    A: Adjacency, start: nat, m: Machine, m': Machine, order: seq<nat>, printed: seq<seq<nat>>, g: Course)
    returns (g': Course)
    requires Between(A, start, m, order, printed, g)
    requires m.queue != [] && m'.visited == m.visited && m'.queue == m.queue[1..]
    requires m'.rear == (if |m.queue| == 1 then -1 else m.rear) && m.rear >= 0
    ensures m.queue[0] < |A| && g'.full == g.full && Work(m') < Work(m)
    ensures Within(A, start, m', order + [m.queue[0]], printed + [m.queue], g', m.queue[0], A[m.queue[0]])
  {
    DequeueKeepsSound(A, start, m, m', order);
    g' := g;
    if !g.full {
      var t' := OrderlyTurn(A, start, m, m', g.t);
      g' := Course(t', false, 0, 0);
    }
  }

  lemma OrderlyTurn(A: Adjacency, start: nat, m: Machine, m': Machine, t: Log) returns (t': Log)
    requires Resting(A, start, m, t) && Rested(A, start, m.rear, t.line, t.h) && ShowsQueues(A, start, t.printed)
    requires m.queue != [] && m'.visited == m.visited && m'.queue == m.queue[1..]
    requires m'.rear == (if |m.queue| == 1 then -1 else m.rear) && m.rear >= 0
    ensures m.queue[0] < |A| && Scanning(A, start, m', t', A[m.queue[0]])
    ensures Scanned(A, start, m'.rear, t'.line, t'.h, A[m.queue[0]])
    ensures t'.printed == t.printed + [m.queue] && ShowsQueues(A, start, t'.printed)
    ensures 0 < t'.h <= |t'.line| && t'.line[t'.h - 1] == m.queue[0] && t.h <= |t.line|
    ensures t'.line[..t'.h] == t.line[..t.h] + [m.queue[0]]
  {
    t' := TakeTurn(A, start, m, m', t);
    ExpansionBegins(A, start, m.rear, m'.rear, t.line, t.h);
    OneMoreShown(A, start, m, t);
  }

  lemma TurnEnds(
    A: Adjacency, start: nat, m: Machine, order: seq<nat>, printed: seq<seq<nat>>, g: Course, u: nat)
    requires Within(A, start, m, order, printed, g, u, Nil) && m.rear < SIZE
    ensures Between(A, start, m, order, printed, g)
  {
    if !g.full {
      ScanEnds(A, start, m, g.t);
      ExpansionEnds(A, start, m.rear, g.t.line, g.t.h);
    }
  }

  /** Everything is found, in the order of the adjacency lists, and the queues shown are those
      that they call for. */
  ghost predicate FoundInOrder(
    A: Adjacency, start: nat, visited: seq<int>, order: seq<nat>, printed: seq<seq<nat>>, d: Levels)
  {
    && Found(A, start, visited, order, printed, d)
    && order == LineAfter(A, start, |order|) && ShowsQueues(A, start, printed)
  }

  /** Some reachable vertex is never dequeued. */
  ghost predicate Missed(A: Adjacency, start: nat, order: seq<nat>) {
    exists v :: Reachable(A, start, v) && v !in order
  }

  lemma AllOver(A: Adjacency, start: nat, m: Machine, order: seq<nat>, printed: seq<seq<nat>>, g: Course)
    requires Between(A, start, m, order, printed, g) && m.queue == []
    ensures !g.full ==> FoundInOrder(A, start, m.visited, order, printed, g.t.d)
    ensures g.full ==> Missed(A, start, order)
    ensures g.full <==> Fills(A, start)
  {
    if !g.full {
      SearchEnds(A, start, m, g.t);
      assert order == g.t.line;
      forall h: nat ensures !FillsAt(A, start, h) {
        NeverFills(A, start, m.rear, g.t.line, g.t.h, h);
      }
    }
  }

  // ----- the search

  ghost function Snapshot(visited: array<int>, q: Queue): Machine
    requires q.Valid()
    reads visited, q, q.items
  {
    Machine(visited[..], q.Contents(), q.rear)
  }

  method Visit(visited: array<int>, q: Queue, v: nat) returns (dropped: bool)
    requires q.Valid() && v < visited.Length
    modifies visited, q`front, q`rear, q.items
    ensures q.Valid() && Visits(old(Snapshot(visited, q)), v, Snapshot(visited, q), dropped)
  {
    dropped := false;
    if visited[v] == 0 {
      visited[v] := 1;
      dropped := q.Enqueue(v);
    }
  }

  /** Scans the neighbours of the vertex just dequeued. */
  method Scan(
    visited: array<int>, q: Queue, neighbours: List,
    ghost A: Adjacency, ghost start: nat, ghost order: seq<nat>, ghost printed: seq<seq<nat>>, ghost u: nat, ghost g: Course)
    returns (full: bool, ghost g': Course)
    requires q.Valid() && Within(A, start, Snapshot(visited, q), order, printed, g, u, neighbours)
    modifies visited, q`front, q`rear, q.items
    ensures q.Valid() && Within(A, start, Snapshot(visited, q), order, printed, g', u, Nil)
    ensures g'.full == (g.full || full) && Work(Snapshot(visited, q)) <= old(Work(Snapshot(visited, q)))
  {
    full, g' := false, g;
    var temp := neighbours;
    while temp != Nil
      invariant q.Valid() && Within(A, start, Snapshot(visited, q), order, printed, g', u, temp)
      invariant g'.full == (g.full || full) && Work(Snapshot(visited, q)) <= old(Work(Snapshot(visited, q)))
      decreases temp
    {
      ghost var m := Snapshot(visited, q);
      assert Has(temp, temp.vertex) && Edge(A, u, temp.vertex);
      var dropped := Visit(visited, q, temp.vertex);
      g' := ScanTurn(A, start, m, order, printed, g', u, temp, Snapshot(visited, q), dropped);
      VisitKeepsWork(m, temp.vertex, Snapshot(visited, q), dropped);
      full := full || dropped;
      temp := temp.next;
    }
  }

  method Turn(q: Queue) returns (shown: seq<nat>, current: nat)
    requires q.Valid() && q.Contents() != []
    modifies q`front, q`rear
    ensures q.Valid() && shown == old(q.Contents()) && current == shown[0] && q.Contents() == shown[1..]
    ensures q.rear == if |shown| == 1 then -1 else old(q.rear)
  {
    shown := q.items[q.front..q.rear + 1];
    current := q.Dequeue();
  }

  /** One turn of the main loop: show the queue, take a vertex off, scan its neighbours. */
  method Advance(
    visited: array<int>, adjLists: array<List>, q: Queue,
    ghost A: Adjacency, ghost start: nat, ghost order: seq<nat>, ghost printed: seq<seq<nat>>, ghost g: Course)
    returns (shown: seq<nat>, current: nat, full: bool, ghost g': Course)
    requires q.Valid() && q.rear != -1 && A == adjLists[..]
    requires Between(A, start, Snapshot(visited, q), order, printed, g)
    modifies visited, q`front, q`rear, q.items
    ensures q.Valid()
    ensures Between(A, start, Snapshot(visited, q), order + [current], printed + [shown], g')
    ensures g'.full == (g.full || full) && Work(Snapshot(visited, q)) < old(Work(Snapshot(visited, q)))
  {
    ghost var m := Snapshot(visited, q);
    shown, current := Turn(q);
    g' := TurnBegins(A, start, m, Snapshot(visited, q), order, printed, g);
    full, g' := Scan(visited, q, adjLists[current], A, start, order + [current], printed + [shown], current, g');
    TurnEnds(A, start, Snapshot(visited, q), order + [current], printed + [shown], g', current);
  }

  lemma SearchBegins(A: Adjacency, start: nat, visited: seq<int>)
    requires InRange(A) && start < |A| == |visited| && forall i :: 0 <= i < |visited| ==> visited[i] == 0
    ensures Between(A, start, Machine(visited[start := 1], [start], 0), [], [],
                    Course(Log([start], 0, map[start := 0], []), false, 0, 0))
  {
    StartSearch(A, start, visited);
    assert Walk(A, [start], start, start);
  }

  /** On every graph: unless a vertex is dropped from a full queue, the search marks exactly the
      vertices reachable from the start, dequeues each of them once in order of distance and
      in order of the lists within a level, and shows queues that hold one level and then the
      next; if one is dropped, some reachable vertex is never dequeued. One is dropped if and only
      if some expansion calls for more than SIZE slots, which with at most SIZE vertices none does. `printed` is the queue before each
      removal, `order` the vertices removed. */
  method Search(g: Graph, start: nat)
    returns (order: seq<nat>, printed: seq<seq<nat>>, full: bool, ghost d: Levels)
    requires g.Valid() && start < g.numVertices
    requires forall i :: 0 <= i < g.numVertices ==> g.visited[i] == 0
    modifies g.visited
    ensures !full ==> FoundInOrder(g.adjLists[..], start, g.visited[..], order, printed, d)
    ensures full ==> Missed(g.adjLists[..], start, order)
    ensures full <==> Fills(g.adjLists[..], start)
    ensures g.numVertices <= SIZE ==> !full
  {
    ghost var A := g.adjLists[..];
    var q := new Queue();
    SearchBegins(A, start, g.visited[..]);
    g.visited[start] := 1;
    full := q.Enqueue(start);
    order, printed := [], [];
    ghost var course := Course(Log([start], 0, map[start := 0], []), false, 0, 0);
    while q.rear != -1
      invariant q.Valid() && fresh(q) && fresh(q.items) && full == course.full
      invariant Between(A, start, Snapshot(g.visited, q), order, printed, course)
      decreases Work(Snapshot(g.visited, q))
    {
      var shown, current, dropped;
      shown, current, dropped, course := Advance(g.visited, g.adjLists, q, A, start, order, printed, course);
      printed, order := printed + [shown], order + [current];
      full := full || dropped;
    }
    AllOver(A, start, Snapshot(g.visited, q), order, printed, course);
    d := course.t.d;
  }
}
