/**
 Single-source shortest paths on an adjacency matrix in which 0 means "no edge" and 9999
 stands for infinity: n-2 selection rounds, then a walk back along predecessors. Distances
 from 9999 on, which heavy edges can leave behind, all mean infinity.
 */
module Dijkstra {
  import FiniteSets

  const INFINITY: int := 9999

  /** The heaviest edge for which the sums made along the way fit a 32-bit int. */
  const HEAVIEST: int := 0x7FFF_FFFF - INFINITY

  type Matrix = seq<seq<int>>

  ghost predicate Square(G: Matrix, n: nat) {
    |G| >= n && forall i :: 0 <= i < n ==> |G[i]| >= n
  }

  /** No weight is negative, and the sums made along the way fit a 32-bit int. */
  ghost predicate Weighted(G: Matrix, n: nat) {
    && Square(G, n)
    && (forall i, j :: 0 <= i < n && 0 <= j < n ==> 0 <= G[i][j] <= HEAVIEST)
  }

  /** No edge is heavier than infinity. */
  ghost predicate Light(G: Matrix, n: nat)
    requires Square(G, n)
  {
    forall i, j :: 0 <= i < n && 0 <= j < n ==> G[i][j] <= INFINITY
  }

  function Cap(d: int): int {
    if d < INFINITY then d else INFINITY
  }

  function Cost(G: Matrix, i: nat, j: nat): int
    requires i < |G| && j < |G[i]|
  {
    if G[i][j] == 0 then INFINITY else G[i][j]
  }

  // ----- what a distance is

  /** A non-empty sequence of vertices joined by edges. */
  ghost predicate Walk(G: Matrix, n: nat, p: seq<nat>)
    requires Square(G, n)
  {
    && p != []
    && (forall k :: 0 <= k < |p| ==> p[k] < n)
    && (forall k :: 0 < k < |p| ==> G[p[k - 1]][p[k]] != 0)
  }

  ghost function Length(G: Matrix, n: nat, p: seq<nat>): int
    requires Square(G, n) && Walk(G, n, p)
  {
    if |p| == 1 then 0
    else Length(G, n, p[..|p| - 1]) + G[p[|p| - 2]][p[|p| - 1]]
  }

  ghost predicate WalkBetween(G: Matrix, n: nat, p: seq<nat>, a: nat, b: nat)
    requires Square(G, n)
  {
    Walk(G, n, p) && p[0] == a && p[|p| - 1] == b
  }

  /** `d` is the least length of a walk from `a` to `b`, or 9999 if that is less. */
  ghost predicate IsDistance(G: Matrix, n: nat, a: nat, b: nat, d: int)
    requires Square(G, n)
  {
    && d <= INFINITY
    && (forall p :: WalkBetween(G, n, p, a, b) ==> d <= Length(G, n, p))
    && (d < INFINITY ==> exists p :: WalkBetween(G, n, p, a, b) && d == Length(G, n, p))
  }

  // ----- the state between rounds

  /** `done` is the set of visited vertices. Its distances are final: no edge out of it can
      improve anything below infinity, nothing outside is nearer, and predecessors lie inside.
      Only heavy edges bring a distance above infinity. */
  ghost predicate Frontier(G: Matrix, n: nat, start: nat, dist: seq<int>, pred: seq<nat>, done: set<nat>)
    requires Square(G, n)
  {
    && |dist| == |pred| == n && start < n
    && start in done && (forall v :: v in done ==> v < n)
    && dist[start] == 0
    && (forall v :: 0 <= v < n ==> 0 <= dist[v] && (Light(G, n) ==> dist[v] <= INFINITY))
    && (forall u :: u in done ==> dist[u] < INFINITY)
    && (forall u, v :: u in done && 0 <= v < n ==> Cap(dist[v]) <= dist[u] + Cost(G, u, v))
    && (forall u, v :: u in done && 0 <= v < n && v !in done ==> dist[u] <= dist[v])
    && (forall v :: 0 <= v < n && v != start ==> FromPred(G, n, start, dist, pred, done, v))
  }

  ghost predicate FromPred(
    G: Matrix, n: nat, start: nat, dist: seq<int>, pred: seq<nat>, done: set<nat>, v: nat)
    requires Square(G, n) && |dist| == |pred| == n && v < n
  {
    && pred[v] < n && pred[v] in done
    && (if dist[v] < INFINITY then dist[v] == dist[pred[v]] + Cost(G, pred[v], v)
        else Light(G, n) ==> pred[v] == start)
  }

  ghost predicate AllFar(dist: seq<int>, done: set<nat>) {
    forall v :: 0 <= v < |dist| && v !in done ==> dist[v] >= INFINITY
  }

  /** Either every round so far has visited a vertex, or all that is left is unreachable. */
  ghost predicate Counted(n: nat, dist: seq<int>, done: set<nat>, count: nat)
    requires |dist| == n
  {
    |done| >= count || AllFar(dist, done)
  }

  // ----- why the final distances are right

  ghost predicate Feasible(G: Matrix, n: nat, dist: seq<int>)
    requires Square(G, n) && |dist| == n
  {
    forall u, v :: 0 <= u < n && 0 <= v < n ==> Cap(dist[v]) <= Cap(dist[u]) + Cost(G, u, v)
  }

  lemma {:induction false} AtMostOneLeft(done: set<nat>, n: nat, u: nat, v: nat)
    requires (forall w :: w in done ==> w < n) && |done| >= n - 1
    requires u < n && v < n && u !in done && v !in done
    ensures u == v
  {
    if u != v {
      FiniteSets.AtMost(done + {u} + {v}, n);
    }
  }

  /** After the last round no edge at all can improve a distance, not even out of the one
      vertex that is never visited. */
  lemma LastRoundIsFeasible(G: Matrix, n: nat, start: nat, dist: seq<int>, pred: seq<nat>, done: set<nat>, count: nat)
    requires Weighted(G, n) && Frontier(G, n, start, dist, pred, done)
    requires Counted(n, dist, done, count) && count >= n - 1
    ensures Feasible(G, n, dist)
  {
    forall u, v | 0 <= u < n && 0 <= v < n ensures Cap(dist[v]) <= Cap(dist[u]) + Cost(G, u, v) {
      if u !in done && v !in done && |done| >= count {
        AtMostOneLeft(done, n, u, v);
      }
    }
  }

  lemma {:induction false} FeasibleBoundsWalks(G: Matrix, n: nat, start: nat, dist: seq<int>, p: seq<nat>)
    requires Weighted(G, n) && |dist| == n && Feasible(G, n, dist)
    requires Walk(G, n, p) && p[0] == start && dist[start] == 0
    ensures Cap(dist[p[|p| - 1]]) <= Length(G, n, p)
    decreases |p|
  {
    if |p| > 1 {
      var front := p[..|p| - 1];
      FeasibleBoundsWalks(G, n, start, dist, front);
    }
  }

  /** The walk along predecessors, read from the start. */
  lemma {:induction false} PredWalk(G: Matrix, n: nat, start: nat, dist: seq<int>, pred: seq<nat>, done: set<nat>, v: nat)
    returns (p: seq<nat>)
    requires Weighted(G, n) && Frontier(G, n, start, dist, pred, done)
    requires v < n && dist[v] < INFINITY
    ensures WalkBetween(G, n, p, start, v) && Length(G, n, p) == dist[v]
    decreases dist[v]
  {
    if v == start {
      p := [start];
    } else {
      assert FromPred(G, n, start, dist, pred, done, v);
      var front := PredWalk(G, n, start, dist, pred, done, pred[v]);
      p := front + [v];
      LongerWalk(G, n, front, v);
    }
  }

  lemma LongerWalk(G: Matrix, n: nat, front: seq<nat>, v: nat)
    requires Weighted(G, n) && Walk(G, n, front) && v < n
    requires G[front[|front| - 1]][v] != 0
    ensures Walk(G, n, front + [v])
    ensures Length(G, n, front + [v]) == Length(G, n, front) + G[front[|front| - 1]][v]
  {
    var p := front + [v];
    forall k | 0 < k < |p| ensures G[p[k - 1]][p[k]] != 0 {
      if k < |front| {
        assert p[k] == front[k] && p[k - 1] == front[k - 1];
      }
    }
    assert Walk(G, n, p) && p[..|front|] == front;
  }

  lemma FrontierGivesDistances(G: Matrix, n: nat, start: nat, dist: seq<int>, pred: seq<nat>, done: set<nat>)
    requires Weighted(G, n) && Frontier(G, n, start, dist, pred, done) && Feasible(G, n, dist)
    ensures forall v :: 0 <= v < n ==> IsDistance(G, n, start, v, Cap(dist[v]))
  {
    forall v | 0 <= v < n ensures IsDistance(G, n, start, v, Cap(dist[v])) {
      forall p | WalkBetween(G, n, p, start, v) ensures Cap(dist[v]) <= Length(G, n, p) {
        FeasibleBoundsWalks(G, n, start, dist, p);
      }
      if dist[v] < INFINITY {
        var p := PredWalk(G, n, start, dist, pred, done, v);
      }
    }
  }

  // ----- the rounds

  method CostMatrix(G: Matrix, n: nat) returns (cost: array2<int>)
    requires Square(G, n)
    ensures fresh(cost) && cost.Length0 == cost.Length1 == n
    ensures forall i, j :: 0 <= i < n && 0 <= j < n ==> cost[i, j] == Cost(G, i, j)
  {
    cost := new int[n, n];
    for i := 0 to n
      invariant forall k, j :: 0 <= k < i && 0 <= j < n ==> cost[k, j] == Cost(G, k, j)
    {
      for j := 0 to n
        invariant forall k, l :: 0 <= k < i && 0 <= l < n ==> cost[k, l] == Cost(G, k, l)
        invariant forall l :: 0 <= l < j ==> cost[i, l] == Cost(G, i, l)
      {
        if G[i][j] == 0 {
          cost[i, j] := INFINITY;
        } else {
          cost[i, j] := G[i][j];
        }
      }
    }
  }

  ghost predicate VisitedIs(visited: seq<bool>, done: set<nat>) {
    forall v :: 0 <= v < |visited| ==> (visited[v] <==> v in done)
  }

  /** `next` is the nearest vertex outside `done`, at `d` below infinity, and of several the one
      with the lowest number; or there is none, and `next` is still `before`. */
  ghost predicate Selected(dist: seq<int>, done: set<nat>, before: int, d: int, next: int) {
    if d == INFINITY then next == before && AllFar(dist, done)
    else
      && d < INFINITY && 0 <= next < |dist| && next !in done && dist[next] == d
      && forall v :: 0 <= v < |dist| && v !in done ==> d < dist[v] || (d == dist[v] && next <= v)
  }

  method SelectNext(distance: array<int>, visited: array<bool>, before: int, ghost done: set<nat>)
    returns (mindistance: int, nextnode: int)
    requires distance.Length == visited.Length && VisitedIs(visited[..], done)
    ensures Selected(distance[..], done, before, mindistance, nextnode)
  {
    mindistance, nextnode := INFINITY, before;
    for i := 0 to distance.Length
      invariant mindistance <= INFINITY
      invariant mindistance == INFINITY ==> nextnode == before
      invariant forall k :: 0 <= k < i && !visited[k] ==> mindistance <= distance[k]
      invariant mindistance != INFINITY ==>
                  0 <= nextnode < i && !visited[nextnode] && distance[nextnode] == mindistance
      invariant mindistance != INFINITY ==>
                  forall k :: 0 <= k < i && !visited[k] ==> mindistance < distance[k] || nextnode <= k
    {
      if distance[i] < mindistance && !visited[i] {
        mindistance := distance[i];
        nextnode := i;
      }
    }
    assert forall v :: 0 <= v < distance.Length ==> visited[..][v] == visited[v];
  }

  /** The distance and predecessor of `v` after relaxing the edges out of `u`. */
  function Relaxed(cu: int, mindistance: int, u: nat, visited: bool, d: int, p: nat): (int, nat) {
    if !visited && mindistance + cu < d then (mindistance + cu, u) else (d, p)
  }

  method RelaxFrom(
    cost: array2<int>, distance: array<int>, pred: array<nat>, visited: array<bool>, mindistance: int, u: nat)
    requires cost.Length0 == cost.Length1 == distance.Length == pred.Length == visited.Length
    requires u < distance.Length
    modifies distance, pred
    ensures forall v :: 0 <= v < distance.Length ==>
              (distance[v], pred[v]) == Relaxed(cost[u, v], mindistance, u, visited[v], old(distance[v]), old(pred[v]))
  {
    for i := 0 to distance.Length
      invariant forall v :: 0 <= v < i ==>
                  (distance[v], pred[v]) == Relaxed(cost[u, v], mindistance, u, visited[v], old(distance[v]), old(pred[v]))
      invariant forall v :: i <= v < distance.Length ==> distance[v] == old(distance[v]) && pred[v] == old(pred[v])
    {
      if !visited[i] {
        if mindistance + cost[u, i] < distance[i] {
          distance[i] := mindistance + cost[u, i];
          pred[i] := u;
        }
      }
    }
  }

  ghost predicate RelaxedFrom(
    G: Matrix, n: nat, u: nat, d: int, done: set<nat>,
    dist: seq<int>, pred: seq<nat>, dist': seq<int>, pred': seq<nat>)
    requires Square(G, n) && u < n
  {
    && |dist| == |pred| == |dist'| == |pred'| == n
    && forall v :: 0 <= v < n ==>
      (dist'[v], pred'[v]) == Relaxed(Cost(G, u, v), d, u, v in done, dist[v], pred[v])
  }

  /** Marks `u` and relaxes the edges out of it. */
  method VisitFrom(
    cost: array2<int>, distance: array<int>, pred: array<nat>, visited: array<bool>, mindistance: int, u: nat,
    ghost G: Matrix, ghost n: nat, ghost done: set<nat>)
    requires Square(G, n) && u < n
    requires cost.Length0 == cost.Length1 == distance.Length == pred.Length == visited.Length == n
    requires forall i, j :: 0 <= i < n && 0 <= j < n ==> cost[i, j] == Cost(G, i, j)
    requires VisitedIs(visited[..], done)
    modifies distance, pred, visited
    ensures VisitedIs(visited[..], done + {u})
    ensures RelaxedFrom(G, n, u, mindistance, done + {u}, old(distance[..]), old(pred[..]), distance[..], pred[..])
  {
    visited[u] := true;
    RelaxFrom(cost, distance, pred, visited, mindistance, u);
  }

  /** A round that finds the nearest unvisited vertex moves it inside the frontier. */
  lemma RoundAdvances(
    G: Matrix, n: nat, start: nat, done: set<nat>, u: nat,
    dist: seq<int>, pred: seq<nat>, dist': seq<int>, pred': seq<nat>)
    requires Weighted(G, n) && Frontier(G, n, start, dist, pred, done)
    requires u < n && u !in done && dist[u] < INFINITY
    requires forall v :: 0 <= v < n && v !in done ==> dist[u] <= dist[v]
    requires RelaxedFrom(G, n, u, dist[u], done + {u}, dist, pred, dist', pred')
    ensures Frontier(G, n, start, dist', pred', done + {u})
  {
    var done' := done + {u};
    forall v | 0 <= v < n && v != start ensures FromPred(G, n, start, dist', pred', done', v) {
      assert FromPred(G, n, start, dist, pred, done, v);
    }
  }

  /** A round that finds nothing repeats an old vertex at infinity. It can change only
      distances above infinity, and leaves them there. */
  lemma StalledRound(
    G: Matrix, n: nat, start: nat, done: set<nat>, u: nat,
    dist: seq<int>, pred: seq<nat>, dist': seq<int>, pred': seq<nat>)
    requires Weighted(G, n) && Frontier(G, n, start, dist, pred, done) && u in done
    requires RelaxedFrom(G, n, u, INFINITY, done, dist, pred, dist', pred')
    ensures Frontier(G, n, start, dist', pred', done)
    ensures forall v :: 0 <= v < n ==> Cap(dist'[v]) == Cap(dist[v])
    ensures Light(G, n) ==> dist' == dist && pred' == pred
  {
    forall v | 0 <= v < n && v != start ensures FromPred(G, n, start, dist', pred', done, v) {
      assert FromPred(G, n, start, dist, pred, done, v);
    }
  }

  /** One round, whichever way it goes. */
  lemma RoundKeepsFrontier(
    G: Matrix, n: nat, start: nat, done: set<nat>, before: int, d: int, u: nat,
    dist: seq<int>, pred: seq<nat>, dist': seq<int>, pred': seq<nat>)
    requires Weighted(G, n) && Frontier(G, n, start, dist, pred, done)
    requires (before in done || before == -1) && u < n && Selected(dist, done, before, d, u)
    requires RelaxedFrom(G, n, u, d, done + {u}, dist, pred, dist', pred')
    ensures Frontier(G, n, start, dist', pred', done + {u})
    ensures if AllFar(dist, done) then done + {u} == done && AllFar(dist', done) else |done + {u}| == |done| + 1
  {
    if d == INFINITY {
      assert done + {u} == done;
      StalledRound(G, n, start, done, u, dist, pred, dist', pred');
    } else {
      RoundAdvances(G, n, start, done, u, dist, pred, dist', pred');
    }
  }

  ghost predicate HasNearNeighbour(G: Matrix, n: nat, start: nat)
    requires Square(G, n) && start < n
  {
    exists i :: 0 <= i < n && i != start && Cost(G, start, i) < INFINITY
  }

  method InitRound(cost: array2<int>, distance: array<int>, pred: array<nat>, visited: array<bool>, start: nat)
    requires cost.Length0 == cost.Length1 == distance.Length == pred.Length == visited.Length
    requires start < distance.Length
    modifies distance, pred, visited
    ensures forall k :: 0 <= k < distance.Length ==> distance[k] == if k == start then 0 else cost[start, k]
    ensures forall k :: 0 <= k < distance.Length ==> pred[k] == start && (visited[k] <==> k == start)
  {
    for i := 0 to distance.Length
      invariant forall k :: 0 <= k < i ==> distance[k] == cost[start, k] && pred[k] == start && !visited[k]
    {
      distance[i] := cost[start, i];
      pred[i] := start;
      visited[i] := false;
    }
    distance[start] := 0;
    visited[start] := true;
  }

  lemma StartFrontier(G: Matrix, n: nat, start: nat, dist: seq<int>, pred: seq<nat>)
    requires Weighted(G, n) && start < n && |dist| == |pred| == n
    requires forall k :: 0 <= k < n ==> dist[k] == (if k == start then 0 else Cost(G, start, k)) && pred[k] == start
    ensures Frontier(G, n, start, dist, pred, {start})
  {
  }

  // ----- the rounds one after the other, for any weights

  /** The arrays between two rounds, with the set of visited vertices and `nextnode`, which is
      -1 until it is first assigned. */
  datatype Arrays = Arrays(dist: seq<int>, pred: seq<nat>, done: set<nat>, next: int)

  ghost predicate Shaped(n: nat, s: Arrays) {
    |s.dist| == |s.pred| == n && (forall v :: v in s.done ==> v < n) && (s.next == -1 || s.next in s.done)
  }

  ghost predicate Started(G: Matrix, n: nat, start: nat, s: Arrays)
    requires Square(G, n) && start < n
  {
    && |s.dist| == |s.pred| == n && s.done == {start} && s.next == -1
    && forall k :: 0 <= k < n ==>
      s.dist[k] == (if k == start then 0 else Cost(G, start, k)) && s.pred[k] == start
  }

  /** One round: it visits the nearest vertex, or the one visited last if all others are far. */
  ghost predicate OneRound(G: Matrix, n: nat, s: Arrays, s': Arrays)
    requires Square(G, n)
  {
    && Shaped(n, s) && 0 <= s'.next < n && s'.done == s.done + {s'.next}
    && var d := if AllFar(s.dist, s.done) then INFINITY else s.dist[s'.next];
    && Selected(s.dist, s.done, s.next, d, s'.next)
    && RelaxedFrom(G, n, s'.next, d, s'.done, s.dist, s.pred, s'.dist, s'.pred)
  }

  /** The arrays at the start and after each round so far. */
  ghost predicate Trace(G: Matrix, n: nat, start: nat, ss: seq<Arrays>)
    requires Square(G, n) && start < n
  {
    && ss != [] && Started(G, n, start, ss[0])
    && forall i {:trigger Follows(G, n, ss, i)} :: 0 < i < |ss| ==> Follows(G, n, ss, i)
  }

  ghost predicate Follows(G: Matrix, n: nat, ss: seq<Arrays>, i: int)
    requires Square(G, n) && 0 < i < |ss|
  {
    OneRound(G, n, ss[i - 1], ss[i])
  }

  function Last(ss: seq<Arrays>): Arrays
    requires ss != []
  {
    ss[|ss| - 1]
  }

  lemma OneMoreRound(G: Matrix, n: nat, start: nat, ss: seq<Arrays>, s: Arrays)
    requires Square(G, n) && start < n && Trace(G, n, start, ss) && OneRound(G, n, Last(ss), s)
    ensures Trace(G, n, start, ss + [s])
  {
    forall i | 0 < i < |ss| + 1 ensures Follows(G, n, ss + [s], i) {
      assert i < |ss| ==> Follows(G, n, ss, i);
    }
  }

  /** One pass of the main loop. `next` is -1, and nothing is changed, when the pass would use
      a `nextnode` that was never assigned. */
  method Round(
    cost: array2<int>, distance: array<int>, pred: array<nat>, visited: array<bool>, nextnode: int,
    ghost G: Matrix, ghost n: nat, ghost done: set<nat>)
    returns (next: int, ghost done': set<nat>)
    requires Square(G, n)
    requires cost.Length0 == cost.Length1 == distance.Length == pred.Length == visited.Length == n
    requires forall i, j :: 0 <= i < n && 0 <= j < n ==> cost[i, j] == Cost(G, i, j)
    requires Shaped(n, Arrays(distance[..], pred[..], done, nextnode)) && VisitedIs(visited[..], done)
    modifies distance, pred, visited
    ensures next == -1 <==> nextnode == -1 && AllFar(old(distance[..]), done)
    ensures next != -1 ==> VisitedIs(visited[..], done')
    ensures next != -1 ==>
              OneRound(G, n, Arrays(old(distance[..]), old(pred[..]), done, nextnode),
                       Arrays(distance[..], pred[..], done', next))
  {
    done' := done;
    var mindistance;
    mindistance, next := SelectNext(distance, visited, nextnode, done);
    if next == -1 {
      return;
    }
    VisitFrom(cost, distance, pred, visited, mindistance, next, G, n, done);
    done' := done + {next};
  }

  lemma {:induction false} RoundsKeepShape(G: Matrix, n: nat, start: nat, ss: seq<Arrays>, i: nat)
    requires Square(G, n) && start < n && Trace(G, n, start, ss) && i < |ss|
    ensures Shaped(n, ss[i]) && (i == 0 <==> ss[i].next == -1)
    ensures i > 0 ==> HasNearNeighbour(G, n, start)
    ensures i == 0 ==> (AllFar(ss[i].dist, ss[i].done) <==> !HasNearNeighbour(G, n, start))
  {
    if i > 0 {
      RoundsKeepShape(G, n, start, ss, i - 1);
      assert Follows(G, n, ss, i);
      RoundShapes(G, n, ss[i - 1], ss[i]);
    } else {
      FirstRoundStarts(G, n, start, ss[0].dist);
    }
  }

  lemma RoundShapes(G: Matrix, n: nat, s: Arrays, s': Arrays)
    requires Square(G, n) && OneRound(G, n, s, s')
    ensures Shaped(n, s') && s'.next != -1 && (s.next == -1 ==> !AllFar(s.dist, s.done))
  {
  }

  /** Without negative weights every round keeps the frontier, and counts. */
  lemma {:induction false} RoundsKeepFrontier(G: Matrix, n: nat, start: nat, ss: seq<Arrays>, i: nat)
    requires Weighted(G, n) && start < n && Trace(G, n, start, ss) && i < |ss|
    ensures Frontier(G, n, start, ss[i].dist, ss[i].pred, ss[i].done)
    ensures Counted(n, ss[i].dist, ss[i].done, i + 1)
  {
    if i == 0 {
      StartFrontier(G, n, start, ss[0].dist, ss[0].pred);
    } else {
      RoundsKeepFrontier(G, n, start, ss, i - 1);
      assert Follows(G, n, ss, i);
      NextFrontier(G, n, start, i, ss[i - 1], ss[i]);
    }
  }

  lemma NextFrontier(G: Matrix, n: nat, start: nat, count: nat, s: Arrays, s': Arrays)
    requires Weighted(G, n) && start < n && OneRound(G, n, s, s')
    requires Frontier(G, n, start, s.dist, s.pred, s.done) && Counted(n, s.dist, s.done, count)
    ensures Frontier(G, n, start, s'.dist, s'.pred, s'.done) && Counted(n, s'.dist, s'.done, count + 1)
  {
    var d := if AllFar(s.dist, s.done) then INFINITY else s.dist[s'.next];
    RoundKeepsFrontier(G, n, start, s.done, s.next, d, s'.next, s.dist, s.pred, s'.dist, s'.pred);
  }

  lemma FirstRoundStarts(G: Matrix, n: nat, start: nat, dist: seq<int>)
    requires Square(G, n) && start < n && |dist| == n
    requires forall i :: 0 <= i < n && i != start ==> dist[i] == Cost(G, start, i)
    ensures AllFar(dist, {start}) <==> !HasNearNeighbour(G, n, start)
  {
  }

  /** Every distance, capped at infinity, is that of its vertex; without heavy edges no
      distance is above the cap. */
  ghost predicate Distances(G: Matrix, n: nat, start: nat, dist: seq<int>)
    requires Square(G, n)
  {
    && |dist| == n
    && (forall v :: 0 <= v < n ==> IsDistance(G, n, start, v, Cap(dist[v])))
    && (Light(G, n) ==> forall v :: 0 <= v < n ==> dist[v] <= INFINITY)
  }

  lemma RoundsEnd(G: Matrix, n: nat, start: nat, ss: seq<Arrays>)
    requires Weighted(G, n) && start < n && Trace(G, n, start, ss) && |ss| + 1 >= n
    ensures Distances(G, n, start, Last(ss).dist)
    ensures Frontier(G, n, start, Last(ss).dist, Last(ss).pred, Last(ss).done)
  {
    var s := Last(ss);
    RoundsKeepFrontier(G, n, start, ss, |ss| - 1);
    LastRoundIsFeasible(G, n, start, s.dist, s.pred, s.done, |ss|);
    FrontierGivesDistances(G, n, start, s.dist, s.pred, s.done);
  }

  /** The main loop. It gives up when a round would use `nextnode` before it was ever assigned,
      which happens exactly when a round runs and the start has no other neighbour below
      infinity. */
  method Rounds(
    cost: array2<int>, distance: array<int>, pred: array<nat>, visited: array<bool>,
    ghost G: Matrix, ghost start: nat)
    returns (ok: bool, ghost trace: seq<Arrays>)
    requires cost.Length0 == cost.Length1 == distance.Length == pred.Length == visited.Length
    requires Square(G, distance.Length) && start < distance.Length
    requires forall i, j :: 0 <= i < distance.Length && 0 <= j < distance.Length ==> cost[i, j] == Cost(G, i, j)
    requires Started(G, distance.Length, start, Arrays(distance[..], pred[..], {start}, -1))
    requires VisitedIs(visited[..], {start})
    modifies distance, pred, visited
    ensures ok <==> distance.Length <= 2 || HasNearNeighbour(G, distance.Length, start)
    ensures ok ==> Trace(G, distance.Length, start, trace) && |trace| == RoundCount(distance.Length) + 1
    ensures ok ==> Last(trace).dist == distance[..] && Last(trace).pred == pred[..]
  {
    ghost var done := {start};
    var n, count, nextnode := distance.Length, 1, -1;
    trace := [Arrays(distance[..], pred[..], done, nextnode)];
    while count < n - 1
      invariant 1 <= count == |trace| <= RoundCount(n) + 1
      invariant Trace(G, n, start, trace) && Last(trace) == Arrays(distance[..], pred[..], done, nextnode)
      invariant VisitedIs(visited[..], done)
    {
      RoundsKeepShape(G, n, start, trace, count - 1);
      nextnode, done := Round(cost, distance, pred, visited, nextnode, G, n, done);
      if nextnode == -1 {
        ok := false;
        return;
      }
      OneMoreRound(G, n, start, trace, Arrays(distance[..], pred[..], done, nextnode));
      trace := trace + [Arrays(distance[..], pred[..], done, nextnode)];
      count := count + 1;
    }
    ok := true;
    RoundsKeepShape(G, n, start, trace, count - 1);
  }

  function RoundCount(n: nat): nat {
    if n <= 2 then 0 else n - 2
  }

  /** Unless it fails, which it does exactly when n > 2 and the start has no other neighbour below
      infinity, the result is that of n-2 rounds; and if no weight is negative it is the true
      distance of every vertex, capped at infinity. */
  method Run(G: Matrix, n: nat, start: nat)
    returns (ok: bool, distance: array<int>, pred: array<nat>, ghost trace: seq<Arrays>)
    requires Square(G, n) && start < n
    ensures ok <==> n <= 2 || HasNearNeighbour(G, n, start)
    ensures distance.Length == pred.Length == n
    ensures ok ==> Trace(G, n, start, trace) && |trace| == RoundCount(n) + 1
    ensures ok ==> Last(trace).dist == distance[..] && Last(trace).pred == pred[..]
    ensures ok && Weighted(G, n) ==> Distances(G, n, start, distance[..])
    ensures ok && Weighted(G, n) ==> Frontier(G, n, start, distance[..], pred[..], Last(trace).done)
  {
    var cost := CostMatrix(G, n);
    distance := new int[n];
    pred := new nat[n];
    var visited := new bool[n];
    InitRound(cost, distance, pred, visited, start);
    ok, trace := Rounds(cost, distance, pred, visited, G, start);
    if ok && Weighted(G, n) {
      RoundsEnd(G, n, start, trace);
    }
  }

  // ----- ties

  /** `u` comes no later than `v` by distance, and by number where that is the same. */
  predicate Before(dist: seq<int>, u: nat, v: nat)
    requires u < |dist| && v < |dist|
  {
    dist[u] < dist[v] || (dist[u] == dist[v] && u <= v)
  }

  /** The edge from `u` ends a shortest walk to `v`. */
  predicate Tight(G: Matrix, dist: seq<int>, u: nat, v: nat)
    requires u < |dist| <= |G| && v < |dist| <= |G[u]|
  {
    dist[v] < INFINITY && dist[u] + Cost(G, u, v) == dist[v]
  }

  /** Visited vertices come before all others, and a predecessor before all other visited
      vertices that would do. */
  ghost predicate FirstChosen(G: Matrix, n: nat, start: nat, dist: seq<int>, pred: seq<nat>, done: set<nat>)
    requires Square(G, n)
  {
    && |dist| == |pred| == n && (forall u :: u in done ==> u < n)
    && (forall u, v :: u in done && 0 <= v < n && v !in done ==> Before(dist, u, v))
    && (forall u, v {:trigger Tight(G, dist, u, v)} ::
          u in done && 0 <= v < n && v != start && Tight(G, dist, u, v) ==> pred[v] < n && Before(dist, pred[v], u))
  }

  lemma StartChosen(G: Matrix, n: nat, start: nat, s: Arrays)
    requires Weighted(G, n) && start < n && Started(G, n, start, s)
    ensures FirstChosen(G, n, start, s.dist, s.pred, s.done)
  {
  }

  /** A round that visits `u` keeps the choice: an edge out of `u` replaces a predecessor only
      if it is strictly better, and then nothing visited before was as good. */
  lemma AdvanceChosen(
    G: Matrix, n: nat, start: nat, done: set<nat>, u: nat,
    dist: seq<int>, pred: seq<nat>, dist': seq<int>, pred': seq<nat>)
    requires Weighted(G, n) && Frontier(G, n, start, dist, pred, done) && FirstChosen(G, n, start, dist, pred, done)
    requires u < n && u !in done && dist[u] < INFINITY
    requires forall v :: 0 <= v < n && v !in done ==> Before(dist, u, v)
    requires RelaxedFrom(G, n, u, dist[u], done + {u}, dist, pred, dist', pred')
    ensures FirstChosen(G, n, start, dist', pred', done + {u})
  {
    forall a, v | a in done + {u} && 0 <= v < n && v != start && Tight(G, dist', a, v)
      ensures pred'[v] < n && Before(dist', pred'[v], a)
    {
      assert dist'[a] == dist[a];
      ChosenFor(G, n, start, done, u, dist, pred, dist', pred', a, v);
    }
  }

  lemma ChosenFor(
    G: Matrix, n: nat, start: nat, done: set<nat>, u: nat,
    dist: seq<int>, pred: seq<nat>, dist': seq<int>, pred': seq<nat>, a: nat, v: nat)
    requires Weighted(G, n) && Frontier(G, n, start, dist, pred, done) && FirstChosen(G, n, start, dist, pred, done)
    requires u < n && u !in done && dist[u] < INFINITY
    requires RelaxedFrom(G, n, u, dist[u], done + {u}, dist, pred, dist', pred')
    requires a in done + {u} && v < n && v != start && Tight(G, dist', a, v)
    ensures pred'[v] < n && Before(dist', pred'[v], a)
  {
    assert FromPred(G, n, start, dist, pred, done, v);
    assert Before(dist, pred[v], u);
    if dist'[v] == dist[v] {
      assert Tight(G, dist, a, v);
    }
  }

  lemma StallChosen(
    G: Matrix, n: nat, start: nat, done: set<nat>, u: nat,
    dist: seq<int>, pred: seq<nat>, dist': seq<int>, pred': seq<nat>)
    requires Weighted(G, n) && Frontier(G, n, start, dist, pred, done) && FirstChosen(G, n, start, dist, pred, done)
    requires u in done && AllFar(dist, done)
    requires RelaxedFrom(G, n, u, INFINITY, done, dist, pred, dist', pred')
    ensures FirstChosen(G, n, start, dist', pred', done)
  {
    forall a, v | a in done && 0 <= v < n && v != start && Tight(G, dist', a, v)
      ensures pred'[v] < n && Before(dist', pred'[v], a)
    {
      assert FromPred(G, n, start, dist, pred, done, v);
      assert Tight(G, dist, a, v);
    }
  }

  lemma NextChosen(G: Matrix, n: nat, start: nat, s: Arrays, s': Arrays)
    requires Weighted(G, n) && start < n && OneRound(G, n, s, s')
    requires Frontier(G, n, start, s.dist, s.pred, s.done) && FirstChosen(G, n, start, s.dist, s.pred, s.done)
    ensures FirstChosen(G, n, start, s'.dist, s'.pred, s'.done)
  {
    if AllFar(s.dist, s.done) {
      assert s'.done == s.done;
      StallChosen(G, n, start, s.done, s'.next, s.dist, s.pred, s'.dist, s'.pred);
    } else {
      AdvanceChosen(G, n, start, s.done, s'.next, s.dist, s.pred, s'.dist, s'.pred);
    }
  }

  lemma {:induction false} RoundsKeepChosen(G: Matrix, n: nat, start: nat, ss: seq<Arrays>, i: nat)
    requires Weighted(G, n) && start < n && Trace(G, n, start, ss) && i < |ss|
    ensures FirstChosen(G, n, start, ss[i].dist, ss[i].pred, ss[i].done)
  {
    if i == 0 {
      StartChosen(G, n, start, ss[0]);
    } else {
      RoundsKeepChosen(G, n, start, ss, i - 1);
      RoundsKeepFrontier(G, n, start, ss, i - 1);
      assert Follows(G, n, ss, i);
      NextChosen(G, n, start, ss[i - 1], ss[i]);
    }
  }

  /** Which of several shortest paths is printed: the predecessor of a vertex is, of all vertices
      from which an edge ends a shortest walk to it, the nearest to the start, and of those the
      one with the lowest number. */
  lemma PredIsFirst(G: Matrix, n: nat, start: nat, ss: seq<Arrays>, u: nat, v: nat)
    requires Weighted(G, n) && start < n && Trace(G, n, start, ss) && |ss| == RoundCount(n) + 1
    requires u < n && v < n && v != start
    ensures |Last(ss).dist| == |Last(ss).pred| == n
    ensures Tight(G, Last(ss).dist, u, v) ==>
              var p := Last(ss).pred[v];
              p < n && Tight(G, Last(ss).dist, p, v) && Before(Last(ss).dist, p, u)
  {
    var s := Last(ss);
    RoundsKeepFrontier(G, n, start, ss, |ss| - 1);
    RoundsKeepChosen(G, n, start, ss, |ss| - 1);
    assert FromPred(G, n, start, s.dist, s.pred, s.done, v);
    if Tight(G, s.dist, u, v) && u !in s.done && |s.done| >= |ss| {
      AtMostOneLeft(s.done, n, u, v);
    }
  }

  // ----- a negative weight

  /** Edges 0-1 of weight 5, 0-2 of weight 4 and 1-2 of weight -3. */
  const NEGATIVE: Matrix := [[0, 5, 4], [0, 0, -3], [0, 0, 0]]

  /** With a negative weight the distances can be wrong: the program leaves vertex 2 at 4, while
      the walk over vertex 1 has length 2. */
  lemma NegativeWeightFails(ss: seq<Arrays>)
    requires Trace(NEGATIVE, 3, 0, ss) && |ss| == RoundCount(3) + 1
    ensures |Last(ss).dist| == 3 && Last(ss).dist[2] == 4
    ensures !IsDistance(NEGATIVE, 3, 0, 2, Cap(Last(ss).dist[2]))
  {
    assert Follows(NEGATIVE, 3, ss, 1);
    NegativeRound(ss[0], ss[1]);
    var p := NegativeWalk();
  }

  lemma NegativeRound(s0: Arrays, s: Arrays)
    requires Started(NEGATIVE, 3, 0, s0) && OneRound(NEGATIVE, 3, s0, s)
    ensures |s.dist| == 3 && s.dist[2] == 4
  {
    assert s0.dist == [0, 5, 4];
    assert s0.dist[2] == 4 && 2 !in s0.done && !AllFar(s0.dist, s0.done);
    assert s.next !in s0.done && s0.dist[s.next] <= s0.dist[2];
    assert s.next == 2;
  }

  lemma NegativeWalk() returns (p: seq<nat>)
    ensures Square(NEGATIVE, 3) && WalkBetween(NEGATIVE, 3, p, 0, 2) && Length(NEGATIVE, 3, p) == 2
  {
    p := [0, 1, 2];
    assert p[..2] == [0, 1] && p[..2][..1] == [0];
    assert Length(NEGATIVE, 3, [0, 1]) == 5;
  }

  // ----- printing a path

  /** The sum of the edges of a path that is listed backwards. */
  ghost function BackwardLength(G: Matrix, n: nat, path: seq<nat>): int
    requires Square(G, n) && forall k :: 0 <= k < |path| ==> path[k] < n
  {
    if |path| <= 1 then 0
    else BackwardLength(G, n, path[..|path| - 1]) + Cost(G, path[|path| - 1], path[|path| - 2])
  }

  lemma BackwardOneMore(G: Matrix, n: nat, path: seq<nat>, j: nat)
    requires Square(G, n) && path != [] && j < n && forall k :: 0 <= k < |path| ==> path[k] < n
    ensures BackwardLength(G, n, path + [j]) == BackwardLength(G, n, path) + Cost(G, j, path[|path| - 1])
  {
    assert (path + [j])[..|path|] == path;
  }

  ghost predicate FollowsPred(pred: seq<nat>, dist: seq<int>, u: nat, v: nat) {
    u < |pred| == |dist| && v < |dist| && v == pred[u] && dist[v] < dist[u]
  }

  /** The vertices printed for `i`: from `i` along predecessors, with falling distance, to the
      start. Below infinity the edges add up to the distance; otherwise, unless there are heavy
      edges, `i` is shown next to the start. */
  method Path(G: Matrix, n: nat, start: nat, dist: seq<int>, pred: seq<nat>, ghost done: set<nat>, i: nat)
    returns (path: seq<nat>)
    requires Weighted(G, n) && Frontier(G, n, start, dist, pred, done)
    requires i < n && i != start
    ensures |path| >= 2 && path[0] == i && path[|path| - 1] == start
    ensures forall k :: 0 <= k < |path| ==> path[k] < n
    ensures forall k :: 0 <= k < |path| - 1 ==> FollowsPred(pred, dist, path[k], path[k + 1])
    ensures dist[i] < INFINITY ==> BackwardLength(G, n, path) == dist[i]
    ensures dist[i] >= INFINITY && Light(G, n) ==> path == [i, start]
  {
    var j := i;
    path := [i];
    while true
      invariant path != [] && path[0] == i && path[|path| - 1] == j < n && j != start
      invariant forall k :: 0 <= k < |path| ==> path[k] < n
      invariant forall k :: 0 <= k < |path| - 1 ==> FollowsPred(pred, dist, path[k], path[k + 1])
      invariant if dist[i] < INFINITY then BackwardLength(G, n, path) + dist[j] == dist[i] && dist[j] < INFINITY
                else path == [i] || (dist[j] < INFINITY && !Light(G, n))
      decreases dist[j]
    {
      assert FromPred(G, n, start, dist, pred, done, j);
      BackwardOneMore(G, n, path, pred[j]);
      j := pred[j];
      path := path + [j];
      if j == start {
        return;
      }
    }
  }
}
