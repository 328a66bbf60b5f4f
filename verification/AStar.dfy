/** lab3/MazeSolver.py: A* with a Manhattan heuristic, a priority queue that keeps stale entries and a
    closed set that is never reopened. */
module AStar {
  import opened Wrappers
  import opened Maze

  datatype Entry = Entry(priority: int, pos: Pos)

  /** The order of Python tuples (priority, (x, y)). */
  predicate AtMost(a: Entry, b: Entry) {
    || a.priority < b.priority
    || (a.priority == b.priority && (a.pos.x < b.pos.x || (a.pos.x == b.pos.x && a.pos.y <= b.pos.y)))
  }

  function Abs(n: int): nat {
    if n < 0 then -n else n
  }

  function Heuristic(p: Pos, exit: Pos): nat {
    Abs(p.x - exit.x) + Abs(p.y - exit.y)
  }

  // ---- path_to_moves ----

  function Letter(p: Pos, q: Pos): string {
    if q.x > p.x then "D"
    else if q.x < p.x then "A"
    else if q.y > p.y then "S"
    else if q.y < p.y then "W"
    else ""
  }

  function MovesOf(path: seq<Pos>): string {
    if |path| < 2 then ""
    else MovesOf(path[..|path| - 1]) + Letter(path[|path| - 2], path[|path| - 1])
  }

  method PathToMoves(path: seq<Pos>) returns (moves: string)
    ensures moves == MovesOf(path) + "\n"
  {
    moves := "";
    var i := 1;
    while i < |path|
      invariant i >= 1
      invariant |path| >= 1 ==> i <= |path| && moves == MovesOf(path[..i])
      invariant |path| == 0 ==> moves == ""
    {
      var p, q := path[i - 1], path[i];
      assert path[..i + 1][..i] == path[..i];
      if q.x > p.x {
        moves := moves + "D";
      } else if q.x < p.x {
        moves := moves + "A";
      } else if q.y > p.y {
        moves := moves + "S";
      } else if q.y < p.y {
        moves := moves + "W";
      }
      i := i + 1;
    }
    assert |path| > 0 ==> path[..i] == path;
    moves := moves + "\n";
  }

  ghost predicate Chain(maze: Grid, path: seq<Pos>)
    requires Rectangular(maze)
  {
    |path| > 0 && forall i :: 1 <= i < |path| ==> Adjacent(maze, path[i - 1], path[i])
  }

  lemma LetterIsStep(maze: Grid, p: Pos, q: Pos)
    requires Rectangular(maze) && Adjacent(maze, p, q)
    ensures |Letter(p, q)| == 1 && IsMove(Letter(p, q)[0]) && Moved(p, Letter(p, q)[0]) == q
  {
  }

  lemma {:induction false} ChainReplays(maze: Grid, path: seq<Pos>)
    requires Rectangular(maze) && Chain(maze, path)
    ensures |MovesOf(path)| == |path| - 1
    ensures Route(maze, path[0], path[|path| - 1], MovesOf(path))
  {
    if |path| > 1 {
      var front := path[..|path| - 1];
      ChainReplays(maze, front);
      var p, q := path[|path| - 2], path[|path| - 1];
      LetterIsStep(maze, p, q);
      WalkExtend(maze, path[0], MovesOf(front), p, Letter(p, q)[0]);
      assert Letter(p, q) == [Letter(p, q)[0]];
    }
  }

  // ---- the priority queue: a multiset whose least element is taken ----

  lemma AtMostTransitive(a: Entry, b: Entry, c: Entry)
    requires AtMost(a, b) && AtMost(b, c)
    ensures AtMost(a, c)
  {
  }

  ghost predicate IsLeast(e: Entry, open: set<Entry>) {
    e in open && forall x :: x in open ==> AtMost(e, x)
  }

  lemma {:induction false} LeastExists(open: set<Entry>) returns (best: Entry)
    requires open != {}
    ensures IsLeast(best, open)
    decreases |open|
  {
    var e :| e in open;
    var rest := open - {e};
    best := e;
    if rest != {} {
      var least := LeastExists(rest);
      best := if AtMost(e, least) then e else least;
      forall x | x in open ensures AtMost(best, x) {
        if x != e {
          assert x in rest && AtMost(least, x);
          if best == e {
            AtMostTransitive(e, least, x);
          }
        }
      }
    } else {
      assert open == {e};
    }
  }

  method HeapPop(open: multiset<Entry>) returns (e: Entry, rest: multiset<Entry>)
    requires open != multiset{}
    ensures e in open && rest == open - multiset{e}
    ensures forall x :: x in open ==> AtMost(e, x)
  {
    ghost var some :| some in open;
    ghost var entries := set x | x in open;
    assert some in entries;
    ghost var least := LeastExists(entries);
    e :| e in open && forall x :: x in open ==> AtMost(e, x);
    rest := open - multiset{e};
  }

  method GetNeighbors(maze: Grid, p: Pos) returns (neighbors: seq<Pos>)
    requires Rectangular(maze)
    ensures forall q :: q in neighbors <==> Adjacent(maze, p, q)
  {
    var directions := [(0, 1), (0, -1), (1, 0), (-1, 0)];
    neighbors := [];
    for i := 0 to |directions|
      invariant forall q :: q in neighbors <==>
        Passable(maze, q) && exists d :: d in directions[..i] && q == Pos(p.x + d.0, p.y + d.1)
    {
      var q := Pos(p.x + directions[i].0, p.y + directions[i].1);
      assert directions[..i + 1] == directions[..i] + [directions[i]];
      if Passable(maze, q) {
        neighbors := neighbors + [q];
      }
    }
    forall q ensures q in neighbors <==> Adjacent(maze, p, q) {
      assert directions[..|directions|] == directions;
      assert directions[0] == (0, 1) && directions[1] == (0, -1) && directions[2] == (1, 0) && directions[3] == (-1, 0);
      assert Beside(p, q) <==> exists d :: d in directions && q == Pos(p.x + d.0, p.y + d.1);
    }
  }

  // ---- the search ----

  /** The variables of the search loop. */
  datatype Search = Search(open: multiset<Entry>, closed: set<Pos>, parent: map<Pos, Pos>, cost: map<Pos, int>)

  /** No route to p is shorter than n. */
  ghost predicate NoShorter(maze: Grid, start: Pos, p: Pos, n: int)
    requires Rectangular(maze)
  {
    forall moves :: Route(maze, start, p, moves) ==> |moves| >= n
  }

  /** Every discovered cell has its cost from a closed parent. */
  ghost predicate CostsFollowParents(maze: Grid, start: Pos, s: Search)
    requires Rectangular(maze)
  {
    && start in s.cost && s.cost[start] == 0 && Passable(maze, start)
    && forall p :: p in s.cost && p != start ==>
         && p in s.parent && s.parent[p] in s.closed && s.parent[p] in s.cost
         && Adjacent(maze, s.parent[p], p) && s.cost[p] == s.cost[s.parent[p]] + 1
  }

  ghost predicate CostsNatural(s: Search) {
    forall p :: p in s.cost ==> s.cost[p] >= 0
  }

  function Toward(exit: Pos): Pos -> int {
    p => Heuristic(p, exit)
  }

  /** Discovered = open or closed; no queue entry promises less than its cell's cost, except the start's 0. */
  ghost predicate QueueMatches(start: Pos, h: Pos -> int, s: Search) {
    && s.closed <= s.cost.Keys
    && (forall e :: e in s.open ==> e.pos in s.cost && (e.pos == start || e.priority >= s.cost[e.pos] + h(e.pos)))
    && forall p :: p in s.cost && p !in s.closed ==> Queued(s, p, s.cost[p] + h(p))
  }

  ghost predicate Queued(s: Search, p: Pos, bound: int) {
    exists e :: e in s.open && e.pos == p && e.priority <= bound
  }

  ghost predicate ClosedOptimal(maze: Grid, start: Pos, s: Search)
    requires Rectangular(maze) && s.closed <= s.cost.Keys
  {
    forall p :: p in s.closed ==> NoShorter(maze, start, p, s.cost[p])
  }

  predicate Within(s: Search, p: Pos, bound: int) {
    p in s.cost && s.cost[p] <= bound
  }

  /** All neighbours of a closed cell were considered. */
  ghost predicate Expanded(maze: Grid, s: Search, p: Pos)
    requires Rectangular(maze) && p in s.cost
  {
    forall q :: Adjacent(maze, p, q) ==> Within(s, q, s.cost[p] + 1)
  }

  /** Costs only fall, and stay for closed cells. */
  ghost predicate Improves(s: Search, t: Search)
    requires s.closed <= s.cost.Keys
  {
    && t.closed == s.closed
    && (forall p :: p in s.cost ==> p in t.cost && t.cost[p] <= s.cost[p])
    && forall p :: p in s.closed ==> t.cost[p] == s.cost[p]
  }

  ghost predicate Invariant(maze: Grid, start: Pos, exit: Pos, h: Pos -> int, s: Search)
    requires Rectangular(maze)
  {
    && CostsFollowParents(maze, start, s)
    && CostsNatural(s)
    && QueueMatches(start, h, s)
    && ClosedOptimal(maze, start, s)
    && exit !in s.closed
  }

  ghost predicate AllExpanded(maze: Grid, s: Search, except: set<Pos>)
    requires Rectangular(maze) && s.closed <= s.cost.Keys
  {
    forall p :: p in s.closed && p !in except ==> Expanded(maze, s, p)
  }

  /** Along any route the heuristic drops by at most its length. */
  ghost predicate Consistent(maze: Grid, h: Pos -> int)
    requires Rectangular(maze)
  {
    forall p, q, moves :: Route(maze, p, q, moves) ==> h(p) <= |moves| + h(q)
  }

  lemma {:induction false} ManhattanAlongRoute(maze: Grid, p: Pos, q: Pos, exit: Pos, moves: string)
    requires Rectangular(maze) && Route(maze, p, q, moves)
    ensures Heuristic(p, exit) <= |moves| + Heuristic(q, exit)
    decreases |moves|
  {
    if moves != "" {
      var front := moves[..|moves| - 1];
      ManhattanAlongRoute(maze, p, Walk(maze, p, front).value, exit, front);
    }
  }

  /** In a maze without walls the heuristic is attained: it is the length of a shortest route. */
  lemma {:induction false} ManhattanAttained(maze: Grid, p: Pos, exit: Pos) returns (moves: string)
    requires Rectangular(maze) && InGrid(maze, p) && InGrid(maze, exit) && forall q :: InGrid(maze, q) ==> Passable(maze, q)
    ensures Route(maze, p, exit, moves) && |moves| == Heuristic(p, exit)
    ensures forall other :: Route(maze, p, exit, other) ==> |other| >= |moves|
    decreases Heuristic(p, exit)
  {
    moves := "";
    if p != exit {
      var move := if exit.x > p.x then 'D' else if exit.x < p.x then 'A' else if exit.y > p.y then 'S' else 'W';
      var before := if move == 'D' then Pos(exit.x - 1, exit.y) else if move == 'A' then Pos(exit.x + 1, exit.y)
                    else if move == 'S' then Pos(exit.x, exit.y - 1) else Pos(exit.x, exit.y + 1);
      var front := ManhattanAttained(maze, p, before);
      WalkExtend(maze, p, front, before, move);
      moves := front + [move];
    }
    forall other | Route(maze, p, exit, other) ensures |other| >= |moves| {
      ManhattanAlongRoute(maze, p, exit, exit, other);
    }
  }

  lemma ManhattanConsistent(maze: Grid, exit: Pos)
    requires Rectangular(maze)
    ensures Consistent(maze, Toward(exit))
  {
    forall p, q, moves | Route(maze, p, q, moves)
      ensures Toward(exit)(p) <= |moves| + Toward(exit)(q)
    {
      ManhattanAlongRoute(maze, p, q, exit, moves);
    }
  }

  /** The recorded cost of a discovered cell is the length of a real route. */
  lemma {:induction false} CostIsAttained(maze: Grid, start: Pos, s: Search, p: Pos) returns (moves: string)
    requires Rectangular(maze) && CostsFollowParents(maze, start, s) && CostsNatural(s) && p in s.cost
    ensures Route(maze, start, p, moves) && |moves| == s.cost[p]
    decreases s.cost[p]
  {
    if p == start {
      moves := "";
    } else {
      var front := CostIsAttained(maze, start, s, s.parent[p]);
      LetterIsStep(maze, s.parent[p], p);
      var move := Letter(s.parent[p], p)[0];
      WalkExtend(maze, start, front, s.parent[p], move);
      moves := front + [move];
    }
  }

  /** The route is u, then v; u ends in a discovered cell q that is still open and costs no more than u. */
  ghost predicate CrossesFrontier(maze: Grid, start: Pos, s: Search, to: Pos, moves: string, u: string, v: string, q: Pos)
    requires Rectangular(maze)
  {
    && moves == u + v && Route(maze, start, q, u) && Route(maze, q, to, v)
    && q in s.cost && q !in s.closed && s.cost[q] <= |u|
  }

  lemma FrontierExtends(maze: Grid, start: Pos, s: Search, p: Pos, front: string, u: string, v: string, q: Pos, move: char)
    requires Rectangular(maze) && CrossesFrontier(maze, start, s, p, front, u, v, q)
    requires IsMove(move) && Passable(maze, Moved(p, move))
    ensures CrossesFrontier(maze, start, s, Moved(p, move), front + [move], u, v + [move], q)
  {
    WalkExtend(maze, q, v, p, move);
    assert u + v + [move] == u + (v + [move]);
  }

  /** Along any route either its end is closed at no more than the route's length, or the route
      crosses a discovered cell that is still open and whose cost is no more than the way there. */
  lemma {:induction false} ClosedOrFrontier(maze: Grid, start: Pos, s: Search, to: Pos, moves: string)
    returns (u: string, v: string, q: Pos)
    requires Rectangular(maze) && CostsFollowParents(maze, start, s) && s.closed <= s.cost.Keys
    requires AllExpanded(maze, s, {})
    requires Route(maze, start, to, moves)
    ensures (to in s.closed && s.cost[to] <= |moves|) || CrossesFrontier(maze, start, s, to, moves, u, v, q)
    decreases |moves|
  {
    u, v, q := moves, "", to;
    assert moves == u + v;
    if moves != "" {
      var front, move := moves[..|moves| - 1], moves[|moves| - 1];
      var p := Walk(maze, start, front).value;
      assert moves == front + [move];
      var fu, fv, fq := ClosedOrFrontier(maze, start, s, p, front);
      if p in s.closed && s.cost[p] <= |front| {
        assert Adjacent(maze, p, to) && Expanded(maze, s, p) && Within(s, to, s.cost[p] + 1);
      } else {
        FrontierExtends(maze, start, s, p, front, fu, fv, fq, move);
        u, v, q := fu, fv + [move], fq;
      }
    }
  }

  /** Main step: the cell popped first time has its final cost, although stale entries stay in the queue. */
  lemma PoppedIsOptimal(maze: Grid, start: Pos, exit: Pos, h: Pos -> int, s: Search, e: Entry)
    requires Rectangular(maze) && Invariant(maze, start, exit, h, s) && AllExpanded(maze, s, {})
    requires Consistent(maze, h)
    requires e in s.open && forall x :: x in s.open ==> AtMost(e, x)
    ensures NoShorter(maze, start, e.pos, s.cost[e.pos])
  {
    var p := e.pos;
    forall moves | Route(maze, start, p, moves)
      ensures |moves| >= s.cost[p]
    {
      if p != start && p !in s.closed {
        var u, v, q := ClosedOrFrontier(maze, start, s, p, moves);
        assert h(q) <= |v| + h(p);
        assert Queued(s, q, s.cost[q] + h(q));
      }
    }
  }

  /** With an empty queue nothing but closed cells can be reached. */
  lemma ExhaustedMeansNoRoute(maze: Grid, start: Pos, exit: Pos, h: Pos -> int, s: Search, moves: string)
    requires Rectangular(maze) && Invariant(maze, start, exit, h, s) && AllExpanded(maze, s, {})
    requires s.open == multiset{}
    ensures !Route(maze, start, exit, moves)
  {
    assert forall q, bound :: !Queued(s, q, bound);
    if Route(maze, start, exit, moves) {
      var u, v, q := ClosedOrFrontier(maze, start, s, exit, moves);
    }
  }

  /** The queue entry, cost and parent that a cheaper way to n gets. */
  function Pushed(s: Search, current: Pos, n: Pos, h: Pos -> int): Search
    requires current in s.cost
  {
    var newCost := s.cost[current] + 1;
    Search(s.open + multiset{Entry(newCost + h(n), n)}, s.closed, s.parent[n := current], s.cost[n := newCost])
  }

  /** The body of the for loop over the neighbours of `current`. */
  method Relax(maze: Grid, start: Pos, exit: Pos, h: Pos -> int, current: Pos, neighbor: Pos, s: Search) returns (t: Search)
    requires Rectangular(maze) && Invariant(maze, start, exit, h, s)
    requires current in s.closed && Adjacent(maze, current, neighbor)
    ensures Invariant(maze, start, exit, h, t) && Improves(s, t)
    ensures Within(t, neighbor, t.cost[current] + 1)
    ensures Within(s, neighbor, s.cost[current] + 1) ==> t == s
  {
    t := s;
    if neighbor in s.closed {
      ClosedNeighborIsCheap(maze, start, exit, h, s, current, neighbor);
      return;
    }
    var newCost := s.cost[current] + 1;
    OpenIffDiscovered(start, h, s, neighbor);
    if !InOpen(s.open, neighbor) || newCost < s.cost[neighbor] {
      t := Pushed(s, current, neighbor, h);
      PushKeepsInvariant(maze, start, exit, h, s, t, current, neighbor);
    }
  }

  lemma PushKeepsInvariant(maze: Grid, start: Pos, exit: Pos, h: Pos -> int, s: Search, t: Search, current: Pos, n: Pos)
    requires Rectangular(maze) && Invariant(maze, start, exit, h, s)
    requires current in s.closed && n !in s.closed && Adjacent(maze, current, n)
    requires n in s.cost ==> s.cost[current] + 1 < s.cost[n]
    requires t == Pushed(s, current, n, h)
    ensures Invariant(maze, start, exit, h, t) && Improves(s, t)
    ensures Within(t, n, t.cost[current] + 1)
  {
    assert QueueMatches(start, h, t) by {
      PushKeepsQueue(start, h, s, t, current, n);
    }
    assert CostsFollowParents(maze, start, t) && CostsNatural(t) && ClosedOptimal(maze, start, t) by {
      PushKeepsCosts(maze, start, h, s, t, current, n);
    }
    PushImproves(h, s, t, current, n);
  }

  lemma PushImproves(h: Pos -> int, s: Search, t: Search, current: Pos, n: Pos)
    requires s.closed <= s.cost.Keys && current in s.closed && n !in s.closed
    requires n in s.cost ==> s.cost[current] + 1 < s.cost[n]
    requires t == Pushed(s, current, n, h)
    ensures Improves(s, t) && current in t.cost && Within(t, n, t.cost[current] + 1)
  {
  }

  predicate InOpen(open: multiset<Entry>, p: Pos) {
    exists e :: e in open && e.pos == p
  }

  lemma OpenIffDiscovered(start: Pos, h: Pos -> int, s: Search, p: Pos)
    requires QueueMatches(start, h, s) && p !in s.closed
    ensures InOpen(s.open, p) <==> p in s.cost
  {
    assert p in s.cost ==> Queued(s, p, s.cost[p] + h(p));
  }

  lemma PushKeepsCosts(maze: Grid, start: Pos, h: Pos -> int, s: Search, t: Search, current: Pos, n: Pos)
    requires Rectangular(maze) && CostsFollowParents(maze, start, s) && CostsNatural(s)
    requires s.closed <= s.cost.Keys && ClosedOptimal(maze, start, s)
    requires current in s.closed && n !in s.closed && Adjacent(maze, current, n)
    requires n in s.cost ==> s.cost[current] + 1 < s.cost[n]
    requires t == Pushed(s, current, n, h)
    ensures t.closed <= t.cost.Keys && CostsFollowParents(maze, start, t) && CostsNatural(t) && ClosedOptimal(maze, start, t)
  {
    assert n != start;
  }

  lemma PushKeepsQueue(start: Pos, h: Pos -> int, s: Search, t: Search, current: Pos, n: Pos)
    requires QueueMatches(start, h, s) && current in s.cost && n !in s.closed
    requires n in s.cost ==> s.cost[current] + 1 < s.cost[n]
    requires t == Pushed(s, current, n, h)
    ensures QueueMatches(start, h, t)
  {
    var added := Entry(s.cost[current] + 1 + h(n), n);
    assert added in t.open;
    forall p | p in t.cost && p !in t.closed
      ensures Queued(t, p, t.cost[p] + h(p))
    {
      if p != n {
        assert Queued(s, p, s.cost[p] + h(p));
        QueuedStill(s, t, p, s.cost[p] + h(p));
      }
    }
    forall e | e in t.open
      ensures e.pos in t.cost && (e.pos == start || e.priority >= t.cost[e.pos] + h(e.pos))
    {
      assert e == added || e in s.open;
    }
  }

  lemma QueuedStill(s: Search, t: Search, p: Pos, bound: int)
    requires Queued(s, p, bound) && forall e :: e in s.open && e.pos == p ==> e in t.open
    ensures Queued(t, p, bound)
  {
  }

  lemma ClosedNeighborIsCheap(maze: Grid, start: Pos, exit: Pos, h: Pos -> int, s: Search, p: Pos, q: Pos)
    requires Rectangular(maze) && Invariant(maze, start, exit, h, s)
    requires p in s.cost && q in s.closed && Adjacent(maze, p, q)
    ensures s.cost[q] <= s.cost[p] + 1
  {
    var front := CostIsAttained(maze, start, s, p);
    LetterIsStep(maze, p, q);
    var move := Letter(p, q)[0];
    WalkExtend(maze, start, front, p, move);
    assert Route(maze, start, q, front + [move]);
  }

  /** The neighbours looked at so far are within one step of `current`. */
  ghost predicate Covers(s: Search, current: Pos, neighbors: seq<Pos>)
    requires current in s.cost
  {
    forall q :: q in neighbors ==> Within(s, q, s.cost[current] + 1)
  }

  /** The for loop: after it `current` is expanded; if it was already, nothing was pushed. */
  method Expand(maze: Grid, start: Pos, exit: Pos, h: Pos -> int, current: Pos, s: Search) returns (t: Search)
    requires Rectangular(maze) && Invariant(maze, start, exit, h, s)
    requires current in s.closed && AllExpanded(maze, s, {current})
    ensures Invariant(maze, start, exit, h, t) && AllExpanded(maze, t, {})
    ensures t.closed == s.closed
    ensures Expanded(maze, s, current) ==> t == s
  {
    var neighbors := GetNeighbors(maze, current);
    t := s;
    for i := 0 to |neighbors|
      invariant Invariant(maze, start, exit, h, t) && Improves(s, t)
      invariant Covers(t, current, neighbors[..i])
      invariant Expanded(maze, s, current) ==> t == s
    {
      assert neighbors[i] in neighbors;
      ghost var before := t;
      t := Relax(maze, start, exit, h, current, neighbors[i], t);
      CoversNext(before, t, current, neighbors, i);
      ImprovesTransitive(s, before, t);
    }
    assert neighbors[..|neighbors|] == neighbors;
    ExpandedKept(maze, s, t, current, neighbors);
  }

  lemma ImprovesTransitive(s: Search, t: Search, u: Search)
    requires s.closed <= s.cost.Keys && t.closed <= t.cost.Keys && Improves(s, t) && Improves(t, u)
    ensures Improves(s, u)
  {
  }

  lemma CoversNext(s: Search, t: Search, current: Pos, neighbors: seq<Pos>, i: nat)
    requires i < |neighbors| && current in s.closed && s.closed <= s.cost.Keys && Improves(s, t)
    requires Covers(s, current, neighbors[..i]) && Within(t, neighbors[i], t.cost[current] + 1)
    ensures Covers(t, current, neighbors[..i + 1])
  {
    var seen := neighbors[..i + 1];
    forall q | q in seen ensures Within(t, q, t.cost[current] + 1) {
      if q != neighbors[i] {
        assert q in neighbors[..i];
        assert Within(s, q, s.cost[current] + 1);
      }
    }
  }

  lemma ExpandedKept(maze: Grid, s: Search, t: Search, current: Pos, neighbors: seq<Pos>)
    requires Rectangular(maze) && s.closed <= s.cost.Keys && t.closed <= t.cost.Keys && current in s.closed
    requires AllExpanded(maze, s, {current}) && Improves(s, t) && Covers(t, current, neighbors)
    requires forall q :: q in neighbors <==> Adjacent(maze, current, q)
    ensures AllExpanded(maze, t, {})
  {
    forall p, q | p in t.closed && Adjacent(maze, p, q) ensures Within(t, q, t.cost[p] + 1) {
      if p != current {
        assert Expanded(maze, s, p);
        assert Within(s, q, s.cost[p] + 1);
      }
    }
  }

  function Reversed(path: seq<Pos>): (r: seq<Pos>)
    ensures |r| == |path| && forall i :: 0 <= i < |path| ==> r[i] == path[|path| - 1 - i]
  {
    seq(|path|, i requires 0 <= i < |path| => path[|path| - 1 - i])
  }

  /** Follows the parents back from the exit. */
  method ParentChain(maze: Grid, start: Pos, exit: Pos, s: Search) returns (path: seq<Pos>)
    requires Rectangular(maze) && CostsFollowParents(maze, start, s) && CostsNatural(s) && exit in s.cost
    ensures |path| == s.cost[exit] + 1 && path[0] == exit && path[|path| - 1] == start
    ensures forall i :: 1 <= i < |path| ==> Adjacent(maze, path[i], path[i - 1])
  {
    path := [exit];
    while path[|path| - 1] != start
      invariant |path| > 0 && path[0] == exit
      invariant path[|path| - 1] in s.cost && s.cost[path[|path| - 1]] == s.cost[exit] - (|path| - 1)
      invariant forall i :: 1 <= i < |path| ==> Adjacent(maze, path[i], path[i - 1])
      decreases s.cost[path[|path| - 1]]
    {
      path := path + [s.parent[path[|path| - 1]]];
    }
  }

  lemma ReversedChain(maze: Grid, path: seq<Pos>)
    requires Rectangular(maze) && |path| > 0
    requires forall i :: 1 <= i < |path| ==> Adjacent(maze, path[i], path[i - 1])
    ensures Chain(maze, Reversed(path))
  {
    var r := Reversed(path);
    forall i | 1 <= i < |r| ensures Adjacent(maze, r[i - 1], r[i]) {
      assert Adjacent(maze, path[|path| - i], path[|path| - i - 1]);
    }
  }

  /** A shortest route, then a line end. */
  ghost predicate IsBestAnswer(maze: Grid, start: Pos, exit: Pos, answer: string)
    requires Rectangular(maze)
  {
    && |answer| > 0 && answer[|answer| - 1] == '\n'
    && Route(maze, start, exit, answer[..|answer| - 1])
    && NoShorter(maze, start, exit, |answer| - 1)
  }

  /** Writes the route to the exit as moves. */
  method ReadBack(maze: Grid, start: Pos, exit: Pos, s: Search) returns (moves: string)
    requires Rectangular(maze) && CostsFollowParents(maze, start, s) && CostsNatural(s) && exit in s.cost
    requires NoShorter(maze, start, exit, s.cost[exit])
    ensures IsBestAnswer(maze, start, exit, moves)
  {
    var path := ParentChain(maze, start, exit, s);
    ReversedChain(maze, path);
    path := Reversed(path);
    ChainReplays(maze, path);
    moves := PathToMoves(path);
    assert moves[..|moves| - 1] == MovesOf(path);
  }

  method FindMarks(maze: Grid) returns (start: Option<Pos>, exit: Option<Pos>)
    requires Rectangular(maze)
    ensures start == Last(maze, '*') && exit == Last(maze, 'E')
  {
    start, exit := None, None;
    for y := 0 to |maze|
      invariant start == LastBefore(maze, '*', 0, y) && exit == LastBefore(maze, 'E', 0, y)
    {
      for x := 0 to |maze[0]|
        invariant start == LastBefore(maze, '*', x, y) && exit == LastBefore(maze, 'E', x, y)
      {
        if maze[y][x] == '*' {
          start := Some(Pos(x, y));
        } else if maze[y][x] == 'E' {
          exit := Some(Pos(x, y));
        }
      }
    }
  }

  /** One turn of the search loop. Either the popped cell is the exit, with its final cost, or a new cell
      is closed, or the popped entry was stale and only the queue shrinks. */
  method Turn(maze: Grid, start: Pos, exit: Pos, h: Pos -> int, s: Search) returns (found: bool, t: Search)
    requires Rectangular(maze) && Invariant(maze, start, exit, h, s) && AllExpanded(maze, s, {})
    requires Consistent(maze, h)
    requires s.open != multiset{}
    ensures found ==> exit in s.cost && NoShorter(maze, start, exit, s.cost[exit])
    ensures !found ==> Invariant(maze, start, exit, h, t) && AllExpanded(maze, t, {}) && Advances(maze, s, t)
  {
    var current, rest := HeapPop(s.open);
    PoppedIsOptimal(maze, start, exit, h, s, current);
    found, t := current.pos == exit, s;
    if !found {
      t := Close(maze, start, exit, h, s, current, rest);
    }
  }

  /** A new cell of the grid is closed, or only the queue shrinks. */
  ghost predicate Advances(maze: Grid, s: Search, t: Search)
    requires Rectangular(maze)
  {
    && s.closed <= t.closed
    && (if t.closed == s.closed then |t.open| == |s.open| - 1 else t.closed - s.closed <= Cells(maze))
  }

  /** The rest of a turn for a cell that is not the exit: it is closed and its neighbours are looked at. */
  method Close(maze: Grid, start: Pos, exit: Pos, h: Pos -> int, s: Search, current: Entry, rest: multiset<Entry>)
    returns (t: Search)
    requires Rectangular(maze) && Invariant(maze, start, exit, h, s) && AllExpanded(maze, s, {})
    requires current in s.open && rest == s.open - multiset{current}
    requires current.pos != exit && NoShorter(maze, start, current.pos, s.cost[current.pos])
    ensures Invariant(maze, start, exit, h, t) && AllExpanded(maze, t, {}) && Advances(maze, s, t)
  {
    t := Search(rest, s.closed + {current.pos}, s.parent, s.cost);
    PopKeepsInvariant(maze, start, exit, h, s, t, current);
    ghost var popped := t;
    t := Expand(maze, start, exit, h, current.pos, t);
    PoppedAdvances(maze, s, popped, t, current);
  }

  lemma PoppedAdvances(maze: Grid, s: Search, popped: Search, t: Search, current: Entry)
    requires Rectangular(maze) && Passable(maze, current.pos) && current in s.open
    requires popped.open == s.open - multiset{current} && popped.closed == s.closed + {current.pos} == t.closed
    requires current.pos in s.closed ==> t == popped
    ensures Advances(maze, s, t)
  {
    assert current.pos in Cells(maze);
  }

  /** Optimal and complete. None stands for the empty list, which means that a mark is missing or that
      no route exists. */
  method SolveMazeWithAStar(maze: Grid) returns (moves: Option<string>)
    requires Rectangular(maze)
    ensures moves.Some? ==>
      && Last(maze, '*').Some? && Last(maze, 'E').Some?
      && IsBestAnswer(maze, Last(maze, '*').value, Last(maze, 'E').value, moves.value)
    ensures moves.None? && Last(maze, '*').Some? && Last(maze, 'E').Some? ==>
      forall route :: !Route(maze, Last(maze, '*').value, Last(maze, 'E').value, route)
  {
    var startMark, exitMark := FindMarks(maze);
    if startMark.None? || exitMark.None? {
      return None;
    }
    LastIsMark(maze, '*');
    LastIsMark(maze, 'E');
    var start, exit := startMark.value, exitMark.value;
    var h := Toward(exit);
    ManhattanConsistent(maze, exit);

    var s := Search(multiset{Entry(0, start)}, {}, map[], map[start := 0]);
    StartsRight(maze, start, exit, h, s);
    while s.open != multiset{}
      invariant Invariant(maze, start, exit, h, s) && AllExpanded(maze, s, {})
      decreases Cells(maze) - s.closed, |s.open|
    {
      var found, next := Turn(maze, start, exit, h, s);
      if found {
        var answer := ReadBack(maze, start, exit, s);
        return Some(answer);
      }
      s := next;
    }
    forall route ensures !Route(maze, start, exit, route) {
      ExhaustedMeansNoRoute(maze, start, exit, h, s, route);
    }
    return None;
  }

  lemma StartsRight(maze: Grid, start: Pos, exit: Pos, h: Pos -> int, s: Search)
    requires Rectangular(maze) && InGrid(maze, start) && maze[start.y][start.x] == '*'
    requires h(start) >= 0 && s == Search(multiset{Entry(0, start)}, {}, map[], map[start := 0])
    ensures Invariant(maze, start, exit, h, s) && AllExpanded(maze, s, {})
  {
    assert Entry(0, start) in s.open;
  }

  lemma PopKeepsInvariant(maze: Grid, start: Pos, exit: Pos, h: Pos -> int, s: Search, t: Search, e: Entry)
    requires Rectangular(maze) && Invariant(maze, start, exit, h, s) && AllExpanded(maze, s, {})
    requires e in s.open && e.pos != exit && NoShorter(maze, start, e.pos, s.cost[e.pos])
    requires t == Search(s.open - multiset{e}, s.closed + {e.pos}, s.parent, s.cost)
    ensures Invariant(maze, start, exit, h, t) && AllExpanded(maze, t, {e.pos})
    ensures e.pos in s.closed ==> Expanded(maze, t, e.pos)
    ensures Passable(maze, e.pos)
  {
    forall p | p in t.cost && p !in t.closed
      ensures Queued(t, p, t.cost[p] + h(p))
    {
      assert Queued(s, p, s.cost[p] + h(p));
      QueuedStill(s, t, p, s.cost[p] + h(p));
    }
    forall p, q | p in s.closed && Adjacent(maze, p, q)
      ensures Within(t, q, t.cost[p] + 1)
    {
      assert Expanded(maze, s, p);
      assert Within(s, q, s.cost[p] + 1);
    }
  }
}
