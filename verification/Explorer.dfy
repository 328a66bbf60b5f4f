/** lab3/lab3_4.py: depth-first search with an explicit stack in a maze that is only partly known. Unknown
    cells are blanks. Rows of the source are `y` here and columns are `x`. */
module Explorer {
  import opened Wrappers
  import opened Maze

  datatype Entry = Entry(pos: Pos, path: string)

  function CellAt(maze: Grid, p: Pos): char
    requires Rectangular(maze) && InGrid(maze, p)
  {
    maze[p.y][p.x]
  }

  /** The maze as far as the search walks in it: exits end the search and unknown cells stop it. */
  function Searchable(maze: Grid): (walked: Grid)
    requires Rectangular(maze)
    ensures Rectangular(walked) && |walked| == |maze| && |walked[0]| == |maze[0]|
    ensures forall p :: Passable(walked, p) <==> Passable(maze, p) && CellAt(maze, p) != 'E' && CellAt(maze, p) != ' '
  {
    seq(|maze|, y requires 0 <= y < |maze| =>
      seq(|maze[0]|, x requires 0 <= x < |maze[0]| =>
        if maze[y][x] == 'E' || maze[y][x] == ' ' then '#' else maze[y][x]))
  }

  /** No walk of the search comes to the edge, so it looks at no cell outside the grid. */
  ghost predicate OffBorder(maze: Grid, start: Pos)
    requires Rectangular(maze)
  {
    forall p, moves :: Route(Searchable(maze), start, p, moves) ==> Interior(maze, p)
  }

  /** A maze that fills in the unknown cells in some way. */
  ghost predicate Completion(maze: Grid, full: Grid)
    requires Rectangular(maze)
  {
    && Rectangular(full) && |full| == |maze| && |full[0]| == |maze[0]|
    && forall p :: InGrid(maze, p) && CellAt(maze, p) != ' ' ==> CellAt(full, p) == CellAt(maze, p)
  }

  /** A route whatever the unknown cells turn out to be. */
  ghost predicate SureRoute(maze: Grid, from: Pos, to: Pos, moves: string)
    requires Rectangular(maze)
  {
    forall full :: Completion(maze, full) ==> Route(full, from, to, moves)
  }

  lemma {:induction false} WiderRoute(narrow: Grid, wide: Grid, from: Pos, to: Pos, moves: string)
    requires Rectangular(narrow) && Rectangular(wide) && forall p :: Passable(narrow, p) ==> Passable(wide, p)
    requires Route(narrow, from, to, moves)
    ensures Route(wide, from, to, moves)
    decreases |moves|
  {
    if moves != "" {
      var front := moves[..|moves| - 1];
      WiderRoute(narrow, wide, from, Walk(narrow, from, front).value, front);
    }
  }

  lemma SearchedIsSure(maze: Grid, from: Pos, to: Pos, moves: string)
    requires Rectangular(maze) && Route(Searchable(maze), from, to, moves)
    ensures SureRoute(maze, from, to, moves)
  {
    forall full | Completion(maze, full) ensures Route(full, from, to, moves) {
      WiderRoute(Searchable(maze), full, from, to, moves);
    }
  }

  lemma SureToExit(maze: Grid, from: Pos, p: Pos, path: string, move: char)
    requires Rectangular(maze) && Route(Searchable(maze), from, p, path) && IsMove(move)
    requires IsMark(maze, 'E', Moved(p, move))
    ensures SureRoute(maze, from, Moved(p, move), path + [move])
  {
    SearchedIsSure(maze, from, p, path);
    forall full | Completion(maze, full) ensures Route(full, from, Moved(p, move), path + [move]) {
      assert CellAt(full, Moved(p, move)) == 'E';
      WalkExtend(full, from, path, p, move);
    }
  }

  /** A cell beside one that the search stands on is in the grid, and if the search can step there, it is off the
      edge again. */
  lemma NeighborInside(maze: Grid, start: Pos, p: Pos, path: string, move: char)
    requires Rectangular(maze) && OffBorder(maze, start) && Route(Searchable(maze), start, p, path) && IsMove(move)
    ensures Beside(p, Moved(p, move)) && InGrid(maze, Moved(p, move))
    ensures Passable(Searchable(maze), Moved(p, move)) ==>
      Route(Searchable(maze), start, Moved(p, move), path + [move]) && Interior(maze, Moved(p, move))
  {
    assert Interior(maze, p);
    if Passable(Searchable(maze), Moved(p, move)) {
      WalkExtend(Searchable(maze), start, path, p, move);
    }
  }

  predicate Interior(maze: Grid, p: Pos)
    requires Rectangular(maze)
  {
    0 < p.x < |maze[0]| - 1 && 0 < p.y < |maze| - 1
  }

  /** The mazes differ only in start marks that became roads. */
  ghost predicate SameButMarks(a: Grid, b: Grid)
    requires Rectangular(a)
  {
    && Rectangular(b) && |b| == |a| && |b[0]| == |a[0]|
    && forall p :: InGrid(a, p) ==> SameButMark(a, b, p)
  }

  ghost predicate SameButMark(a: Grid, b: Grid, p: Pos)
    requires Rectangular(a) && Rectangular(b) && InGrid(a, p) && InGrid(b, p)
  {
    CellAt(b, p) == CellAt(a, p) || (CellAt(a, p) == '*' && CellAt(b, p) == '.')
  }

  lemma MarkErased(a: Grid, b: Grid, p: Pos)
    requires Rectangular(a) && SameButMarks(a, b) && InGrid(b, p) && CellAt(b, p) == '*'
    ensures SameButMarks(a, b[p.y := b[p.y][p.x := '.']])
  {
    var c := b[p.y := b[p.y][p.x := '.']];
    assert forall y :: 0 <= y < |b| ==> |c[y]| == |b[y]|;
    forall q | InGrid(a, q) ensures SameButMark(a, c, q) {
      assert SameButMark(a, b, q);
    }
  }

  /** A cell from which the search has nothing left to do: not the exit, nothing unknown beside it, and every
      open neighbour found. */
  ghost predicate Finished(maze: Grid, found: set<Pos>, p: Pos)
    requires Rectangular(maze)
  {
    && InGrid(maze, p) && CellAt(maze, p) != 'E'
    && forall q :: Beside(p, q) ==> FinishedTowards(maze, found, q)
  }

  ghost predicate FinishedTowards(maze: Grid, found: set<Pos>, q: Pos)
    requires Rectangular(maze)
  {
    InGrid(maze, q) && CellAt(maze, q) != ' ' && CellAt(maze, q) != 'E' && (Passable(maze, q) ==> q in found)
  }

  ghost predicate Standing(maze: Grid, start: Pos, entry: Entry)
    requires Rectangular(maze)
  {
    Route(Searchable(maze), start, entry.pos, entry.path) && Interior(maze, entry.pos)
  }

  ghost predicate Stacked(maze: Grid, start: Pos, stack: seq<Entry>)
    requires Rectangular(maze)
  {
    forall i :: 0 <= i < |stack| ==> Standing(maze, start, stack[i])
  }

  ghost predicate OnStack(stack: seq<Entry>, p: Pos) {
    exists i :: 0 <= i < |stack| && stack[i].pos == p
  }

  /** Every cell found so far is finished or still on the stack. */
  ghost predicate Accounted(maze: Grid, start: Pos, stack: seq<Entry>, visited: set<Pos>, current: set<Pos>)
    requires Rectangular(maze)
  {
    && (forall p :: p in visited ==> Passable(maze, p))
    && forall p :: (p in visited || p == start) && p !in current ==>
         OnStack(stack, p) || Finished(maze, visited + {start}, p)
  }

  lemma {:induction false} ReachableIsFinished(maze: Grid, start: Pos, visited: set<Pos>, moves: string, p: Pos)
    requires Rectangular(maze) && Route(maze, start, p, moves)
    requires forall q :: q in visited || q == start ==> Finished(maze, visited + {start}, q)
    ensures Finished(maze, visited + {start}, p)
    decreases |moves|
  {
    if moves != "" {
      var front, move := moves[..|moves| - 1], moves[|moves| - 1];
      var q := Walk(maze, start, front).value;
      ReachableIsFinished(maze, start, visited, front, q);
      assert Beside(q, p) && FinishedTowards(maze, visited + {start}, p);
      assert p in visited + {start};
    }
  }

  class Explorer {
    var maze: Grid

    /** getPath. A path leads through cells known to be open: to the exit, or to a cell with an unknown neighbour.
        It is a route however the unknown cells turn out. None means that every reachable cell was looked at: no
        exit, and nothing unknown beside any of them. */
    method GetPath(start: Pos) returns (path: Option<string>, end: Pos, found: bool)
      requires Rectangular(maze) && OffBorder(maze, start)
      modifies this
      ensures SameButMarks(old(maze), maze)
      ensures path.Some? ==> Route(old(maze), start, end, path.value) && SureRoute(old(maze), start, end, path.value)
      ensures path.Some? && found ==> IsMark(old(maze), 'E', end)
      ensures path.Some? && !found ==> exists q :: Beside(end, q) && IsMark(old(maze), ' ', q)
      ensures path.None? ==> forall moves, p :: Route(old(maze), start, p, moves) ==>
        InGrid(old(maze), p) && CellAt(old(maze), p) != 'E' &&
        forall q :: Beside(p, q) ==> !IsMark(old(maze), 'E', q) && !IsMark(old(maze), ' ', q)
    {
      ghost var given := maze;
      var stack := [Entry(start, "")];
      var visited: set<Pos> := {};
      end := start;
      assert stack[0].pos == start && Standing(given, start, stack[0]) by {
        assert Route(Searchable(given), start, start, "");
      }
      while stack != []
        invariant SameButMarks(given, maze)
        invariant Stacked(given, start, stack) && Accounted(given, start, stack, visited, {})
        decreases Cells(given) - visited, |stack|
      {
        var entry := stack[|stack| - 1];
        var rest := stack[..|stack| - 1];
        end := entry.pos;
        assert Standing(given, start, entry) && SameButMark(given, maze, end);
        SearchedIsSure(given, start, end, entry.path);
        assert Completion(given, given);
        if maze[end.y][end.x] == 'E' {
          return Some(entry.path), end, true;
        }
        if maze[end.y][end.x] == '*' {
          MarkErased(given, maze, end);
          maze := maze[end.y := maze[end.y][end.x := '.']];
        }
        PopAccounts(given, start, stack, visited);
        var answer, at, exitSeen, newStack, newVisited := Look(given, start, entry, rest, visited);
        if answer.Some? {
          return answer, at, exitSeen;
        }
        stack, visited := newStack, newVisited;
      }
      forall moves, p | Route(given, start, p, moves)
        ensures InGrid(given, p) && CellAt(given, p) != 'E'
        ensures forall q :: Beside(p, q) ==> !IsMark(given, 'E', q) && !IsMark(given, ' ', q)
      {
        ReachableIsFinished(given, start, visited, moves, p);
      }
      return None, end, false;
    }

    /** The for loop over the four directions. */
    method Look(ghost given: Grid, start: Pos, entry: Entry, rest: seq<Entry>, seen: set<Pos>)
      returns (answer: Option<string>, at: Pos, exitSeen: bool, stack: seq<Entry>, visited: set<Pos>)
      requires Rectangular(given) && OffBorder(given, start) && SameButMarks(given, maze)
      requires Standing(given, start, entry) && CellAt(given, entry.pos) != 'E'
      requires Stacked(given, start, rest) && Accounted(given, start, rest, seen, {entry.pos})
      ensures answer.Some? ==> SureRoute(given, start, at, answer.value)
      ensures answer.Some? && exitSeen ==> IsMark(given, 'E', at)
      ensures answer.Some? && !exitSeen ==> exists q :: Beside(at, q) && IsMark(given, ' ', q)
      ensures answer.None? ==> Stacked(given, start, stack) && Accounted(given, start, stack, visited, {})
      ensures answer.None? ==> seen <= visited && (visited == seen ==> stack == rest)
    {
      var symbols := "WASD";
      answer, at, exitSeen, stack, visited := None, entry.pos, false, rest, seen;
      for i := 0 to |symbols|
        invariant answer.None? && at == entry.pos && !exitSeen
        invariant Stacked(given, start, stack) && Accounted(given, start, stack, visited, {entry.pos})
        invariant FinishedSides(given, visited + {start}, entry.pos, symbols[..i])
        invariant seen <= visited && (visited == seen ==> stack == rest)
      {
        var q := Moved(entry.pos, symbols[i]);
        NeighborInside(given, start, entry.pos, entry.path, symbols[i]);
        assert SameButMark(given, maze, q);
        if maze[q.y][q.x] == ' ' {
          SearchedIsSure(given, start, entry.pos, entry.path);
          answer := Some(entry.path);
          return;
        }
        if maze[q.y][q.x] == 'E' {
          SureToExit(given, start, entry.pos, entry.path, symbols[i]);
          return Some(entry.path + [symbols[i]]), q, true, stack, visited;
        }
        if InGrid(maze, q) && maze[q.y][q.x] != '#' && q !in visited {
          ghost var before := stack;
          visited := visited + {q};
          stack := stack + [Entry(q, entry.path + [symbols[i]])];
          PushAccounts(given, start, before, stack, visited, q, entry.pos);
          SidesGrow(given, visited - {q} + {start}, visited + {start}, entry.pos, symbols[..i]);
        }
        SideAdded(given, visited + {start}, entry.pos, symbols, i);
      }
      assert symbols[..|symbols|] == "WASD";
      AllSides(given, visited + {start}, entry.pos);
    }
  }

  ghost predicate FinishedSides(maze: Grid, found: set<Pos>, p: Pos, sides: string)
    requires Rectangular(maze)
  {
    forall j :: 0 <= j < |sides| ==> FinishedTowards(maze, found, Moved(p, sides[j]))
  }

  lemma SidesGrow(maze: Grid, a: set<Pos>, b: set<Pos>, p: Pos, sides: string)
    requires Rectangular(maze) && a <= b && FinishedSides(maze, a, p, sides)
    ensures FinishedSides(maze, b, p, sides)
  {
    forall j | 0 <= j < |sides| ensures FinishedTowards(maze, b, Moved(p, sides[j])) {
      assert FinishedTowards(maze, a, Moved(p, sides[j]));
    }
  }

  lemma SideAdded(maze: Grid, found: set<Pos>, p: Pos, symbols: string, i: nat)
    requires Rectangular(maze) && i < |symbols|
    requires FinishedSides(maze, found, p, symbols[..i]) && FinishedTowards(maze, found, Moved(p, symbols[i]))
    ensures FinishedSides(maze, found, p, symbols[..i + 1])
  {
    var sides := symbols[..i + 1];
    forall j | 0 <= j < |sides| ensures FinishedTowards(maze, found, Moved(p, sides[j])) {
      if j < i {
        assert sides[j] == symbols[..i][j];
      }
    }
  }

  lemma AllSides(maze: Grid, found: set<Pos>, p: Pos)
    requires Rectangular(maze) && FinishedSides(maze, found, p, "WASD") && InGrid(maze, p) && CellAt(maze, p) != 'E'
    ensures Finished(maze, found, p)
  {
    var sides := "WASD";
    forall q | Beside(p, q) ensures FinishedTowards(maze, found, q) {
      assert FinishedTowards(maze, found, Moved(p, sides[0])) && FinishedTowards(maze, found, Moved(p, sides[1]));
      assert FinishedTowards(maze, found, Moved(p, sides[2])) && FinishedTowards(maze, found, Moved(p, sides[3]));
    }
  }

  lemma PopAccounts(maze: Grid, start: Pos, stack: seq<Entry>, visited: set<Pos>)
    requires Rectangular(maze) && stack != [] && Accounted(maze, start, stack, visited, {})
    ensures Accounted(maze, start, stack[..|stack| - 1], visited, {stack[|stack| - 1].pos})
  {
    var rest, top := stack[..|stack| - 1], stack[|stack| - 1].pos;
    forall p | (p in visited || p == start) && p != top && !Finished(maze, visited + {start}, p)
      ensures OnStack(rest, p)
    {
      assert OnStack(stack, p);
      var i :| 0 <= i < |stack| && stack[i].pos == p;
      assert rest[i].pos == p;
    }
  }

  lemma PushAccounts(maze: Grid, start: Pos, before: seq<Entry>, after: seq<Entry>, visited: set<Pos>, q: Pos, current: Pos)
    requires Rectangular(maze) && q in visited && Passable(maze, q)
    requires Accounted(maze, start, before, visited - {q}, {current})
    requires |after| == |before| + 1 && after[..|before|] == before && after[|before|].pos == q
    ensures Accounted(maze, start, after, visited, {current})
  {
    forall p | (p in visited || p == start) && p != current
      ensures OnStack(after, p) || Finished(maze, visited + {start}, p)
    {
      if p == q {
        assert after[|before|].pos == p;
      } else if OnStack(before, p) {
        var i :| 0 <= i < |before| && before[i].pos == p;
        assert after[i].pos == p;
      } else {
        FinishedGrows(maze, visited - {q} + {start}, visited + {start}, p);
      }
    }
  }

  lemma FinishedGrows(maze: Grid, a: set<Pos>, b: set<Pos>, p: Pos)
    requires Rectangular(maze) && a <= b && Finished(maze, a, p)
    ensures Finished(maze, b, p)
  {
    forall q | Beside(p, q) ensures FinishedTowards(maze, b, q) {
      assert FinishedTowards(maze, a, q);
    }
  }
}
