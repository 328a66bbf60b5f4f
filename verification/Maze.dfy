/** The grid of lab3/MazeSolver.py and what it means to walk in it. */
module Maze {
  import opened Wrappers

  datatype Pos = Pos(x: int, y: int)

  type Grid = seq<string>

  predicate Rectangular(maze: Grid) {
    |maze| > 0 && forall y :: 0 <= y < |maze| ==> |maze[y]| == |maze[0]|
  }

  predicate InGrid(maze: Grid, p: Pos)
    requires Rectangular(maze)
  {
    0 <= p.x < |maze[0]| && 0 <= p.y < |maze|
  }

  predicate Passable(maze: Grid, p: Pos)
    requires Rectangular(maze)
  {
    InGrid(maze, p) && maze[p.y][p.x] != '#'
  }

  predicate IsMove(move: char) {
    move == 'W' || move == 'A' || move == 'S' || move == 'D'
  }

  function Moved(p: Pos, move: char): Pos {
    match move
    case 'W' => Pos(p.x, p.y - 1)
    case 'S' => Pos(p.x, p.y + 1)
    case 'A' => Pos(p.x - 1, p.y)
    case 'D' => Pos(p.x + 1, p.y)
    case _ => p
  }

  /** Where a move string leads from `from`; None as soon as it names no direction or hits a wall. */
  function Walk(maze: Grid, from: Pos, moves: string): Option<Pos>
    requires Rectangular(maze)
  {
    if moves == "" then Some(from)
    else
      match Walk(maze, from, moves[..|moves| - 1])
      case None => None
      case Some(p) =>
        var move := moves[|moves| - 1];
        if IsMove(move) && Passable(maze, Moved(p, move)) then Some(Moved(p, move)) else None
  }

  ghost predicate Route(maze: Grid, from: Pos, to: Pos, moves: string)
    requires Rectangular(maze)
  {
    Walk(maze, from, moves) == Some(to)
  }

  /** One move apart. */
  predicate Beside(p: Pos, q: Pos) {
    || (p.x == q.x && (q.y == p.y + 1 || q.y == p.y - 1))
    || (p.y == q.y && (q.x == p.x + 1 || q.x == p.x - 1))
  }

  ghost predicate Adjacent(maze: Grid, p: Pos, q: Pos)
    requires Rectangular(maze)
  {
    Passable(maze, q) && Beside(p, q)
  }

  lemma WalkExtend(maze: Grid, start: Pos, front: string, p: Pos, move: char)
    requires Rectangular(maze) && Route(maze, start, p, front)
    requires IsMove(move) && Passable(maze, Moved(p, move))
    ensures Route(maze, start, Moved(p, move), front + [move])
  {
    assert (front + [move])[..|front|] == front;
  }

  /** The letters: D is to the right, S is down; A and W lead back. */
  lemma LettersLead(maze: Grid)
    requires maze == ["..", "#."]
    ensures Rectangular(maze) && Route(maze, Pos(0, 0), Pos(1, 1), "DS") && Route(maze, Pos(1, 1), Pos(0, 0), "WA")
  {
    WalkExtend(maze, Pos(0, 0), "", Pos(0, 0), 'D');
    WalkExtend(maze, Pos(0, 0), "" + ['D'], Pos(1, 0), 'S');
    WalkExtend(maze, Pos(1, 1), "", Pos(1, 1), 'W');
    WalkExtend(maze, Pos(1, 1), "" + ['W'], Pos(1, 0), 'A');
    assert "" + ['D'] + ['S'] == "DS" && "" + ['W'] + ['A'] == "WA";
  }

  function Cells(maze: Grid): set<Pos>
    requires Rectangular(maze)
  {
    set x, y | 0 <= x < |maze[0]| && 0 <= y < |maze| :: Pos(x, y)
  }

  /** The last cell in row-major order, before (x, y), that holds `mark`. */
  function LastBefore(maze: Grid, mark: char, x: nat, y: nat): Option<Pos>
    requires Rectangular(maze) && y <= |maze| && x <= |maze[0]| && (y == |maze| ==> x == 0)
    decreases y, x
  {
    if x > 0 then
      if maze[y][x - 1] == mark then Some(Pos(x - 1, y)) else LastBefore(maze, mark, x - 1, y)
    else if y > 0 then LastBefore(maze, mark, |maze[0]|, y - 1)
    else None
  }

  predicate Before(p: Pos, x: nat, y: nat) {
    p.y < y || (p.y == y && p.x < x)
  }

  predicate IsMark(maze: Grid, mark: char, p: Pos)
    requires Rectangular(maze)
  {
    InGrid(maze, p) && maze[p.y][p.x] == mark
  }

  lemma {:induction false} LastBeforeIsLast(maze: Grid, mark: char, x: nat, y: nat)
    requires Rectangular(maze) && y <= |maze| && x <= |maze[0]| && (y == |maze| ==> x == 0)
    ensures match LastBefore(maze, mark, x, y)
            case None => forall p :: IsMark(maze, mark, p) ==> !Before(p, x, y)
            case Some(q) =>
              && IsMark(maze, mark, q) && Before(q, x, y)
              && forall p :: IsMark(maze, mark, p) && Before(p, x, y) ==> p == q || Before(p, q.x, q.y)
    decreases y, x
  {
    if x > 0 {
      if maze[y][x - 1] != mark {
        LastBeforeIsLast(maze, mark, x - 1, y);
        assert forall p :: IsMark(maze, mark, p) && Before(p, x, y) ==> Before(p, x - 1, y);
      }
    } else if y > 0 {
      LastBeforeIsLast(maze, mark, |maze[0]|, y - 1);
      assert forall p :: IsMark(maze, mark, p) && Before(p, x, y) ==> Before(p, |maze[0]|, y - 1);
    }
  }

  /** The scan of the whole grid: the last cell holding `mark`. */
  function Last(maze: Grid, mark: char): Option<Pos>
    requires Rectangular(maze)
  {
    LastBefore(maze, mark, 0, |maze|)
  }

  lemma LastIsMark(maze: Grid, mark: char)
    requires Rectangular(maze)
    ensures Last(maze, mark).Some? ==> IsMark(maze, mark, Last(maze, mark).value)
  {
    LastBeforeIsLast(maze, mark, 0, |maze|);
  }
}
