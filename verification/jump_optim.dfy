/** The jump optimizer of the ComplX app: the least number of jumps a rabbit
    needs to get from one cell of a farm field to another, where every jump is
    one of the eight moves `(±p, ±q)`, `(±q, ±p)` and no cell is entered twice.

    The search is a depth-first walk with a visited grid that is marked before
    each recursive call and unmarked after it, and with branch-and-bound
    pruning once a route is known. The grid is threaded through the search as
    a value; the contracts state that it comes back as it went in.

    Cells are pairs `(x, y)`. The field size is `(rows, columns)`: the grid has
    `fieldSize.0` rows of `fieldSize.1` cells, while the move test bounds `x`
    by `fieldSize.1` and `y` by `fieldSize.0`. The model therefore requires a
    square field, on which both readings agree. */
module JumpOptim {
  import opened Wrappers

  type Cell = (int, int)

  datatype PendingJumpOptimizer = PendingJumpOptimizer(
    minJumps: Option<nat>, fieldSize: (nat, nat), jumpLength: (nat, nat), visited: seq<seq<bool>>)

  datatype ReadyJumpOptimizer = ReadyJumpOptimizer(
    minJumps: Option<nat>, fieldSize: (nat, nat), jumpLength: (nat, nat), visited: seq<seq<bool>>)

  datatype JumpError = OutsideField

  /** Which report text is chosen. */
  datatype JumpMessage = MinimumJumps(jumps: nat) | NotPossible

  /** A grid of `rows` rows of `cols` cells. */
  predicate GridShape(g: seq<seq<bool>>, rows: nat, cols: nat)
  {
    |g| == rows && forall x :: 0 <= x < rows ==> |g[x]| == cols
  }

  /** The grid has the field's shape, and the field is square. */
  predicate Shape(o: PendingJumpOptimizer)
  {
    o.fieldSize.0 == o.fieldSize.1 && GridShape(o.visited, o.fieldSize.0, o.fieldSize.1)
  }

  predicate NoneVisited(g: seq<seq<bool>>)
  {
    forall x, y :: 0 <= x < |g| && 0 <= y < |g[x]| ==> !g[x][y]
  }

  /** `new`: no route yet and an unvisited grid of the field's size. */
  function New(fieldSize: (nat, nat), jumpLength: (nat, nat)): (o: PendingJumpOptimizer)
    ensures o.minJumps.None? && o.fieldSize == fieldSize && o.jumpLength == jumpLength
    ensures GridShape(o.visited, fieldSize.0, fieldSize.1) && NoneVisited(o.visited)
  {
    PendingJumpOptimizer(None, fieldSize, jumpLength, seq(fieldSize.0, _ => seq(fieldSize.1, _ => false)))
  }

  function Abs(v: int): nat
  {
    if v < 0 then -v else v
  }

  /** `determine_movements`: the eight moves, in the source's order. */
  function Moves(jumpLength: (nat, nat)): (ms: seq<Cell>)
    ensures |ms| == 8
  {
    var (p, q) := (jumpLength.0 as int, jumpLength.1 as int);
    [(p, q), (p, -q), (-p, q), (-p, -q), (q, p), (q, -p), (-q, p), (-q, -p)]
  }

  /** The moves are exactly the jumps of `p` along one axis and `q` along the
      other, in either direction. */
  lemma MovesAreTheJumps(jumpLength: (nat, nat), d: Cell)
    ensures d in Moves(jumpLength) <==>
              || (Abs(d.0) == jumpLength.0 && Abs(d.1) == jumpLength.1)
              || (Abs(d.0) == jumpLength.1 && Abs(d.1) == jumpLength.0)
  {
  }

  function Add(c: Cell, d: Cell): Cell
  {
    (c.0 + d.0, c.1 + d.1)
  }

  /** The bounds of the move test: `x` below `fieldSize.1`, `y` below
      `fieldSize.0`. */
  predicate InField(fieldSize: (nat, nat), c: Cell)
  {
    0 <= c.0 < fieldSize.1 && 0 <= c.1 < fieldSize.0
  }

  /** `is_valid_move`: a cell of the field that is not visited. */
  predicate IsValidMove(o: PendingJumpOptimizer, c: Cell)
    requires Shape(o)
  {
    c.0 >= 0 && c.0 < o.fieldSize.1 && c.1 >= 0 && c.1 < o.fieldSize.0 && !o.visited[c.0][c.1]
  }

  /** The move test accepts exactly the unvisited cells of the field, and a
      cell it accepts can be looked up in the grid. */
  lemma IsValidMoveMeans(o: PendingJumpOptimizer, c: Cell)
    requires Shape(o)
    ensures IsValidMove(o, c) <==> c in Free(o.visited)
    ensures IsValidMove(o, c) ==> 0 <= c.0 < |o.visited| && 0 <= c.1 < |o.visited[c.0]|
  {
  }

  /** The unvisited cells of a grid. */
  function Free(g: seq<seq<bool>>): set<Cell>
  {
    set x: int, y: int | 0 <= x < |g| && 0 <= y < |g[x]| && !g[x][y] :: (x, y)
  }

  /** The grid with cell `c` set to `b`. */
  function Mark(g: seq<seq<bool>>, c: Cell, b: bool): (h: seq<seq<bool>>)
    requires 0 <= c.0 < |g| && 0 <= c.1 < |g[c.0]|
    ensures |h| == |g| && forall x :: 0 <= x < |g| ==> |h[x]| == |g[x]|
    ensures forall x, y :: 0 <= x < |g| && 0 <= y < |g[x]| ==> h[x][y] == if (x, y) == c then b else g[x][y]
  {
    g[c.0 := g[c.0][c.1 := b]]
  }

  /** Marking a free cell takes it out of the free set and nothing else. */
  lemma MarkShrinks(g: seq<seq<bool>>, c: Cell)
    requires c in Free(g)
    ensures Free(Mark(g, c, true)) == Free(g) - {c}
    ensures |Free(Mark(g, c, true))| < |Free(g)|
  {
    var h := Mark(g, c, true);
    forall e | e in Free(g) - {c}
      ensures e in Free(h)
    {
      assert h[e.0][e.1] == g[e.0][e.1];
    }
    assert Free(h) == Free(g) - {c};
  }

  /** Unmarking a cell that was free before it was marked gives the grid back. */
  lemma UnmarkRestores(g: seq<seq<bool>>, c: Cell)
    requires c in Free(g)
    ensures Mark(Mark(g, c, true), c, false) == g
  {
    var h := Mark(Mark(g, c, true), c, false);
    forall x | 0 <= x < |g|
      ensures h[x] == g[x]
    {
      forall y | 0 <= y < |g[x]|
        ensures h[x][y] == g[x][y]
      {
      }
    }
  }

  /** `at_most(a, b)`: a route length `a` that is no worse than `b`. */
  predicate AtMost(a: Option<nat>, b: Option<nat>)
  {
    b.Some? ==> a.Some? && a.value <= b.value
  }

  /** `backtrack`, with `cur` already marked. At the target the best count
      becomes the smaller of the two; a branch that already used at least the
      best count is cut; otherwise every move is tried in order. */
  function Backtrack(o: PendingJumpOptimizer, cur: Cell, target: Cell, jumps: nat): (r: PendingJumpOptimizer)
    requires Shape(o) && InField(o.fieldSize, cur) && o.visited[cur.0][cur.1]
    ensures r.fieldSize == o.fieldSize && r.jumpLength == o.jumpLength && r.visited == o.visited
    ensures AtMost(r.minJumps, o.minJumps)
    decreases |Free(o.visited)|, 1, 0
  {
    if cur == target then
      o.(minJumps := Some(if o.minJumps.Some? && o.minJumps.value < jumps then o.minJumps.value else jumps))
    else if o.minJumps.Some? && jumps >= o.minJumps.value then
      o
    else
      MovesLoop(o, cur, target, jumps, 0)
  }

  /** The `for_each` over the moves, from move `k` on. */
  function MovesLoop(o: PendingJumpOptimizer, cur: Cell, target: Cell, jumps: nat, k: nat): (r: PendingJumpOptimizer)
    requires Shape(o) && InField(o.fieldSize, cur) && o.visited[cur.0][cur.1] && k <= 8
    ensures r.fieldSize == o.fieldSize && r.jumpLength == o.jumpLength && r.visited == o.visited
    ensures AtMost(r.minJumps, o.minJumps)
    decreases |Free(o.visited)|, 0, 8 - k
  {
    if k == 8 then o
    else
      var next := Add(cur, Moves(o.jumpLength)[k]);
      if IsValidMove(o, next) then
        MarkShrinks(o.visited, next);
        UnmarkRestores(o.visited, next);
        var r := Backtrack(o.(visited := Mark(o.visited, next, true)), next, target, jumps + 1);
        MovesLoop(r.(visited := Mark(r.visited, next, false)), cur, target, jumps, k + 1)
      else
        MovesLoop(o, cur, target, jumps, k + 1)
  }

  // ---------------------------------------------------------------------------
  // Routes, and what the search finds.
  // ---------------------------------------------------------------------------

  /** `b` is one jump away from `a`. */
  predicate Step(jumpLength: (nat, nat), a: Cell, b: Cell)
  {
    (b.0 - a.0, b.1 - a.1) in Moves(jumpLength)
  }

  /** A walk of the rabbit over the field: every cell in the field, every step
      one jump, and no cell entered twice. */
  predicate JumpPath(fieldSize: (nat, nat), jumpLength: (nat, nat), path: seq<Cell>)
  {
    && |path| >= 1
    && (forall i :: 0 <= i < |path| ==> InField(fieldSize, path[i]))
    && (forall i :: 0 <= i < |path| - 1 ==> Step(jumpLength, path[i], path[i + 1]))
    && (forall i, j :: 0 <= i < j < |path| ==> path[i] != path[j])
  }

  /** A walk from `start` to `target`; it takes `|path| - 1` jumps. */
  predicate Route(fieldSize: (nat, nat), jumpLength: (nat, nat), start: Cell, target: Cell, path: seq<Cell>)
  {
    JumpPath(fieldSize, jumpLength, path) && path[0] == start && path[|path| - 1] == target
  }

  /** Some route from `start` to `target` takes exactly `m` jumps, if `m` is
      a number at all. */
  ghost predicate Witnessed(fieldSize: (nat, nat), jumpLength: (nat, nat), start: Cell, target: Cell, m: Option<nat>)
  {
    m.Some? ==> exists path :: Route(fieldSize, jumpLength, start, target, path) && |path| == m.value + 1
  }

  /** The visited cells are exactly the cells of `trail`. */
  predicate Marks(g: seq<seq<bool>>, trail: seq<Cell>)
  {
    forall x, y :: 0 <= x < |g| && 0 <= y < |g[x]| ==> (g[x][y] <==> (x, y) in trail)
  }

  /** The state `backtrack` is called in: the route so far runs from `start`
      to `cur` in `jumps` jumps, and the grid marks exactly its cells. */
  predicate TrailOk(o: PendingJumpOptimizer, start: Cell, cur: Cell, jumps: nat, trail: seq<Cell>)
  {
    && JumpPath(o.fieldSize, o.jumpLength, trail)
    && trail[0] == start && trail[|trail| - 1] == cur && |trail| == jumps + 1
    && Marks(o.visited, trail)
  }

  predicate Extends(path: seq<Cell>, trail: seq<Cell>)
  {
    |path| >= |trail| && forall i :: 0 <= i < |trail| ==> path[i] == trail[i]
  }

  /** Marking a free cell one jump from the end of the trail extends the
      trail by that cell. */
  lemma ExtendTrail(o: PendingJumpOptimizer, start: Cell, cur: Cell, jumps: nat, trail: seq<Cell>, k: nat)
    requires Shape(o) && TrailOk(o, start, cur, jumps, trail) && k < 8
    requires IsValidMove(o, Add(cur, Moves(o.jumpLength)[k]))
    ensures var next := Add(cur, Moves(o.jumpLength)[k]);
      && InField(o.fieldSize, next)
      && TrailOk(o.(visited := Mark(o.visited, next, true)), start, next, jumps + 1, trail + [next])
  {
    var next := Add(cur, Moves(o.jumpLength)[k]);
    var t := trail + [next];
    assert next !in trail;
    assert Step(o.jumpLength, cur, next) by {
      assert (next.0 - cur.0, next.1 - cur.1) == Moves(o.jumpLength)[k];
    }
    forall i, j | 0 <= i < j < |t|
      ensures t[i] != t[j]
    {
      if j < |trail| {
        assert t[i] == trail[i] && t[j] == trail[j];
      } else {
        assert t[i] in trail;
      }
    }
    forall i | 0 <= i < |t| - 1
      ensures Step(o.jumpLength, t[i], t[i + 1])
    {
      if i < |trail| - 1 {
        assert t[i] == trail[i] && t[i + 1] == trail[i + 1];
      }
    }
  }

  /** A route that extends the trail and goes on past `cur` continues with a
      cell the grid leaves free. */
  lemma NextIsFree(o: PendingJumpOptimizer, start: Cell, cur: Cell, target: Cell, jumps: nat,
                   trail: seq<Cell>, path: seq<Cell>)
    requires Shape(o) && TrailOk(o, start, cur, jumps, trail)
    requires Route(o.fieldSize, o.jumpLength, start, target, path) && Extends(path, trail)
    requires |path| > |trail|
    ensures IsValidMove(o, path[|trail|])
  {
    var n := |trail|;
    assert path[n] !in trail by {
      forall j | 0 <= j < n
        ensures path[n] != trail[j]
      {
        assert path[j] == trail[j];
      }
    }
    assert InField(o.fieldSize, path[n]);
  }

  /** ... and that cell is one of the moves away from `cur`. */
  lemma NextIsMove(o: PendingJumpOptimizer, start: Cell, cur: Cell, target: Cell, jumps: nat,
                   trail: seq<Cell>, path: seq<Cell>)
    requires TrailOk(o, start, cur, jumps, trail)
    requires Route(o.fieldSize, o.jumpLength, start, target, path) && Extends(path, trail)
    requires |path| > |trail|
    ensures exists i :: 0 <= i < 8 && path[|trail|] == Add(cur, Moves(o.jumpLength)[i])
  {
    var n := |trail|;
    assert path[n - 1] == cur;
    assert Step(o.jumpLength, path[n - 1], path[n]);
    var ms := Moves(o.jumpLength);
    var d := (path[n].0 - cur.0, path[n].1 - cur.1);
    assert d in ms;
    var i :| 0 <= i < 8 && ms[i] == d;
    assert path[n] == Add(cur, ms[i]);
  }

  /** One turn of the move loop on a valid move: the search from the marked
      cell hands the grid back, the cell is unmarked, and the loop goes on
      with the next move from the grid it started with. */
  lemma MoveStep(o: PendingJumpOptimizer, cur: Cell, target: Cell, jumps: nat, k: nat)
    requires Shape(o) && InField(o.fieldSize, cur) && o.visited[cur.0][cur.1] && k < 8
    requires IsValidMove(o, Add(cur, Moves(o.jumpLength)[k]))
    ensures var next := Add(cur, Moves(o.jumpLength)[k]);
      && Shape(o.(visited := Mark(o.visited, next, true)))
      && InField(o.fieldSize, next)
      && |Free(Mark(o.visited, next, true))| < |Free(o.visited)|
      && var b := Backtrack(o.(visited := Mark(o.visited, next, true)), next, target, jumps + 1);
      && MovesLoop(o, cur, target, jumps, k) == MovesLoop(b.(visited := o.visited), cur, target, jumps, k + 1)
  {
    var next := Add(cur, Moves(o.jumpLength)[k]);
    MarkShrinks(o.visited, next);
    UnmarkRestores(o.visited, next);
  }

  /** A route that extends the trail ending at the target is the trail itself,
      since no cell is entered twice. */
  lemma ExtensionAtTarget(o: PendingJumpOptimizer, start: Cell, target: Cell, jumps: nat,
                          trail: seq<Cell>, path: seq<Cell>)
    requires TrailOk(o, start, target, jumps, trail)
    requires Route(o.fieldSize, o.jumpLength, start, target, path) && Extends(path, trail)
    ensures |path| == |trail|
  {
  }

  lemma ExtendsSnoc(path: seq<Cell>, trail: seq<Cell>, next: Cell)
    requires Extends(path, trail) && |path| > |trail| && path[|trail|] == next
    ensures Extends(path, trail + [next])
  {
  }

  /** Minimality of `backtrack`: every route that extends the trail takes at
      least as many jumps as the count the search ends with. */
  lemma {:induction false} BacktrackBound(o: PendingJumpOptimizer, start: Cell, cur: Cell, target: Cell,
                                           jumps: nat, trail: seq<Cell>)
    requires Shape(o) && InField(o.fieldSize, cur) && o.visited[cur.0][cur.1]
    requires TrailOk(o, start, cur, jumps, trail)
    ensures forall path :: Route(o.fieldSize, o.jumpLength, start, target, path) && Extends(path, trail) ==>
              AtMost(Backtrack(o, cur, target, jumps).minJumps, Some(|path| - 1))
    decreases |Free(o.visited)|, 1, 0
  {
    var r := Backtrack(o, cur, target, jumps);
    if cur == target {
      forall path | Route(o.fieldSize, o.jumpLength, start, target, path) && Extends(path, trail)
        ensures AtMost(r.minJumps, Some(|path| - 1))
      {
        ExtensionAtTarget(o, start, target, jumps, trail, path);
      }
    } else if o.minJumps.Some? && jumps >= o.minJumps.value {
    } else {
      MovesLoopBound(o, start, cur, target, jumps, trail, 0);
      forall path | Route(o.fieldSize, o.jumpLength, start, target, path) && Extends(path, trail)
        ensures AtMost(r.minJumps, Some(|path| - 1))
      {
        NextIsMove(o, start, cur, target, jumps, trail, path);
      }
    }
  }

  lemma {:induction false} MovesLoopBound(o: PendingJumpOptimizer, start: Cell, cur: Cell, target: Cell,
                                           jumps: nat, trail: seq<Cell>, k: nat)
    requires Shape(o) && InField(o.fieldSize, cur) && o.visited[cur.0][cur.1] && k <= 8
    requires TrailOk(o, start, cur, jumps, trail)
    ensures forall path, i ::
              (&& k <= i < 8 && Route(o.fieldSize, o.jumpLength, start, target, path) && Extends(path, trail)
               && |path| > |trail| && path[|trail|] == Add(cur, Moves(o.jumpLength)[i])) ==>
              AtMost(MovesLoop(o, cur, target, jumps, k).minJumps, Some(|path| - 1))
    decreases |Free(o.visited)|, 0, 8 - k
  {
    if k < 8 {
      var r := MovesLoop(o, cur, target, jumps, k);
      var next := Add(cur, Moves(o.jumpLength)[k]);
      if IsValidMove(o, next) {
        var o1 := o.(visited := Mark(o.visited, next, true));
        MoveStep(o, cur, target, jumps, k);
        ExtendTrail(o, start, cur, jumps, trail, k);
        BacktrackBound(o1, start, next, target, jumps + 1, trail + [next]);
        var b := Backtrack(o1, next, target, jumps + 1);
        var o2 := b.(visited := o.visited);
        MovesLoopBound(o2, start, cur, target, jumps, trail, k + 1);
        forall path, i | && k <= i < 8 && Route(o.fieldSize, o.jumpLength, start, target, path)
                         && Extends(path, trail) && |path| > |trail|
                         && path[|trail|] == Add(cur, Moves(o.jumpLength)[i])
          ensures AtMost(r.minJumps, Some(|path| - 1))
        {
          if i == k {
            ExtendsSnoc(path, trail, next);
          }
        }
      } else {
        MovesLoopBound(o, start, cur, target, jumps, trail, k + 1);
        forall path, i | && k <= i < 8 && Route(o.fieldSize, o.jumpLength, start, target, path)
                         && Extends(path, trail) && |path| > |trail|
                         && path[|trail|] == Add(cur, Moves(o.jumpLength)[i])
          ensures AtMost(MovesLoop(o, cur, target, jumps, k).minJumps, Some(|path| - 1))
        {
          if i == k {
            // The route would continue with `next`, which the move test refuses.
            NextIsFree(o, start, cur, target, jumps, trail, path);
            assert false;
          }
        }
      }
    }
  }

  /** Soundness of `backtrack`: whatever count the search ends with is the
      length of a real route. */
  lemma {:induction false} BacktrackSound(o: PendingJumpOptimizer, start: Cell, cur: Cell, target: Cell,
                                           jumps: nat, trail: seq<Cell>)
    requires Shape(o) && InField(o.fieldSize, cur) && o.visited[cur.0][cur.1]
    requires TrailOk(o, start, cur, jumps, trail)
    requires Witnessed(o.fieldSize, o.jumpLength, start, target, o.minJumps)
    ensures Witnessed(o.fieldSize, o.jumpLength, start, target, Backtrack(o, cur, target, jumps).minJumps)
    decreases |Free(o.visited)|, 1, 0
  {
    if cur == target {
      assert Route(o.fieldSize, o.jumpLength, start, target, trail);
    } else if o.minJumps.Some? && jumps >= o.minJumps.value {
    } else {
      MovesLoopSound(o, start, cur, target, jumps, trail, 0);
    }
  }

  lemma {:induction false} MovesLoopSound(o: PendingJumpOptimizer, start: Cell, cur: Cell, target: Cell,
                                           jumps: nat, trail: seq<Cell>, k: nat)
    requires Shape(o) && InField(o.fieldSize, cur) && o.visited[cur.0][cur.1] && k <= 8
    requires TrailOk(o, start, cur, jumps, trail)
    requires Witnessed(o.fieldSize, o.jumpLength, start, target, o.minJumps)
    ensures Witnessed(o.fieldSize, o.jumpLength, start, target, MovesLoop(o, cur, target, jumps, k).minJumps)
    decreases |Free(o.visited)|, 0, 8 - k
  {
    if k < 8 {
      var next := Add(cur, Moves(o.jumpLength)[k]);
      if IsValidMove(o, next) {
        var o1 := o.(visited := Mark(o.visited, next, true));
        MoveStep(o, cur, target, jumps, k);
        ExtendTrail(o, start, cur, jumps, trail, k);
        BacktrackSound(o1, start, next, target, jumps + 1, trail + [next]);
        var b := Backtrack(o1, next, target, jumps + 1);
        var o2 := b.(visited := o.visited);
        MovesLoopSound(o2, start, cur, target, jumps, trail, k + 1);
      } else {
        MovesLoopSound(o, start, cur, target, jumps, trail, k + 1);
      }
    }
  }

  // ---------------------------------------------------------------------------
  // `find_min_jumps`, the report, and the unit tests of the source.
  // ---------------------------------------------------------------------------

  /** The search starts from a grid where only `start` is marked, which is
      the one-cell route from `start`. */
  lemma StartTrail(o: PendingJumpOptimizer, s: Cell)
    requires Shape(o) && NoneVisited(o.visited) && InField(o.fieldSize, s)
    ensures s in Free(o.visited)
    ensures var o1 := o.(visited := Mark(o.visited, s, true));
      Shape(o1) && o1.visited[s.0][s.1] && TrailOk(o1, s, s, 0, [s])
  {
  }

  /** `find_min_jumps`. A target beyond the field size is refused; the test
      is strict, so a target on the far edge passes it and is simply never
      reached. Otherwise the count is that of a real route, no route is
      shorter, and the grid comes back unvisited. The source indexes the grid
      at `start` without a check, so the model requires `start` to lie in the
      field whenever the target passes the test. */
  function FindMinJumps(o: PendingJumpOptimizer, start: (nat, nat), target: (nat, nat)): (r: Result<ReadyJumpOptimizer, JumpError>)
    requires Shape(o) && o.minJumps.None? && NoneVisited(o.visited)
    requires target.0 <= o.fieldSize.0 && target.1 <= o.fieldSize.1 ==> InField(o.fieldSize, (start.0, start.1))
    ensures r.Err? <==> target.0 > o.fieldSize.0 || target.1 > o.fieldSize.1
    ensures r.Ok? ==> && r.value.fieldSize == o.fieldSize && r.value.jumpLength == o.jumpLength
                      && r.value.visited == o.visited
    ensures r.Ok? ==> Witnessed(o.fieldSize, o.jumpLength, (start.0, start.1), (target.0, target.1), r.value.minJumps)
    ensures r.Ok? ==> forall path :: Route(o.fieldSize, o.jumpLength, (start.0, start.1), (target.0, target.1), path) ==>
                        AtMost(r.value.minJumps, Some(|path| - 1))
  {
    if target.0 > o.fieldSize.0 || target.1 > o.fieldSize.1 then
      Err(OutsideField)
    else
      var s: Cell := (start.0, start.1);
      var t: Cell := (target.0, target.1);
      var o1 := o.(visited := Mark(o.visited, s, true));
      StartTrail(o, s);
      UnmarkRestores(o.visited, s);
      BacktrackSound(o1, s, s, t, 0, [s]);
      BacktrackBound(o1, s, s, t, 0, [s]);
      var b := Backtrack(o1, s, t, 0);
      Ok(ReadyJumpOptimizer(b.minJumps, b.fieldSize, b.jumpLength, Mark(b.visited, s, false)))
  }

  /** Which text `report` chooses. */
  function Report(r: ReadyJumpOptimizer): (msg: JumpMessage)
    ensures msg.NotPossible? <==> r.minJumps.None?
    ensures msg.MinimumJumps? ==> msg.jumps == r.minJumps.value
  {
    match r.minJumps
    case Some(jumps) => MinimumJumps(jumps)
    case None => NotPossible
  }

  /** The "not possible" text is chosen exactly when no route exists. */
  lemma ReportNotPossibleIffNoRoute(o: PendingJumpOptimizer, start: (nat, nat), target: (nat, nat))
    requires Shape(o) && o.minJumps.None? && NoneVisited(o.visited)
    requires target.0 <= o.fieldSize.0 && target.1 <= o.fieldSize.1
    requires InField(o.fieldSize, (start.0, start.1))
    ensures FindMinJumps(o, start, target).Ok?
    ensures Report(FindMinJumps(o, start, target).value).NotPossible? <==>
              forall path :: !Route(o.fieldSize, o.jumpLength, (start.0, start.1), (target.0, target.1), path)
  {
  }

  /** Starting on the target takes no jump at all. */
  lemma StartOnTarget(o: PendingJumpOptimizer, start: (nat, nat))
    requires Shape(o) && o.minJumps.None? && NoneVisited(o.visited)
    requires InField(o.fieldSize, (start.0, start.1))
    ensures FindMinJumps(o, start, start) == Ok(ReadyJumpOptimizer(Some(0), o.fieldSize, o.jumpLength, o.visited))
  {
    var c: Cell := (start.0, start.1);
    assert Route(o.fieldSize, o.jumpLength, c, c, [c]);
  }

  /** No route ends outside the field. */
  lemma RouteEndsInField(fieldSize: (nat, nat), jumpLength: (nat, nat), start: Cell, target: Cell, path: seq<Cell>)
    requires Route(fieldSize, jumpLength, start, target, path)
    ensures InField(fieldSize, target)
  {
    assert InField(fieldSize, path[|path| - 1]);
  }

  /** On any field of at least 3 x 3 cells, (0, 0), (1, 1), (2, 2) is a
      route of two (1, 1) jumps. */
  lemma DiagonalRoute(fieldSize: (nat, nat))
    requires fieldSize.0 >= 3 && fieldSize.1 >= 3
    ensures Route(fieldSize, (1, 1), (0, 0), (2, 2), [(0, 0), (1, 1), (2, 2)])
  {
    var w: seq<Cell> := [(0, 0), (1, 1), (2, 2)];
    assert Moves((1, 1))[0] == (1, 1);
    assert Step((1, 1), w[0], w[1]) && Step((1, 1), w[1], w[2]);
  }

  /** A (1, 1) jump never covers two diagonal cells, so every route from
      (0, 0) to (2, 2) needs at least two jumps. */
  lemma DiagonalNeedsTwoJumps(fieldSize: (nat, nat), path: seq<Cell>)
    requires Route(fieldSize, (1, 1), (0, 0), (2, 2), path)
    ensures |path| >= 3
  {
  }

  /** The source's first test: on a 10 x 10 field with jumps of (1, 1) the
      rabbit needs 2 jumps from (0, 0) to (2, 2). The optimizer is a
      parameter so that the search is reasoned about through its contract. */
  lemma TestReachTarget(o: PendingJumpOptimizer, start: (nat, nat), target: (nat, nat))
    requires o == New((10, 10), (1, 1)) && start == (0, 0) && target == (2, 2)
    ensures FindMinJumps(o, start, target).Ok?
    ensures FindMinJumps(o, start, target).value.minJumps == Some(2)
  {
    var r := FindMinJumps(o, start, target).value;
    DiagonalRoute(o.fieldSize);
    assert AtMost(r.minJumps, Some(2));
    var path :| Route(o.fieldSize, o.jumpLength, (0, 0), (2, 2), path) && |path| == r.minJumps.value + 1;
    DiagonalNeedsTwoJumps(o.fieldSize, path);
    assert r.minJumps.value == 2;
  }

  /** The source's second test: on a 5 x 5 field the target (5, 5) passes the
      field test, but no route reaches it. */
  lemma TestCannotReach(o: PendingJumpOptimizer)
    requires o == New((5, 5), (3, 3))
    ensures FindMinJumps(o, (0, 0), (5, 5)).Ok?
    ensures FindMinJumps(o, (0, 0), (5, 5)).value.minJumps.None?
  {
    var r := FindMinJumps(o, (0, 0), (5, 5)).value;
    if r.minJumps.Some? {
      var path :| Route((5, 5), (3, 3), (0, 0), (5, 5), path) && |path| == r.minJumps.value + 1;
      RouteEndsInField((5, 5), (3, 3), (0, 0), (5, 5), path);
    }
  }

  /** The source's third test: the target (6, 7) lies outside a 5 x 5 field. */
  lemma TestOutsideField(o: PendingJumpOptimizer)
    requires o == New((5, 5), (3, 3))
    ensures FindMinJumps(o, (0, 0), (6, 7)) == Err(OutsideField)
  {
  }
}
