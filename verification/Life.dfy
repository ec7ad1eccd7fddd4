/**
 The toroidal Game of Life of tools/demo-apps/life.py: step, inject_glider and the travelling of GLIDER.

 A grid is unrolled into the plane: the set of all integer coordinates whose wrapped cell is alive. The rule and
 the translations are stated on the plane, where no coordinate wraps, and carried back to the torus.
 */
module Life {

  type Point = (int, int)

  /** The grid and its size; live cells are true. */
  datatype Grid = Grid(rows: nat, cols: nat, cells: seq<seq<bool>>)

  ghost predicate Shaped(g: Grid) {
    match g
    case Grid(rows, cols, cells) => |cells| == rows && forall r | 0 <= r < rows :: |cells[r]| == cols
  }

  /** A grid with at least one cell. */
  ghost predicate Field(g: Grid) {
    Shaped(g) && g.rows > 0 && g.cols > 0
  }

  // ----- Coordinates on the torus

  /** Python's i % n. */
  function Wrap(i: int, n: nat): (k: nat)
    requires n > 0
    ensures k < n
    decreases if i < 0 then n - i else i
  {
    if i < 0 then Wrap(i + n, n) else if i >= n then Wrap(i - n, n) else i
  }

  lemma WrapNear(i: int, n: nat)
    requires n > 0 && 0 <= i + n && i < 2 * n
    ensures i < 0 ==> Wrap(i, n) == i + n
    ensures 0 <= i < n ==> Wrap(i, n) == i
    ensures i >= n ==> Wrap(i, n) == i - n
  {
  }

  lemma WrapPeriod(i: int, n: nat)
    requires n > 0
    ensures Wrap(i + n, n) == Wrap(i, n)
  {
  }

  lemma {:induction false} WrapInside(i: int, d: int, n: nat)
    requires n > 0
    ensures Wrap(Wrap(i, n) + d, n) == Wrap(i + d, n)
    decreases if i < 0 then n - i else i
  {
    if i < 0 {
      WrapInside(i + n, d, n);
      WrapPeriod(i + d, n);
    } else if i >= n {
      WrapInside(i - n, d, n);
      WrapPeriod(i - n + d, n);
    }
  }

  lemma {:induction false} WrapDivides(i: int, n: nat) returns (q: int)
    requires n > 0
    ensures i == q * n + Wrap(i, n)
    decreases if i < 0 then n - i else i
  {
    if i < 0 {
      var p := WrapDivides(i + n, n);
      q := p - 1;
      assert q * n == p * n - n;
    } else if i >= n {
      var p := WrapDivides(i - n, n);
      q := p + 1;
      assert q * n == p * n + n;
    } else {
      q := 0;
    }
  }

  lemma {:induction false} Multiple(n: nat, p: int, q: int)
    requires p < q
    ensures p * n + n <= q * n
    decreases q - p
  {
    if p + 1 < q {
      Multiple(n, p + 1, q);
    }
    assert (p + 1) * n == p * n + n;
  }

  lemma OneQuotient(n: nat, p: int, r: nat, q: int, s: nat)
    requires n > 0 && p * n + r == q * n + s && r < n && s < n
    ensures r == s
  {
    if p > q {
      Multiple(n, q, p);
    } else if p < q {
      Multiple(n, p, q);
    }
  }

  /** Wrap is the remainder of the division by n. */
  lemma WrapIsRemainder(i: int, n: nat)
    requires n > 0
    ensures Wrap(i, n) == i % n
  {
    var q := WrapDivides(i, n);
    OneQuotient(n, q, Wrap(i, n), i / n, i % n);
  }

  predicate At(g: Grid, r: int, c: int)
    requires Field(g)
  {
    g.cells[Wrap(r, g.rows)][Wrap(c, g.cols)]
  }

  ghost function Plane(g: Grid): iset<Point>
    requires Field(g)
  {
    iset p: Point | At(g, p.0, p.1)
  }

  lemma PlaneAt(g: Grid, r: nat, c: nat)
    requires Field(g) && r < g.rows && c < g.cols
    ensures (r, c) in Plane(g) <==> g.cells[r][c]
  {
  }

  /** A grid of a given size is determined by its plane. */
  lemma SamePlane(g: Grid, h: Grid)
    requires Field(g) && Field(h) && g.rows == h.rows && g.cols == h.cols && Plane(g) == Plane(h)
    ensures g == h
  {
    forall r | 0 <= r < g.rows ensures g.cells[r] == h.cells[r] {
      forall c | 0 <= c < g.cols ensures g.cells[r][c] == h.cells[r][c] {
        PlaneAt(g, r, c);
        PlaneAt(h, r, c);
      }
    }
  }

  // ----- The rule B3/S23

  const AROUND: set<Point> := {(-1, -1), (-1, 0), (-1, 1), (0, -1), (0, 1), (1, -1), (1, 0), (1, 1)}

  ghost predicate Near(p: iset<Point>, q: Point, d: Point) {
    (q.0 + d.0, q.1 + d.1) in p
  }

  /** B3/S23: a dead cell with exactly three live neighbours is born, a live one with two or three survives. */
  ghost predicate Alive(p: iset<Point>, q: Point) {
    var n := |set d <- AROUND | Near(p, q, d)|;
    if q in p then n == 2 || n == 3 else n == 3
  }

  predicate Rule(n: nat, alive: bool) {
    n == 3 || (n == 2 && alive)
  }

  ghost function Next(p: iset<Point>): iset<Point> {
    iset q: Point | Alive(p, q)
  }

  ghost function Iterate<T>(f: T -> T, x: T, n: nat): T {
    if n == 0 then x else f(Iterate(f, x, n - 1))
  }

  ghost function Generation(p: iset<Point>, n: nat): iset<Point> {
    Iterate(Next, p, n)
  }

  /** h is generation n of g on the torus. */
  ghost predicate IsGeneration(g: Grid, h: Grid, n: nat) {
    Field(g) && Field(h) && h.rows == g.rows && h.cols == g.cols && Plane(h) == Generation(Plane(g), n)
  }

  // ----- step

  function One(b: bool): nat { if b then 1 else 0 }

  ghost function Few(ds: seq<Point>, s: set<Point>): set<Point> {
    set d <- ds | d in s
  }

  lemma OneMore(ds: seq<Point>, d: Point, s: set<Point>)
    requires d !in ds
    ensures |Few(ds + [d], s)| == |Few(ds, s)| + One(d in s)
  {
    assert Few(ds + [d], s) == if d in s then Few(ds, s) + {d} else Few(ds, s);
  }

  /** Counting the eight offsets one after the other counts the set. */
  lemma CountAround(s: set<Point>)
    requires s <= AROUND
    ensures |s| == One((-1, -1) in s) + One((-1, 0) in s) + One((-1, 1) in s)
                 + One((0, -1) in s) + One((0, 1) in s)
                 + One((1, -1) in s) + One((1, 0) in s) + One((1, 1) in s)
  {
    var ds := [(-1, -1), (-1, 0), (-1, 1), (0, -1), (0, 1), (1, -1), (1, 0), (1, 1)];
    assert Few(ds[..0], s) == {};
    for k := 0 to 8
      invariant |Few(ds[..k], s)| ==
        (if k > 0 then One(ds[0] in s) else 0) + (if k > 1 then One(ds[1] in s) else 0)
        + (if k > 2 then One(ds[2] in s) else 0) + (if k > 3 then One(ds[3] in s) else 0)
        + (if k > 4 then One(ds[4] in s) else 0) + (if k > 5 then One(ds[5] in s) else 0)
        + (if k > 6 then One(ds[6] in s) else 0) + (if k > 7 then One(ds[7] in s) else 0)
    {
      OneMore(ds[..k], ds[k], s);
      assert ds[..k + 1] == ds[..k] + [ds[k]];
    }
    assert ds[..8] == ds;
    assert Few(ds, s) == s;
  }

  ghost function Sum(p: iset<Point>, r: int, c: int): nat {
    Three(p, r - 1, c) + One((r, c - 1) in p) + One((r, c + 1) in p) + Three(p, r + 1, c)
  }

  ghost function Three(p: iset<Point>, r: int, c: int): nat {
    One((r, c - 1) in p) + One((r, c) in p) + One((r, c + 1) in p)
  }

  /** The neighbour sum decides the rule. */
  lemma SumDecides(p: iset<Point>, r: int, c: int)
    ensures Alive(p, (r, c)) == Rule(Sum(p, r, c), (r, c) in p)
  {
    var s := set d <- AROUND | Near(p, (r, c), d);
    CountAround(s);
    assert |s| == Sum(p, r, c);
  }

  /** The value step stores in one cell. */
  method NextCell(g: Grid, r: nat, c: nat) returns (x: bool)
    requires Field(g) && r < g.rows && c < g.cols
    ensures Right(g, r, c, x)
  {
    var up, down := Wrap(r - 1, g.rows), Wrap(r + 1, g.rows);
    var rowUp, row, rowDown := g.cells[up], g.cells[r], g.cells[down];
    var left, right := Wrap(c - 1, g.cols), Wrap(c + 1, g.cols);
    var n := One(rowUp[left]) + One(rowUp[c]) + One(rowUp[right]) + One(row[left]) + One(row[right])
           + One(rowDown[left]) + One(rowDown[c]) + One(rowDown[right]);
    SumDecides(Plane(g), r, c);
    x := Rule(n, row[c]);
  }

  /** The rule looks only at a point and around it. */
  lemma AliveLocally(p: iset<Point>, q: Point, p': iset<Point>, q': Point)
    requires (q in p) == (q' in p') && forall d <- AROUND :: Near(p, q, d) == Near(p', q', d)
    ensures Alive(p, q) == Alive(p', q')
  {
    assert (set d <- AROUND | Near(p, q, d)) == (set d <- AROUND | Near(p', q', d));
  }

  lemma {:induction false} AtWraps(g: Grid, r: int, c: int, a: int, b: int)
    requires Field(g)
    ensures At(g, Wrap(r, g.rows) + a, Wrap(c, g.cols) + b) == At(g, r + a, c + b)
  {
    WrapInside(r, a, g.rows);
    WrapInside(c, b, g.cols);
  }

  lemma {:induction false} NearWraps(g: Grid, r: int, c: int, d: Point)
    requires Field(g)
    ensures Near(Plane(g), (Wrap(r, g.rows), Wrap(c, g.cols)), d) == Near(Plane(g), (r, c), d)
  {
    AtWraps(g, r, c, d.0, d.1);
  }

  /** The rule sees the same surroundings wherever the torus is unrolled. */
  lemma AliveWraps(g: Grid, r: int, c: int)
    requires Field(g)
    ensures Alive(Plane(g), (Wrap(r, g.rows), Wrap(c, g.cols))) == Alive(Plane(g), (r, c))
  {
    var p, q, q' := Plane(g), (r, c), (Wrap(r, g.rows), Wrap(c, g.cols));
    forall d <- AROUND ensures Near(p, q', d) == Near(p, q, d) {
      NearWraps(g, r, c, d);
    }
    NearWraps(g, r, c, (0, 0));
    AliveLocally(p, q', p, q);
  }

  /** The value x is right for the cell at (r, c). */
  ghost predicate Right(g: Grid, r: int, c: int, x: bool) {
    Field(g) ==> x == Alive(Plane(g), (r, c))
  }

  ghost predicate CellsAlive(g: Grid, h: Grid) {
    && Field(g) && Field(h) && h.rows == g.rows && h.cols == g.cols
    && forall r, c | 0 <= r < g.rows && 0 <= c < g.cols :: Right(g, r, c, h.cells[r][c])
  }

  lemma CellsAliveIsNext(g: Grid, h: Grid)
    requires CellsAlive(g, h)
    ensures Plane(h) == Next(Plane(g))
  {
    forall q: Point ensures q in Plane(h) <==> q in Next(Plane(g)) {
      AliveWraps(g, q.0, q.1);
      var r, c := Wrap(q.0, g.rows), Wrap(q.1, g.cols);
      assert Right(g, r, c, h.cells[r][c]);
    }
  }

  /** step: the next generation of the torus, in a new grid; a grid without cells stays as it is. */
  method Step(g: Grid) returns (h: Grid)
    requires Shaped(g)
    ensures Shaped(h) && h.rows == g.rows && h.cols == g.cols
    ensures Field(g) ==> IsGeneration(g, h, 1)
    ensures !Field(g) ==> h == g
  {
    var next := seq(g.rows, _ => seq(g.cols, _ => false));
    for r := 0 to g.rows
      invariant |next| == g.rows && forall y | 0 <= y < g.rows :: |next[y]| == g.cols
      invariant forall y, x | 0 <= y < r && 0 <= x < g.cols :: Right(g, y, x, next[y][x])
    {
      for c := 0 to g.cols
        invariant |next| == g.rows && forall y | 0 <= y < g.rows :: |next[y]| == g.cols
        invariant forall y, x | 0 <= y < r && 0 <= x < g.cols :: Right(g, y, x, next[y][x])
        invariant forall x | 0 <= x < c :: Right(g, r, x, next[r][x])
      {
        var cell := NextCell(g, r, c);
        next := next[r := next[r][c := cell]];
      }
    }
    h := Grid(g.rows, g.cols, next);
    if Field(g) {
      CellsAliveIsNext(g, h);
      assert Iterate(Next, Plane(g), 0) == Plane(g);
    } else {
      assert next == g.cells;
    }
  }

  // ----- Translations

  /** Everything moved down by dr and right by dc. */
  ghost function Shift(p: iset<Point>, dr: int, dc: int): iset<Point> {
    iset q: Point | (q.0 - dr, q.1 - dc) in p
  }

  /** h is g moved down by dr and right by dc, round the torus. */
  ghost predicate IsShift(g: Grid, h: Grid, dr: int, dc: int) {
    Field(g) && Field(h) && h.rows == g.rows && h.cols == g.cols && Plane(h) == Shift(Plane(g), dr, dc)
  }

  ghost predicate CellsMoved(g: Grid, h: Grid, dr: int, dc: int) {
    && Field(g) && Field(h) && h.rows == g.rows && h.cols == g.cols
    && forall r, c | 0 <= r < g.rows && 0 <= c < g.cols :: CellMoved(g, h, dr, dc, r, c)
  }

  ghost predicate CellMoved(g: Grid, h: Grid, dr: int, dc: int, r: nat, c: nat)
    requires Field(g) && Field(h) && r < h.rows && c < h.cols
  {
    h.cells[r][c] == g.cells[(r - dr) % g.rows][(c - dc) % g.cols]
  }

  lemma CellMovedAt(g: Grid, h: Grid, dr: int, dc: int, r: nat, c: nat)
    requires Field(g) && Field(h) && h.rows == g.rows && h.cols == g.cols && r < h.rows && c < h.cols
    ensures CellMoved(g, h, dr, dc, r, c) <==> At(h, r, c) == At(g, r - dr, c - dc)
  {
    WrapIsRemainder(r - dr, g.rows);
    WrapIsRemainder(c - dc, g.cols);
  }

  lemma PointMoved(g: Grid, h: Grid, dr: int, dc: int, q: Point)
    requires CellsMoved(g, h, dr, dc)
    ensures q in Plane(h) <==> q in Shift(Plane(g), dr, dc)
  {
    var r, c := Wrap(q.0, g.rows), Wrap(q.1, g.cols);
    assert CellMoved(g, h, dr, dc, r, c);
    CellMovedAt(g, h, dr, dc, r, c);
    WrapInside(q.0, -dr, g.rows);
    WrapInside(q.1, -dc, g.cols);
  }

  /** Cell by cell: each is taken from the remainders of its coordinates before the move. */
  lemma ShiftIsCellwise(g: Grid, h: Grid, dr: int, dc: int)
    ensures IsShift(g, h, dr, dc) <==> CellsMoved(g, h, dr, dc)
  {
    if CellsMoved(g, h, dr, dc) {
      forall q: Point ensures q in Plane(h) <==> q in Shift(Plane(g), dr, dc) {
        PointMoved(g, h, dr, dc, q);
      }
    }
    if IsShift(g, h, dr, dc) {
      forall r: nat, c: nat | r < g.rows && c < g.cols ensures CellMoved(g, h, dr, dc, r, c) {
        assert (r, c) in Plane(h) <==> (r, c) in Shift(Plane(g), dr, dc);
        CellMovedAt(g, h, dr, dc, r, c);
      }
    }
  }

  lemma AliveShifted(p: iset<Point>, dr: int, dc: int, q: Point)
    ensures Alive(Shift(p, dr, dc), q) == Alive(p, (q.0 - dr, q.1 - dc))
  {
    var s, q' := Shift(p, dr, dc), (q.0 - dr, q.1 - dc);
    forall d <- AROUND ensures Near(s, q, d) == Near(p, q', d) {
      assert (q.0 + d.0 - dr, q.1 + d.1 - dc) == (q'.0 + d.0, q'.1 + d.1);
    }
    AliveLocally(s, q, p, q');
  }

  lemma NextCommutes(p: iset<Point>, dr: int, dc: int)
    ensures Next(Shift(p, dr, dc)) == Shift(Next(p), dr, dc)
  {
    forall q: Point ensures q in Next(Shift(p, dr, dc)) <==> q in Shift(Next(p), dr, dc) {
      AliveShifted(p, dr, dc, q);
    }
  }

  lemma {:induction false} IterateCommutes<T(!new)>(f: T -> T, s: T -> T, x: T, n: nat)
    requires forall y :: f(s(y)) == s(f(y))
    ensures Iterate(f, s(x), n) == s(Iterate(f, x, n))
  {
    if n > 0 {
      IterateCommutes(f, s, x, n - 1);
    }
  }

  lemma {:induction false} IterateAdds<T>(f: T -> T, x: T, m: nat, n: nat)
    ensures Iterate(f, x, m + n) == Iterate(f, Iterate(f, x, m), n)
  {
    if n > 0 {
      IterateAdds(f, x, m, n - 1);
    }
  }

  ghost function Rounds(n: nat, m: nat): nat {
    if n == 0 then 0 else Rounds(n - 1, m) + m
  }

  /** If m rounds of f from x make one s and f commutes with s, then n times m rounds make n times s. */
  lemma {:induction false} IterateLaps<T(!new)>(f: T -> T, s: T -> T, x: T, m: nat, n: nat)
    requires (forall y :: f(s(y)) == s(f(y))) && Iterate(f, x, m) == s(x)
    ensures Iterate(f, x, Rounds(n, m)) == Iterate(s, x, n)
  {
    if n > 0 {
      IterateLaps(f, s, x, m, n - 1);
      IterateAdds(f, x, Rounds(n - 1, m), m);
      LapCommutes(f, s, x, m, n - 1);
    }
  }

  lemma {:induction false} LapCommutes<T(!new)>(f: T -> T, s: T -> T, x: T, m: nat, n: nat)
    requires (forall y :: f(s(y)) == s(f(y))) && Iterate(f, x, m) == s(x)
    ensures Iterate(f, Iterate(s, x, n), m) == s(Iterate(s, x, n))
  {
    if n > 0 {
      LapCommutes(f, s, x, m, n - 1);
      IterateCommutes(f, s, Iterate(s, x, n - 1), m);
    }
  }

  ghost function Mover(dr: int, dc: int): iset<Point> -> iset<Point> {
    p => Shift(p, dr, dc)
  }

  lemma MoverCommutes(dr: int, dc: int)
    ensures forall p :: Next(Mover(dr, dc)(p)) == Mover(dr, dc)(Next(p))
  {
    forall p ensures Next(Mover(dr, dc)(p)) == Mover(dr, dc)(Next(p)) {
      NextCommutes(p, dr, dc);
    }
  }

  lemma PlanesCommute(p: iset<Point>, n: nat, dr: int, dc: int)
    ensures Generation(Shift(p, dr, dc), n) == Shift(Generation(p, n), dr, dc)
  {
    MoverCommutes(dr, dc);
    IterateCommutes(Next, Mover(dr, dc), p, n);
  }

  lemma {:induction false} MovesAdd(p: iset<Point>, n: nat)
    ensures Iterate(Mover(1, 1), p, n) == Shift(p, n, n)
  {
    if n == 0 {
      NoShift(p);
    } else {
      MovesAdd(p, n - 1);
      ShiftTwice(p, n - 1, n - 1, 1, 1);
    }
  }

  /** On every torus, stepping commutes with every translation. */
  lemma StepCommutes(g: Grid, moved: Grid, next: Grid, movedNext: Grid, n: nat, dr: int, dc: int)
    requires IsShift(g, moved, dr, dc) && IsGeneration(g, next, n) && IsGeneration(moved, movedNext, n)
    ensures IsShift(next, movedNext, dr, dc)
  {
    PlanesCommute(Plane(g), n, dr, dc);
  }

  lemma ShiftTwice(p: iset<Point>, a: int, b: int, c: int, d: int)
    ensures Shift(Shift(p, a, b), c, d) == Shift(p, a + c, b + d)
  {
    forall q: Point ensures q in Shift(Shift(p, a, b), c, d) <==> q in Shift(p, a + c, b + d) {
      assert (q.0 - c - a, q.1 - d - b) == (q.0 - (a + c), q.1 - (b + d));
    }
  }

  lemma NoShift(p: iset<Point>)
    ensures Shift(p, 0, 0) == p
  {
  }

  // ----- The glider

  const GLIDER: seq<Point> := [(0, 1), (1, 2), (2, 0), (2, 1), (2, 2)]

  /** The only live cells are GLIDER with its corner at (r0, c0), wherever that is on the torus. */
  ghost predicate OnlyGlider(g: Grid, r0: int, c0: int) {
    match g
    case Grid(rows, cols, _) =>
      && Field(g)
      && forall r, c | 0 <= r < rows && 0 <= c < cols :: GliderAt(g, r0, c0, r, c)
  }

  ghost predicate GliderAt(g: Grid, r0: int, c0: int, r: int, c: int)
    requires Field(g)
  {
    At(g, r0 + r, c0 + c) == ((r, c) in GLIDER)
  }

  // Generation k of the glider whose corner is at the origin, in the plane.

  predicate Glides(k: nat, r: int, c: int) {
    match k
    case 0 => (r == 0 && c == 1) || (r == 1 && c == 2) || (r == 2 && 0 <= c <= 2)
    case 1 => (r == 1 && (c == 0 || c == 2)) || (r == 2 && 1 <= c <= 2) || (r == 3 && c == 1)
    case 2 => (r == 1 && c == 2) || (r == 2 && (c == 0 || c == 2)) || (r == 3 && 1 <= c <= 2)
    case 3 => (r == 1 && c == 1) || (r == 2 && 2 <= c <= 3) || (r == 3 && 1 <= c <= 2)
    case _ => (r == 1 && c == 2) || (r == 2 && c == 3) || (r == 3 && 1 <= c <= 3)
  }

  ghost function Phase(k: nat): iset<Point> {
    iset q: Point | Glides(k, q.0, q.1)
  }

  lemma PhaseNextAt(k: nat, r: int, c: int)
    requires k < 4
    ensures Alive(Phase(k), (r, c)) == Glides(k + 1, r, c)
  {
    SumDecides(Phase(k), r, c);
  }

  lemma PhaseNext(k: nat)
    requires k < 4
    ensures Next(Phase(k)) == Phase(k + 1)
  {
    forall q: Point ensures q in Next(Phase(k)) <==> q in Phase(k + 1) {
      PhaseNextAt(k, q.0, q.1);
    }
  }

  lemma PhaseFour()
    ensures Phase(4) == Shift(Phase(0), 1, 1)
  {
  }

  /** The representative of i from -1 on. */
  function Local(i: int, n: nat): int
    requires n > 0
  {
    Wrap(i + 1, n) - 1
  }

  /** One step to a neighbour is one step for the representative, except across the seam. */
  lemma LocalStep(i: int, d: int, n: nat)
    requires n > 1 && -1 <= d <= 1
    ensures var l, m := Local(i, n), Local(i + d, n);
            if l + d == -2 then m == n - 2 else if l + d == n - 1 then m == -1 else m == l + d
  {
    WrapInside(i + 1, d, n);
    WrapNear(Wrap(i + 1, n) + d, n);
  }

  /** A plane of period rows by cols, and a pattern of the plane. */
  datatype Scene = Scene(plane: iset<Point>, rows: nat, cols: nat, pattern: iset<Point>)

  /** The plane shows the pattern once in each period, and nothing else. */
  ghost predicate Shows(s: Scene) {
    match s
    case Scene(p, rows, cols, pattern) =>
      rows >= 6 && cols >= 6 && forall q: Point {:trigger Folded(rows, cols, q)} ::
        q in p <==> Folded(rows, cols, q) in pattern
  }

  function Folded(rows: nat, cols: nat, q: Point): Point
    requires rows > 0 && cols > 0
  {
    (Local(q.0, rows), Local(q.1, cols))
  }

  /** A pattern that fits into four by four cells. */
  ghost predicate Small(pattern: iset<Point>) {
    forall q: Point | q in pattern :: 0 <= q.0 <= 3 && 0 <= q.1 <= 3
  }

  /** Around every point the torus shows the small pattern just as the plane has it. */
  lemma ShowsNear(s: Scene, q: Point, d: Point)
    requires Shows(s) && Small(s.pattern) && -1 <= d.0 <= 1 && -1 <= d.1 <= 1
    ensures Near(s.plane, q, d) == Near(s.pattern, Folded(s.rows, s.cols, q), d)
  {
    var m := (q.0 + d.0, q.1 + d.1);
    assert m in s.plane <==> Folded(s.rows, s.cols, m) in s.pattern;
    LocalStep(q.0, d.0, s.rows);
    LocalStep(q.1, d.1, s.cols);
  }

  lemma AliveFolded(s: Scene, q: Point)
    requires Shows(s) && Small(s.pattern)
    ensures Alive(s.plane, q) == Alive(s.pattern, Folded(s.rows, s.cols, q))
  {
    var f := Folded(s.rows, s.cols, q);
    forall d <- AROUND ensures Near(s.plane, q, d) == Near(s.pattern, f, d) {
      ShowsNear(s, q, d);
    }
    ShowsNear(s, q, (0, 0));
    AliveLocally(s.plane, q, s.pattern, f);
  }

  /** A small pattern evolves on the torus as it does in the plane. */
  lemma ShowsNext(s: Scene)
    requires Shows(s) && Small(s.pattern)
    ensures Shows(Scene(Next(s.plane), s.rows, s.cols, Next(s.pattern)))
  {
    forall q: Point ensures q in Next(s.plane) <==> Folded(s.rows, s.cols, q) in Next(s.pattern) {
      AliveFolded(s, q);
    }
  }

  lemma ShowsMoved(s: Scene, t: Scene)
    requires Shows(s) && Shows(t) && Small(s.pattern) && s.rows == t.rows && s.cols == t.cols
    requires t.pattern == Shift(s.pattern, 1, 1)
    ensures t.plane == Shift(s.plane, 1, 1)
  {
    forall q: Point ensures q in t.plane <==> q in Shift(s.plane, 1, 1) {
      assert q in t.plane <==> Folded(s.rows, s.cols, q) in t.pattern;
      ShowsNear(s, q, (-1, -1));
    }
  }

  lemma OriginGlides(p: iset<Point>, rows: nat, cols: nat, n: nat)
    requires Shows(Scene(p, rows, cols, Phase(0))) && n == 4
    ensures Generation(p, n) == Shift(p, 1, 1)
  {
    for k := 0 to n
      invariant Shows(Scene(Generation(p, k), rows, cols, Phase(k)))
    {
      ShowsNext(Scene(Generation(p, k), rows, cols, Phase(k)));
      PhaseNext(k);
    }
    PhaseFour();
    ShowsMoved(Scene(p, rows, cols, Phase(0)), Scene(Generation(p, n), rows, cols, Phase(n)));
  }

  lemma LocalIsWrap(i: int, n: nat)
    requires n > 0
    ensures Local(i, n) == if Wrap(i, n) == n - 1 then -1 else Wrap(i, n)
  {
    WrapInside(i, 1, n);
    WrapNear(Wrap(i, n) + 1, n);
  }

  lemma GliderGlides(r: int, c: int)
    ensures (r, c) in GLIDER <==> Glides(0, r, c)
  {
  }

  lemma OriginAt(g: Grid, r0: int, c0: int, r: int, c: int)
    requires OnlyGlider(g, r0, c0) && g.rows >= 6 && g.cols >= 6
    ensures At(g, r + r0, c + c0) == Glides(0, Local(r, g.rows), Local(c, g.cols))
  {
    var y, x := Wrap(r, g.rows), Wrap(c, g.cols);
    WrapInside(r, r0, g.rows);
    WrapInside(c, c0, g.cols);
    assert GliderAt(g, r0, c0, y, x);
    GliderGlides(y, x);
    LocalIsWrap(r, g.rows);
    LocalIsWrap(c, g.cols);
  }

  /** A torus holding only the glider, seen from the glider's corner. */
  lemma ToOrigin(g: Grid, r0: int, c0: int)
    requires OnlyGlider(g, r0, c0) && g.rows >= 6 && g.cols >= 6
    ensures Shows(Scene(Shift(Plane(g), -r0, -c0), g.rows, g.cols, Phase(0)))
  {
    forall q: Point ensures q in Shift(Plane(g), -r0, -c0) <==> Folded(g.rows, g.cols, q) in Phase(0) {
      OriginAt(g, r0, c0, q.0, q.1);
      assert q in Shift(Plane(g), -r0, -c0) <==> (q.0 + r0, q.1 + c0) in Plane(g);
    }
  }

  /** What moving by (1, 1) does to a moved plane it does to the plane. */
  lemma Conjugate(p: iset<Point>, h: iset<Point>, a: int, b: int)
    requires Shift(h, a, b) == Shift(Shift(p, a, b), 1, 1)
    ensures h == Shift(p, 1, 1)
  {
    forall q: Point ensures q in h <==> q in Shift(p, 1, 1) {
      var m := (q.0 + a, q.1 + b);
      assert q == (m.0 - a, m.1 - b) && (m.0 - 1 - a, m.1 - 1 - b) == (q.0 - 1, q.1 - 1);
      assert m in Shift(h, a, b) <==> m in Shift(Shift(p, a, b), 1, 1);
    }
  }

  /** Seen from (-a, -b), the plane after n generations is the plane moved by (1, 1). */
  ghost predicate Moves(m: Motion) {
    match m
    case Motion(p, a, b, n) => Generation(Shift(p, a, b), n) == Shift(Shift(p, a, b), 1, 1)
  }

  datatype Motion = Motion(plane: iset<Point>, a: int, b: int, n: nat)

  lemma PlaneTravels(m: Motion)
    requires Moves(m)
    ensures Generation(m.plane, m.n) == Shift(m.plane, 1, 1)
  {
    PlanesCommute(m.plane, m.n, m.a, m.b);
    Conjugate(m.plane, Generation(m.plane, m.n), m.a, m.b);
  }

  lemma PlaneTravelsOn(m: Motion, n: nat)
    requires Moves(m)
    ensures Generation(m.plane, Rounds(n, m.n)) == Shift(m.plane, n, n)
  {
    PlaneTravels(m);
    MoverCommutes(1, 1);
    IterateLaps(Next, Mover(1, 1), m.plane, m.n, n);
    MovesAdd(m.plane, n);
  }

  lemma GliderMoves(g: Grid, r0: int, c0: int) returns (m: Motion)
    requires OnlyGlider(g, r0, c0) && g.rows >= 6 && g.cols >= 6
    ensures m.plane == Plane(g) && m.n == 4 && Moves(m)
  {
    m := Motion(Plane(g), -r0, -c0, 4);
    ToOrigin(g, r0, c0);
    OriginGlides(Shift(m.plane, m.a, m.b), g.rows, g.cols, m.n);
  }

  lemma {:induction false} FourRounds(n: nat)
    ensures Rounds(n, 4) == 4 * n
  {
    if n > 0 {
      FourRounds(n - 1);
    }
  }

  /**
   On an otherwise empty torus of at least six by six, wherever GLIDER sits, after 4n steps the grid is the same
   grid moved n down and n right.
   */
  lemma GliderTravels(g: Grid, h: Grid, r0: int, c0: int, n: nat)
    requires OnlyGlider(g, r0, c0) && g.rows >= 6 && g.cols >= 6 && IsGeneration(g, h, 4 * n)
    ensures IsShift(g, h, n, n)
  {
    FourRounds(n);
    var m := GliderMoves(g, r0, c0);
    PlaneTravelsOn(m, n);
  }

  // ----- The glider comes back

  /** A shift by whole turns is none. */
  lemma WholeTurns(g: Grid, h: Grid, dr: int, dc: int)
    requires IsShift(g, h, dr, dc) && Wrap(dr, g.rows) == 0 && Wrap(dc, g.cols) == 0
    ensures h == g
  {
    forall q: Point ensures q in Plane(h) <==> q in Plane(g) {
      TurnBack(q.0, dr, g.rows);
      TurnBack(q.1, dc, g.cols);
      assert q in Plane(h) <==> q in Shift(Plane(g), dr, dc);
    }
    SamePlane(g, h);
  }

  lemma TurnBack(i: int, d: int, n: nat)
    requires n > 0 && Wrap(d, n) == 0
    ensures Wrap(i - d, n) == Wrap(i, n)
  {
    WrapInside(d, i - d, n);
  }

  /** The row of three is nowhere else in the glider. */
  lemma ThreeInARow(r: int, c: int, n: nat, d: int, m: int)
    requires Glides(0, r, c) && Glides(0, r, d) && Glides(0, r, m) && n >= 6
    requires d == (if c + 1 == n - 1 then -1 else c + 1) && m == (if d + 1 == n - 1 then -1 else d + 1)
    ensures r == 2 && c == 0
  {
  }

  lemma LocalZero(d: int, n: nat, k: nat)
    requires n >= 6 && k <= 2 && Local(k + d, n) == k
    ensures Wrap(d, n) == 0
  {
    WrapInside(k + d + 1, -(k + 1), n);
    WrapNear(0, n);
  }

  /** Only whole turns bring the glider back to its place. */
  lemma OnlyWholeTurns(g: Grid, r0: int, c0: int, dr: int, dc: int)
    requires OnlyGlider(g, r0, c0) && g.rows >= 6 && g.cols >= 6 && IsShift(g, g, dr, dc)
    ensures Wrap(dr, g.rows) == 0 && Wrap(dc, g.cols) == 0
  {
    var r := Local(2 + dr, g.rows);
    CellComesBack(g, r0, c0, dr, dc, 0);
    CellComesBack(g, r0, c0, dr, dc, 1);
    CellComesBack(g, r0, c0, dr, dc, 2);
    LocalStep(dc, 1, g.cols);
    LocalStep(dc + 1, 1, g.cols);
    ThreeInARow(r, Local(dc, g.cols), g.cols, Local(dc + 1, g.cols), Local(dc + 2, g.cols));
    LocalZero(dr, g.rows, 2);
    LocalZero(dc, g.cols, 0);
  }

  lemma CellOfThree(g: Grid, r0: int, c0: int, k: nat)
    requires OnlyGlider(g, r0, c0) && g.rows >= 6 && g.cols >= 6 && k <= 2
    ensures At(g, 2 + r0, k + c0)
  {
    OriginAt(g, r0, c0, 2, k);
    LocalIsWrap(2, g.rows);
    LocalIsWrap(k, g.cols);
  }

  lemma ShiftedAt(g: Grid, h: Grid, dr: int, dc: int, r: int, c: int, y: int, x: int)
    requires IsShift(g, h, dr, dc) && y == r + dr && x == c + dc
    ensures At(h, y, x) == At(g, r, c)
  {
    assert (y, x) in Plane(h) <==> (y, x) in Shift(Plane(g), dr, dc);
  }

  /** The cell (2, k) of the glider, moved. */
  lemma CellComesBack(g: Grid, r0: int, c0: int, dr: int, dc: int, k: nat)
    requires OnlyGlider(g, r0, c0) && g.rows >= 6 && g.cols >= 6 && IsShift(g, g, dr, dc) && k <= 2
    ensures Glides(0, Local(2 + dr, g.rows), Local(dc + k, g.cols))
  {
    CellOfThree(g, r0, c0, k);
    ShiftedAt(g, g, dr, dc, 2 + r0, k + c0, 2 + dr + r0, dc + k + c0);
    OriginAt(g, r0, c0, 2 + dr, dc + k);
  }

  /** After 4n steps the grid is the old one again exactly if both sizes divide n. */
  lemma GliderReturns(g: Grid, h: Grid, r0: int, c0: int, n: nat)
    requires OnlyGlider(g, r0, c0) && g.rows >= 6 && g.cols >= 6 && IsGeneration(g, h, 4 * n)
    ensures h == g <==> n % g.rows == 0 && n % g.cols == 0
  {
    GliderTravels(g, h, r0, c0, n);
    WrapIsRemainder(n, g.rows);
    WrapIsRemainder(n, g.cols);
    if h == g {
      OnlyWholeTurns(g, r0, c0, n, n);
    }
    if n % g.rows == 0 && n % g.cols == 0 {
      WholeTurns(g, h, n, n);
    }
  }

  // ----- Running

  lemma OneGenerationMore(g: Grid, h: Grid, k: Grid, n: nat)
    requires IsGeneration(g, h, n) && IsGeneration(h, k, 1)
    ensures IsGeneration(g, k, n + 1)
  {
    IterateAdds(Next, Plane(g), n, 1);
  }

  /** n steps one after the other are n generations. */
  method Steps(g: Grid, n: nat) returns (h: Grid)
    requires Field(g)
    ensures IsGeneration(g, h, n)
  {
    h := g;
    for k := 0 to n
      invariant IsGeneration(g, h, k)
    {
      var next := Step(h);
      OneGenerationMore(g, h, next, k);
      h := next;
    }
  }

  // ----- inject_glider

  /** inject_glider at a base drawn from its two ranges; fields under six by six are left alone. */
  method InjectGlider(g: Grid, baseR: nat, baseC: nat) returns (h: Grid)
    requires Shaped(g)
    requires g.rows >= 6 && g.cols >= 6 ==> 1 <= baseR < g.rows - 4 && 1 <= baseC < g.cols - 4
    ensures g.rows < 6 || g.cols < 6 ==> h == g
    ensures Shaped(h) && h.rows == g.rows && h.cols == g.cols
    ensures g.rows >= 6 && g.cols >= 6 ==>
      forall r, c | 0 <= r < g.rows && 0 <= c < g.cols :: Injected(g, h, baseR, baseC, r, c)
  {
    if g.rows < 6 || g.cols < 6 {
      return g;
    }
    var out := g.cells;
    for i := 0 to |GLIDER|
      invariant |out| == g.rows && forall r | 0 <= r < g.rows :: |out[r]| == g.cols
      invariant forall r, c | 0 <= r < g.rows && 0 <= c < g.cols ::
        out[r][c] == (g.cells[r][c] || (r - baseR, c - baseC) in GLIDER[..i])
    {
      var d := GLIDER[i];
      var r, c := baseR + d.0, baseC + d.1;
      assert GLIDER[..i + 1] == GLIDER[..i] + [d];
      out := out[r := out[r][c := true]];
    }
    assert GLIDER[..|GLIDER|] == GLIDER;
    h := Grid(g.rows, g.cols, out);
  }

  lemma GliderIsSmall(r: int, c: int)
    requires !(0 <= r <= 2 && 0 <= c <= 2)
    ensures (r, c) !in GLIDER
  {
  }

  ghost predicate Injected(g: Grid, h: Grid, baseR: nat, baseC: nat, r: int, c: int)
    requires Shaped(g) && Shaped(h) && g.rows == h.rows && g.cols == h.cols && 0 <= r < g.rows && 0 <= c < g.cols
  {
    h.cells[r][c] == (g.cells[r][c] || (r - baseR, c - baseC) in GLIDER)
  }

  lemma InjectedAt(g: Grid, h: Grid, baseR: nat, baseC: nat, r: nat, c: nat)
    requires Field(g) && Field(h) && g.rows == h.rows && g.cols == h.cols && r < h.rows && c < h.cols
    requires baseR < h.rows - 4 && baseC < h.cols - 4
    requires var y, x := Wrap(baseR + r, h.rows), Wrap(baseC + c, h.cols);
             Injected(g, h, baseR, baseC, y, x) && !g.cells[y][x]
    ensures GliderAt(h, baseR, baseC, r, c)
  {
    var y, x := Wrap(baseR + r, h.rows), Wrap(baseC + c, h.cols);
    WrapNear(baseR + r, h.rows);
    WrapNear(baseC + c, h.cols);
    if y != baseR + r || x != baseC + c {
      GliderIsSmall(r, c);
      GliderIsSmall(y - baseR, x - baseC);
    }
  }

  /** Injected into an empty field the glider is alone there, so it travels. */
  lemma InjectedIsOnlyGlider(g: Grid, h: Grid, baseR: nat, baseC: nat)
    requires Field(g) && Field(h) && g.rows == h.rows && g.cols == h.cols
    requires baseR < h.rows - 4 && baseC < h.cols - 4
    requires forall r, c | 0 <= r < h.rows && 0 <= c < h.cols :: !g.cells[r][c]
    requires forall r, c | 0 <= r < h.rows && 0 <= c < h.cols :: Injected(g, h, baseR, baseC, r, c)
    ensures OnlyGlider(h, baseR, baseC)
  {
    forall r, c | 0 <= r < h.rows && 0 <= c < h.cols ensures GliderAt(h, baseR, baseC, r, c) {
      InjectedAt(g, h, baseR, baseC, r, c);
    }
  }

  /**
   A glider injected into an empty field and stepped 4n times has moved n down and n right; it is back in its place
   exactly if both sizes divide n.
   */
  method Fly(g: Grid, baseR: nat, baseC: nat, n: nat) returns (start: Grid, end: Grid)
    requires Field(g) && g.rows >= 6 && g.cols >= 6 && 1 <= baseR < g.rows - 4 && 1 <= baseC < g.cols - 4
    requires forall r, c | 0 <= r < g.rows && 0 <= c < g.cols :: !g.cells[r][c]
    ensures OnlyGlider(start, baseR, baseC) && CellsMoved(start, end, n, n)
    ensures end == start <==> n % g.rows == 0 && n % g.cols == 0
  {
    start := InjectGlider(g, baseR, baseC);
    InjectedIsOnlyGlider(g, start, baseR, baseC);
    end := Steps(start, 4 * n);
    GliderTravels(start, end, baseR, baseC, n);
    ShiftIsCellwise(start, end, n, n);
    GliderReturns(start, end, baseR, baseC, n);
  }

  // ----- The demo

  const STALE_GENS := 60

  function Living(row: seq<bool>): nat {
    if row == [] then 0 else Living(row[..|row| - 1]) + One(row[|row| - 1])
  }

  function Population(cells: seq<seq<bool>>): nat {
    if cells == [] then 0 else Population(cells[..|cells| - 1]) + Living(cells[|cells| - 1])
  }

  /** The live cells of a row, which is row n, and of all rows. */
  ghost function LiveIn(n: nat, row: seq<bool>): set<(nat, nat)> {
    set c: nat | c < |row| && row[c] :: (n, c)
  }

  ghost function LiveCells(cells: seq<seq<bool>>): set<(nat, nat)> {
    set r: nat, c: nat | r < |cells| && c < |cells[r]| && cells[r][c] :: (r, c)
  }

  lemma RowGrows(n: nat, row: seq<bool>, m: nat)
    requires m + 1 == |row|
    ensures LiveIn(n, row) == LiveIn(n, row[..m]) + (if row[m] then {(n, m)} else {})
    ensures (n, m) !in LiveIn(n, row[..m])
  {
    forall x: (nat, nat) ensures x in LiveIn(n, row) <==> x in LiveIn(n, row[..m]) + (if row[m] then {(n, m)} else {}) {
      var c := x.1;
      assert c < m ==> row[..m][c] == row[c];
    }
  }

  lemma {:induction false} LivingCounts(n: nat, row: seq<bool>)
    ensures Living(row) == |LiveIn(n, row)|
  {
    if row == [] {
      assert LiveIn(n, row) == {};
    } else {
      var m := |row| - 1;
      LivingCounts(n, row[..m]);
      RowGrows(n, row, m);
    }
  }

  lemma CellsGrow(cells: seq<seq<bool>>, m: nat)
    requires m + 1 == |cells|
    ensures LiveCells(cells) == LiveCells(cells[..m]) + LiveIn(m, cells[m]) && LiveCells(cells[..m]) !! LiveIn(m, cells[m])
  {
    forall x: (nat, nat) ensures x in LiveCells(cells) <==> x in LiveCells(cells[..m]) + LiveIn(m, cells[m]) {
      var r := x.0;
      assert r < m ==> cells[..m][r] == cells[r];
    }
  }

  /** The population is the number of live cells. */
  lemma {:induction false} PopulationCounts(cells: seq<seq<bool>>)
    ensures Population(cells) == |LiveCells(cells)|
  {
    if cells == [] {
      assert LiveCells(cells) == {};
    } else {
      var m := |cells| - 1;
      PopulationCounts(cells[..m]);
      LivingCounts(m, cells[m]);
      CellsGrow(cells, m);
    }
  }

  /** The frames drawn, in which of them a glider was injected, and where. */
  datatype Film = Film(frames: seq<Grid>, injected: seq<bool>, bases: seq<(nat, nat)>)

  /** Frame i has as many living cells as the one before. */
  predicate Static(f: Film, i: int) {
    0 < i < |f.frames| && Population(f.frames[i].cells) == Population(f.frames[i - 1].cells)
  }

  /** Frame i counts on towards the next glider. */
  predicate Counts(f: Film, i: int) {
    Static(f, i) && i < |f.injected| && !f.injected[i]
  }

  /** A glider is due at frame k: sixty static frames up to this one, at none of the others a glider. */
  ghost predicate Due(f: Film, k: nat) {
    Static(f, k) && forall i | k - 60 < i < k :: Counts(f, i)
  }

  /** m is g with a glider set at the base; fields under six by six are left alone. */
  ghost predicate WithGlider(g: Grid, m: Grid, base: (nat, nat)) {
    && Field(g) && Field(m) && m.rows == g.rows && m.cols == g.cols
    && if g.rows < 6 || g.cols < 6 then m == g
       else forall r, c | 0 <= r < g.rows && 0 <= c < g.cols :: Injected(g, m, base.0, base.1, r, c)
  }

  /** h is the next generation of g, with a glider set in g first if one is injected. */
  ghost predicate NextFrame(g: Grid, h: Grid, injected: bool, base: (nat, nat)) {
    if injected then exists m :: WithGlider(g, m, base) && IsGeneration(m, h, 1) else IsGeneration(g, h, 1)
  }

  /** Frame k is shown right: a glider exactly if one is due, and the next generation behind it. */
  ghost predicate ShownRight(f: Film, k: nat)
    requires k + 1 < |f.frames| && k < |f.injected| == |f.bases|
  {
    (f.injected[k] <==> Due(f, k)) && NextFrame(f.frames[k], f.frames[k + 1], f.injected[k], f.bases[k])
  }

  /** The film up to frame n, and what the loop remembers: the last population and the static frames since a reset. */
  ghost predicate Filmed(f: Film, n: nat, lastPop: int, stale: nat) {
    match f
    case Film(frames, injected, bases) =>
      && |frames| == n + 1 && |injected| == |bases| == n && stale < STALE_GENS
      && (forall k | 0 <= k < n :: ShownRight(f, k))
      && lastPop == (if n == 0 then -1 else Population(frames[n - 1].cells))
      && (if n == 0 then stale == 0 else stale < n && !Counts(f, n - stale - 1))
      && forall i | n - stale <= i < n :: Counts(f, i)
  }

  function Grown(f: Film, h: Grid, injected: bool, base: (nat, nat)): Film {
    Film(f.frames + [h], f.injected + [injected], f.bases + [base])
  }

  /** What was shown stays as it was. */
  lemma CountsStays(f: Film, h: Grid, injected: bool, base: (nat, nat), i: int)
    requires |f.frames| == |f.injected| + 1
    ensures i < |f.frames| ==> Static(Grown(f, h, injected, base), i) == Static(f, i)
    ensures i < |f.injected| ==> Counts(Grown(f, h, injected, base), i) == Counts(f, i)
  {
  }

  lemma DueStays(f: Film, h: Grid, injected: bool, base: (nat, nat), k: nat)
    requires |f.frames| == |f.injected| + 1 && k < |f.frames|
    ensures Due(Grown(f, h, injected, base), k) == Due(f, k)
  {
    var w := Grown(f, h, injected, base);
    forall i | k - STALE_GENS < i <= k
      ensures i < |f.frames| ==> Static(w, i) == Static(f, i)
      ensures i < |f.injected| ==> Counts(w, i) == Counts(f, i)
    {
      CountsStays(f, h, injected, base, i);
    }
  }

  lemma ShownStays(f: Film, h: Grid, injected: bool, base: (nat, nat), k: nat)
    requires |f.frames| == |f.injected| + 1 && |f.injected| == |f.bases| && k < |f.injected| && ShownRight(f, k)
    ensures ShownRight(Grown(f, h, injected, base), k)
  {
    DueStays(f, h, injected, base, k);
  }

  /** The counter says when a glider is due. */
  lemma StaleIsDue(f: Film, n: nat, lastPop: int, stale: nat)
    requires Filmed(f, n, lastPop, stale)
    ensures Static(f, n) <==> Population(f.frames[n].cells) == lastPop
    ensures Due(f, n) <==> Static(f, n) && stale + 1 >= STALE_GENS
  {
    if n > 0 && stale + 1 < STALE_GENS {
      var reset := n - stale - 1;
      assert !Counts(f, reset);
    }
  }

  /** One frame more. */
  lemma FilmGrows(f: Film, n: nat, lastPop: int, stale: nat, h: Grid, injected: bool, base: (nat, nat))
    requires Filmed(f, n, lastPop, stale) && (injected <==> Due(f, n)) && NextFrame(f.frames[n], h, injected, base)
    ensures Filmed(Grown(f, h, injected, base), n + 1, Population(f.frames[n].cells),
                   if Static(f, n) && !injected then stale + 1 else 0)
  {
    var w := Grown(f, h, injected, base);
    StaleIsDue(f, n, lastPop, stale);
    forall i | 0 <= i <= n ensures i < n ==> Counts(w, i) == Counts(f, i) {
      CountsStays(f, h, injected, base, i);
    }
    forall k | 0 <= k < n ensures ShownRight(w, k) {
      ShownStays(f, h, injected, base, k);
    }
    DueStays(f, h, injected, base, n);
    CountsStays(f, h, injected, base, n);
  }

  /** The glider, if one is injected, and the step behind it. */
  method DrawNext(grid: Grid, inject: bool, base: (nat, nat)) returns (h: Grid)
    requires Field(grid)
    requires grid.rows >= 6 && grid.cols >= 6 ==> 1 <= base.0 < grid.rows - 4 && 1 <= base.1 < grid.cols - 4
    ensures NextFrame(grid, h, inject, base) && Field(h) && h.rows == grid.rows && h.cols == grid.cols
  {
    var m := grid;
    if inject {
      m := InjectGlider(grid, base.0, base.1);
      assert WithGlider(grid, m, base);
    }
    h := Step(m);
  }

  /**
   run, unless it is paused or seeded anew, for limit frames and with the bases the random ranges would give: a glider
   is injected exactly at every sixtieth static frame in a row, and each frame is the next generation of the one
   before, with that glider.
   */
  method Run(g: Grid, limit: nat, bases: seq<(nat, nat)>) returns (film: Film)
    requires Field(g) && |bases| == limit
    requires g.rows >= 6 && g.cols >= 6 ==>
      forall k | 0 <= k < limit :: 1 <= bases[k].0 < g.rows - 4 && 1 <= bases[k].1 < g.cols - 4
    ensures |film.frames| == limit + 1 && |film.injected| == limit && film.bases == bases && film.frames[0] == g
    ensures forall k | 0 <= k < limit :: ShownRight(film, k)
  {
    var grid := g;
    var lastPop: int, stale: nat := -1, 0;
    film := Film([g], [], []);
    for gen := 0 to limit
      invariant Filmed(film, gen, lastPop, stale) && film.frames[gen] == grid && film.frames[0] == g
      invariant film.bases == bases[..gen] && Field(grid) && grid.rows == g.rows && grid.cols == g.cols
    {
      var population := Population(grid.cells);
      var inject := false;
      StaleIsDue(film, gen, lastPop, stale);
      ghost var was := stale;
      if population == lastPop {
        stale := stale + 1;
        if stale >= STALE_GENS {
          inject := true;
          stale := 0;
        }
      } else {
        stale := 0;
      }
      var next := DrawNext(grid, inject, bases[gen]);
      FilmGrows(film, gen, lastPop, was, next, inject, bases[gen]);
      film := Grown(film, next, inject, bases[gen]);
      lastPop, grid := population, next;
    }
  }
}
