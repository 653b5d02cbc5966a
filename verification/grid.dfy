/** Cells, actions, the wall grid, the solver configuration and single-step
    movement of the stochastic gridworld (src/lib/mdp/gridworld.ts). */
module Grid {

  datatype Option<T> = None | Some(value: T)

  datatype Action = U | D | L | R

  /** The enumeration order U, D, L, R, which is also the tie-break priority. */
  const Actions: seq<Action> := [U, D, L, R]

  datatype Cell = Cell(r: int, c: int)

  /** v[r][c] is the wall between (r, c) and (r, c + 1);
      h[r][c] is the wall between (r, c) and (r + 1, c). */
  datatype Walls = Walls(n: int, v: seq<seq<bool>>, h: seq<seq<bool>>)

  datatype Config = Config(
    n: nat,
    gamma: real,
    start: Cell,
    terminal: Cell,
    pIntended: real,
    stepCost: real,
    terminalReward: real,
    bumpPenaltyEnabled: bool,
    bumpPenalty: real,
    walls: Walls)

  /** Result of one movement attempt. */
  datatype Move = Move(next: Cell, bumped: bool)

  function Max0(x: int): nat { if x < 0 then 0 else x }

  function Abs(x: int): nat { if x < 0 then -x else x }

  predicate InBounds(n: int, s: Cell) { 0 <= s.r < n && 0 <= s.c < n }

  /** The two cells share an edge of the grid. */
  predicate Adjacent(a: Cell, b: Cell) {
    (a.r == b.r && Abs(a.c - b.c) == 1) || (a.c == b.c && Abs(a.r - b.r) == 1)
  }

  /** The matrix shapes emptyWalls produces: n rows of n - 1 vertical entries
      and n - 1 rows of n horizontal entries. */
  predicate WellShaped(w: Walls) {
    && |w.v| == Max0(w.n)
    && (forall i :: 0 <= i < |w.v| ==> |w.v[i]| == Max0(w.n - 1))
    && |w.h| == Max0(w.n - 1)
    && (forall i :: 0 <= i < |w.h| ==> |w.h[i]| == Max0(w.n))
  }

  function EmptyWalls(n: int): (w: Walls)
    ensures w.n == n && WellShaped(w)
    ensures forall i, j :: 0 <= i < |w.v| && 0 <= j < |w.v[i]| ==> !w.v[i][j]
    ensures forall i, j :: 0 <= i < |w.h| && 0 <= j < |w.h[i]| ==> !w.h[i][j]
  {
    Walls(n,
          seq(Max0(n), _ => seq(Max0(n - 1), _ => false)),
          seq(Max0(n - 1), _ => seq(Max0(n), _ => false)))
  }

  predicate IsTerminal(cfg: Config, s: Cell)
    ensures IsTerminal(cfg, s) <==> s == cfg.terminal
  {
    s.r == cfg.terminal.r && s.c == cfg.terminal.c
  }

  function Clamp(n: int, x: int): int {
    var lo := if n - 1 < x then n - 1 else x;
    if 0 < lo then lo else 0
  }

  /** The nearest cell of the n-by-n board, coordinate by coordinate. */
  function ClampCell(n: int, s: Cell): (t: Cell)
    ensures n >= 1 ==> InBounds(n, t)
    ensures InBounds(n, s) ==> t == s
    ensures forall x :: InBounds(n, x) ==>
              Abs(t.r - s.r) <= Abs(x.r - s.r) && Abs(t.c - s.c) <= Abs(x.c - s.c)
  {
    Cell(Clamp(n, s.r), Clamp(n, s.c))
  }

  function Delta(a: Action): (d: Cell)
    ensures Abs(d.r) + Abs(d.c) == 1
  {
    match a
    case U => Cell(-1, 0)
    case D => Cell(1, 0)
    case L => Cell(0, -1)
    case R => Cell(0, 1)
  }

  function Opposite(a: Action): (b: Action)
    ensures Delta(b).r == -Delta(a).r && Delta(b).c == -Delta(a).c
  {
    match a
    case U => D
    case D => U
    case L => R
    case R => L
  }

  /** The two directions at right angles to a, the one towards lower indices first. */
  function Perpendicular(a: Action): (p: (Action, Action))
    ensures p.0 != p.1
    ensures p.0 != a && p.0 != Opposite(a) && p.1 != a && p.1 != Opposite(a)
  {
    if a == U || a == D then (L, R) else (U, D)
  }

  /** Both slip directions are orthogonal to a (their displacement has a zero
      dot product with a's), the first points towards lower indices and the
      second is its opposite. */
  lemma PerpendicularOrthogonal(a: Action)
    ensures var p := Perpendicular(a);
            && Delta(p.0).r * Delta(a).r + Delta(p.0).c * Delta(a).c == 0
            && Delta(p.1).r * Delta(a).r + Delta(p.1).c * Delta(a).c == 0
            && Delta(p.0).r + Delta(p.0).c == -1 && p.1 == Opposite(p.0)
  {
  }

  function Shift(s: Cell, a: Action): Cell {
    Cell(s.r + Delta(a).r, s.c + Delta(a).c)
  }

  /** m[i][j], or false where either index falls outside the (possibly ragged)
      matrix, which is what an optional-chained read defaulting to false gives. */
  function Lookup(m: seq<seq<bool>>, i: int, j: int): bool {
    0 <= i < |m| && 0 <= j < |m[i]| && m[i][j]
  }

  function Min(x: int, y: int): int { if x < y then x else y }

  function BlockedByWall(w: Walls, from: Cell, to: Cell): (b: bool)
    ensures !InBounds(w.n, to) ==> b
    ensures !Adjacent(from, to) ==> b
    ensures InBounds(w.n, from) && InBounds(w.n, to) && Adjacent(from, to) ==>
              b == if from.r == to.r then Lookup(w.v, from.r, Min(from.c, to.c))
                   else Lookup(w.h, Min(from.r, to.r), from.c)
  {
    if to.r < 0 || to.r >= w.n || to.c < 0 || to.c >= w.n then true
    else if from.r == to.r && Abs(from.c - to.c) == 1 then
      Lookup(w.v, from.r, Min(from.c, to.c))
    else if from.c == to.c && Abs(from.r - to.r) == 1 then
      Lookup(w.h, Min(from.r, to.r), from.c)
    else true
  }

  function AttemptMove(cfg: Config, s: Cell, a: Action): (m: Move)
    ensures m.bumped ==> m.next == s
    ensures !m.bumped ==> m.next == Shift(s, a) && InBounds(cfg.walls.n, m.next)
    ensures !InBounds(cfg.walls.n, Shift(s, a)) ==> m.bumped
    ensures InBounds(cfg.walls.n, s) ==> InBounds(cfg.walls.n, m.next)
    ensures m.bumped <==> m.next == s
  {
    var to := Shift(s, a);
    var bumped := BlockedByWall(cfg.walls, s, to);
    Move(if bumped then s else to, bumped)
  }

  /** Row-major flat index. */
  function Idx(n: int, s: Cell): (i: int)
    ensures InBounds(n, s) ==> 0 <= i < n * n
  {
    IdxBound(n, s);
    s.r * n + s.c
  }

  lemma IdxBound(n: int, s: Cell)
    ensures InBounds(n, s) ==> 0 <= s.r * n + s.c < n * n
  {
    if InBounds(n, s) {
      assert s.r * n <= (n - 1) * n;
      assert (n - 1) * n == n * n - n;
    }
  }

  /** Remainder truncated towards zero, as the `%` operator of the source
      language computes it (Dafny's `%` never yields a negative value). */
  function TruncRem(i: int, n: int): int
    requires n > 0
  {
    if i >= 0 then i % n else -((-i) % n)
  }

  /** Inverse of Idx; for a positive divisor, Dafny's `/` is the floor of the quotient. */
  function CellFromIdx(n: int, i: int): (s: Cell)
    requires n > 0
    ensures 0 <= i < n * n ==> InBounds(n, s) && Idx(n, s) == i
  {
    QuotientBound(n, i);
    Cell(i / n, TruncRem(i, n))
  }

  lemma QuotientBound(n: int, i: int)
    requires n > 0
    ensures 0 <= i < n * n ==> 0 <= i / n < n
  {
  }

  lemma MulAtLeast(k: int, n: int)
    requires k >= 1 && n > 0
    ensures k * n >= n
  {
  }

  /** Division and remainder are determined by any decomposition i == q * n + m with 0 <= m < n. */
  lemma DivModUnique(i: int, n: int, q: int, m: int)
    requires n > 0 && 0 <= m < n && i == q * n + m
    ensures i / n == q && i % n == m
  {
    var q', m' := i / n, i % n;
    assert i == q' * n + m';
    if q' < q {
      assert (q - q') * n == q * n - q' * n;
      MulAtLeast(q - q', n);
    } else if q' > q {
      assert (q' - q) * n == q' * n - q * n;
      MulAtLeast(q' - q, n);
    }
  }

  /** Cell to index to cell is the identity on the board, so Idx is a
      bijection from the n-by-n cells onto [0, n * n) with inverse CellFromIdx. */
  lemma IdxRoundTrip(n: int, s: Cell)
    requires InBounds(n, s)
    ensures 0 <= Idx(n, s) < n * n
    ensures CellFromIdx(n, Idx(n, s)) == s
  {
    DivModUnique(s.r * n + s.c, n, s.r, s.c);
  }

  /** Distinct board cells have distinct indices. */
  lemma IdxInjective(n: int, a: Cell, b: Cell)
    requires InBounds(n, a) && InBounds(n, b) && Idx(n, a) == Idx(n, b)
    ensures a == b
  {
    IdxRoundTrip(n, a);
    IdxRoundTrip(n, b);
  }

  /** The move a wall check treats as open is exactly a one-cell step in some direction. */
  lemma AdjacentIsShift(a: Cell, b: Cell)
    ensures Adjacent(a, b) <==> exists act :: Shift(a, act) == b
  {
    if Adjacent(a, b) {
      if b.r == a.r - 1 { assert Shift(a, U) == b; }
      else if b.r == a.r + 1 { assert Shift(a, D) == b; }
      else if b.c == a.c - 1 { assert Shift(a, L) == b; }
      else { assert Shift(a, R) == b; }
    }
  }

  /** Blocking is symmetric between two in-bounds neighbours: both directions read
      the same entry of v or h. */
  lemma BlockedSymmetric(w: Walls, a: Cell, b: Cell)
    requires InBounds(w.n, a) && InBounds(w.n, b) && Adjacent(a, b)
    ensures BlockedByWall(w, a, b) == BlockedByWall(w, b, a)
  {
  }

  /** With no walls set, every step between two in-bounds neighbours is open. */
  lemma EmptyWallsOpen(n: int, a: Cell, b: Cell)
    requires InBounds(n, a) && InBounds(n, b) && Adjacent(a, b)
    ensures !BlockedByWall(EmptyWalls(n), a, b)
  {
  }
}
