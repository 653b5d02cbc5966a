/** The step logic of the gridworld playground page
    (src/app/playground/mdp-gridworld/page.tsx): editing one wall, sampling the
    executed action from a uniform draw, and the rollout tick that moves the
    agent under the solved policy until it reaches the terminal cell or runs
    out of its step budget. */
module Playground {
  import opened Grid
  import opened TransitionModel

  /** Which wall matrix an edit addresses: v (between horizontal neighbours)
      or h (between vertical neighbours). */
  datatype WallKind = Vertical | Horizontal

  // ---------------------------------------------------------------------
  // Wall editing

  /** The matrix of the given kind. */
  function Matrix(w: Walls, kind: WallKind): seq<seq<bool>> {
    if kind == Vertical then w.v else w.h
  }

  /** Entry (r, c) of the matrix exists (the optional-chained read is not undefined). */
  predicate HasEntry(w: Walls, kind: WallKind, r: int, c: int) {
    var m := Matrix(w, kind);
    0 <= r < |m| && 0 <= c < |m[r]|
  }

  /** Two wall records have matrices of the same (possibly ragged) shape. */
  predicate SameShape(a: Walls, b: Walls) {
    && |a.v| == |b.v| && (forall i :: 0 <= i < |a.v| ==> |a.v[i]| == |b.v[i]|)
    && |a.h| == |b.h| && (forall i :: 0 <= i < |a.h| ==> |a.h[i]| == |b.h[i]|)
  }

  /** The walls after a toggle: entry (r, c) of the chosen matrix negated when
      it exists, the walls unchanged otherwise. */
  function Toggled(w: Walls, kind: WallKind, r: int, c: int): (w': Walls)
    ensures w'.n == w.n && SameShape(w', w)
    ensures !HasEntry(w, kind, r, c) ==> w' == w
    ensures forall k, i, j :: Lookup(Matrix(w', k), i, j) ==
              (Lookup(Matrix(w, k), i, j) != (k == kind && i == r && j == c && HasEntry(w, kind, r, c)))
  {
    if !HasEntry(w, kind, r, c) then w
    else if kind == Vertical then w.(v := w.v[r := w.v[r][c := !w.v[r][c]]])
    else w.(h := w.h[r := w.h[r][c := !w.h[r][c]]])
  }

  /** Toggling the same entry twice restores the walls. */
  lemma ToggleTwice(w: Walls, kind: WallKind, r: int, c: int)
    ensures Toggled(Toggled(w, kind, r, c), kind, r, c) == w
  {
    var w1 := Toggled(w, kind, r, c);
    if HasEntry(w, kind, r, c) {
      assert HasEntry(w1, kind, r, c);
      if kind == Vertical {
        assert w1.v[r][c := !w1.v[r][c]] == w.v[r];
        assert w1.v[r := w.v[r]] == w.v;
      } else {
        assert w1.h[r][c := !w1.h[r][c]] == w.h[r];
        assert w1.h[r := w.h[r]] == w.h;
      }
    }
  }

  /** The entry of v or h that the move between two in-bounds neighbours reads. */
  function WallBetween(a: Cell, b: Cell): (WallKind, int, int) {
    if a.r == b.r then (Vertical, a.r, Min(a.c, b.c)) else (Horizontal, Min(a.r, b.r), a.c)
  }

  /** A toggle flips whether a step between two in-bounds neighbours is blocked
      exactly when it edits the wall between them, in both directions, and
      leaves every other step as it was. */
  lemma ToggleFlipsBlocked(w: Walls, kind: WallKind, r: int, c: int, a: Cell, b: Cell)
    requires InBounds(w.n, a) && InBounds(w.n, b) && Adjacent(a, b)
    ensures BlockedByWall(Toggled(w, kind, r, c), a, b) ==
              (BlockedByWall(w, a, b) != (HasEntry(w, kind, r, c) && WallBetween(a, b) == (kind, r, c)))
    ensures WallBetween(a, b) == WallBetween(b, a)
  {
    var w' := Toggled(w, kind, r, c);
    if a.r == b.r {
      assert Lookup(Matrix(w', Vertical), a.r, Min(a.c, b.c)) ==
             (Lookup(Matrix(w, Vertical), a.r, Min(a.c, b.c)) !=
              (Vertical == kind && a.r == r && Min(a.c, b.c) == c && HasEntry(w, kind, r, c)));
    } else {
      assert Lookup(Matrix(w', Horizontal), Min(a.r, b.r), a.c) ==
             (Lookup(Matrix(w, Horizontal), Min(a.r, b.r), a.c) !=
              (Horizontal == kind && Min(a.r, b.r) == r && a.c == c && HasEntry(w, kind, r, c)));
    }
  }

  // ---------------------------------------------------------------------
  // Sampling the executed action

  /** The executed action for a uniform draw u: the intended one below p, the
      first perpendicular one on the next (1 - p) / 2, the second above that. */
  function SampleActualAction(p: real, intended: Action, u: real): (a: Action)
    ensures a != Opposite(intended)
    ensures a == intended <==> u < p
    ensures a == Perpendicular(intended).0 <==> p <= u < p + (1.0 - p) / 2.0
    ensures a == Perpendicular(intended).1 <==> p <= u && p + (1.0 - p) / 2.0 <= u
  {
    var slip := (1.0 - p) / 2.0;
    if u < p then intended
    else
      var perps := if intended == U || intended == D then (L, R) else (U, D);
      if u < p + slip then perps.0 else perps.1
  }

  /** Inverse of the cumulative distribution of a candidate list: the first
      candidate whose probability interval contains u, the last one when u
      lies beyond them all. */
  function Pick(cs: seq<Candidate>, u: real): (k: nat)
    requires |cs| > 0
    ensures k < |cs|
    decreases |cs|
  {
    if |cs| == 1 || u < cs[0].p then 0 else 1 + Pick(cs[1..], u - cs[0].p)
  }

  /** The sampler draws from the same distribution the solver plans with: it
      returns the action of the transition candidate that the inverse
      cumulative distribution picks for u. */
  lemma SampleIsInverseCdf(cfg: Config, intended: Action, u: real)
    ensures var cs := Candidates(cfg, intended);
            SampleActualAction(cfg.pIntended, intended, u) == cs[Pick(cs, u)].a2
  {
    var cs := Candidates(cfg, intended);
    var p, slip := cfg.pIntended, (1.0 - cfg.pIntended) / 2.0;
    if u >= p {
      assert cs[1..][1..] == [cs[2]];
      assert Pick(cs, u) == 1 + Pick(cs[1..], u - p);
      if u - p < slip {
        assert Pick(cs[1..], u - p) == 0;
      } else {
        assert Pick(cs[1..], u - p) == 1 + Pick(cs[1..][1..], u - p - slip);
      }
    }
  }

  // ---------------------------------------------------------------------
  // The rollout tick

  /** The step budget of a rollout on an n-by-n board. */
  function MaxSteps(n: int): (k: int)
    ensures k >= 0 && (n != 0 ==> k >= 4)
  {
    n * n * 4
  }

  /** The intended, executed and bump flag of the last step, for display. */
  datatype LastStep = LastStep(intended: Action, actual: Action, bumped: bool)

  /** The rollout state: the agent (None before the first placement), the
      step counter, whether the tick timer is running, and the last step. */
  datatype Sim = Sim(agent: Option<Cell>, steps: int, running: bool, last: Option<LastStep>)

  /** The cell the tick moves from: the agent, or the start cell when it is unset. */
  function Position(start: Cell, st: Sim): Cell {
    if st.agent.Some? then st.agent.value else start
  }

  /** The policy entry for flat index i, "R" where the array has none. */
  function PolicyAction(policy: seq<Action>, i: int): Action {
    if 0 <= i < |policy| then policy[i] else R
  }

  /** One timer tick of the rollout with uniform draw u. At the terminal cell
      the agent stays and the timer stops; otherwise the agent takes a sampled
      step of the policy's action, the counter advances, and the timer stops
      when the counter reaches the budget or the agent enters the terminal cell. */
  function TickState(cfg: Config, start: Cell, policy: seq<Action>, maxSteps: int, st: Sim, u: real): (st': Sim)
    ensures st'.agent.Some?
    ensures st'.steps == if IsTerminal(cfg, Position(start, st)) then st.steps else st.steps + 1
    ensures st'.running ==> st.running && st'.steps < maxSteps && !IsTerminal(cfg, st'.agent.value)
    ensures InBounds(cfg.walls.n, Position(start, st)) ==> InBounds(cfg.walls.n, st'.agent.value)
  {
    var s := Position(start, st);
    if IsTerminal(cfg, s) then st.(agent := Some(s), running := false)
    else
      var intended := PolicyAction(policy, s.r * cfg.n + s.c);
      var actual := SampleActualAction(cfg.pIntended, intended, u);
      var m := AttemptMove(cfg, s, actual);
      var steps := st.steps + 1;
      var stop := steps >= maxSteps || IsTerminal(cfg, m.next);
      Sim(Some(m.next), steps, st.running && !stop, Some(LastStep(intended, actual, m.bumped)))
  }

  /** A tick at the terminal cell keeps the agent in place, stops the timer and
      leaves the counter and the last step alone. */
  lemma TickAtTerminal(cfg: Config, start: Cell, policy: seq<Action>, maxSteps: int, st: Sim, u: real)
    requires IsTerminal(cfg, Position(start, st))
    ensures var st' := TickState(cfg, start, policy, maxSteps, st, u);
            && st'.agent == Some(Position(start, st)) && !st'.running
            && st'.steps == st.steps && st'.last == st.last
  {
  }

  /** A tick elsewhere reads the policy at the agent's flat index (the board
      array itself when the agent is on the board), executes an action that is
      the intended one or perpendicular to it, moves as AttemptMove does, and
      advances the counter by exactly one. */
  lemma TickMoves(cfg: Config, start: Cell, policy: seq<Action>, maxSteps: int, st: Sim, u: real)
    requires !IsTerminal(cfg, Position(start, st))
    ensures var s := Position(start, st);
            var st' := TickState(cfg, start, policy, maxSteps, st, u);
            && st'.last.Some?
            && st'.last.value.intended == PolicyAction(policy, s.r * cfg.n + s.c)
            && (InBounds(cfg.n, s) && |policy| == cfg.n * cfg.n ==>
                  st'.last.value.intended == policy[Idx(cfg.n, s)])
            && st'.last.value.actual != Opposite(st'.last.value.intended)
            && st'.agent == Some(AttemptMove(cfg, s, st'.last.value.actual).next)
            && st'.last.value.bumped == AttemptMove(cfg, s, st'.last.value.actual).bumped
            && st'.steps == st.steps + 1
            && (st'.running <==> st.running && st'.steps < maxSteps && !IsTerminal(cfg, st'.agent.value))
  {
    var s := Position(start, st);
    if InBounds(cfg.n, s) {
      IdxBound(cfg.n, s);
    }
  }

  /** What a rollout keeps: the counter stays within the budget and strictly
      below it while the timer runs, and the agent stays on the board. */
  predicate Inv(cfg: Config, start: Cell, maxSteps: int, st: Sim) {
    && 0 <= st.steps <= maxSteps
    && (st.running ==> st.steps < maxSteps)
    && InBounds(cfg.walls.n, Position(start, st))
  }

  /** The state right after the simulation starts: the agent at the start
      cell, the counter at 0 and the timer running. */
  function Started(start: Cell, st: Sim): Sim {
    st.(agent := Some(start), steps := 0, running := true)
  }

  lemma StartedInv(cfg: Config, start: Cell, maxSteps: int, st: Sim)
    requires maxSteps >= 1 && InBounds(cfg.walls.n, start)
    ensures Inv(cfg, start, maxSteps, Started(start, st))
  {
  }

  /** Every tick keeps the invariant, and a tick that stops the timer does so
      because the agent is at the terminal cell or the counter reached the budget. */
  lemma TickInv(cfg: Config, start: Cell, policy: seq<Action>, maxSteps: int, st: Sim, u: real)
    requires Inv(cfg, start, maxSteps, st) && st.running
    ensures var st' := TickState(cfg, start, policy, maxSteps, st, u);
            && Inv(cfg, start, maxSteps, st')
            && (st'.running ==> st'.steps == st.steps + 1)
            && (!st'.running ==> IsTerminal(cfg, Position(start, st')) || st'.steps == maxSteps)
  {
    if !IsTerminal(cfg, Position(start, st)) {
      TickMoves(cfg, start, policy, maxSteps, st, u);
    }
  }

  /** The rollout driven by the draws us: one tick per draw while the timer runs. */
  function Run(cfg: Config, start: Cell, policy: seq<Action>, maxSteps: int, st: Sim, us: seq<real>): Sim
    decreases |us|
  {
    if |us| == 0 || !st.running then st
    else Run(cfg, start, policy, maxSteps, TickState(cfg, start, policy, maxSteps, st, us[0]), us[1..])
  }

  /** Every rollout stops within its budget: after maxSteps - steps ticks the
      timer is off, the counter never passed maxSteps, and the agent is on the board. */
  lemma {:induction false} RunStops(cfg: Config, start: Cell, policy: seq<Action>, maxSteps: int, st: Sim, us: seq<real>)
    requires Inv(cfg, start, maxSteps, st) && |us| >= maxSteps - st.steps
    ensures var st' := Run(cfg, start, policy, maxSteps, st, us);
            !st'.running && Inv(cfg, start, maxSteps, st')
    decreases |us|
  {
    if |us| > 0 && st.running {
      TickInv(cfg, start, policy, maxSteps, st, us[0]);
      var st' := TickState(cfg, start, policy, maxSteps, st, us[0]);
      if st'.running {
        RunStops(cfg, start, policy, maxSteps, st', us[1..]);
      }
    }
  }

  /** A rollout started on an n-by-n board (n >= 1) from an on-board start
      cell stops after at most 4n^2 ticks, with its counter never above 4n^2. */
  lemma RolloutStops(cfg: Config, start: Cell, policy: seq<Action>, st: Sim, us: seq<real>)
    requires cfg.n >= 1 && InBounds(cfg.walls.n, start) && |us| >= MaxSteps(cfg.n)
    ensures var st' := Run(cfg, start, policy, MaxSteps(cfg.n), Started(start, st), us);
            !st'.running && 0 <= st'.steps <= MaxSteps(cfg.n)
  {
    StartedInv(cfg, start, MaxSteps(cfg.n), st);
    RunStops(cfg, start, policy, MaxSteps(cfg.n), Started(start, st), us);
  }

  // ---------------------------------------------------------------------
  // The page's mutable state

  /** The page state the handlers update: the walls being edited and the
      rollout (agent, step counter, timer, last step). */
  class Page {
    var walls: Walls
    var agent: Option<Cell>
    var steps: int
    var running: bool
    var last: Option<LastStep>

    /** The initial page: an empty 10-by-10 wall grid and no rollout. */
    constructor ()
      ensures walls == EmptyWalls(10) && agent == None && steps == 0 && !running && last == None
    {
      walls := EmptyWalls(10);
      agent := None;
      steps := 0;
      running := false;
      last := None;
    }

    function State(): Sim
      reads this
    {
      Sim(agent, steps, running, last)
    }

    /** Copies the wall rows and negates entry (r, c) of the chosen matrix,
      keeping the old walls when that entry does not exist. */
    method ToggleWall(kind: WallKind, r: int, c: int)
      modifies this
      ensures walls == Toggled(old(walls), kind, r, c)
      ensures State() == old(State())
    {
      var next := Walls(walls.n, walls.v, walls.h);
      if kind == Vertical {
        if !(0 <= r < |next.v| && 0 <= c < |next.v[r]|) {
          return;
        }
        next := next.(v := next.v[r := next.v[r][c := !next.v[r][c]]]);
      } else {
        if !(0 <= r < |next.h| && 0 <= c < |next.h[r]|) {
          return;
        }
        next := next.(h := next.h[r := next.h[r][c := !next.h[r][c]]]);
      }
      walls := next;
    }

    /** Starts a rollout from the start cell, unless one is already running. */
    method StartSimulation(start: Cell)
      modifies this
      ensures State() == if old(running) then old(State()) else Started(start, old(State()))
      ensures walls == old(walls)
    {
      if running {
        return;
      }
      running := true;
      steps := 0;
      agent := Some(start);
    }

    /** The body of the timer callback, with the rng draw u as a parameter. */
    method Tick(cfg: Config, start: Cell, policy: seq<Action>, maxSteps: int, u: real)
      requires running && cfg.walls == walls
      modifies this
      ensures State() == TickState(cfg, start, policy, maxSteps, old(State()), u)
      ensures walls == old(walls)
    {
      var s := if agent.Some? then agent.value else start;
      if IsTerminal(cfg, s) {
        running := false;
        agent := Some(s);
        return;
      }
      var i := s.r * cfg.n + s.c;
      var intended := PolicyAction(policy, i);
      var actual := SampleActualAction(cfg.pIntended, intended, u);
      var m := AttemptMove(cfg, s, actual);
      var count := steps + 1;
      var stop := count >= maxSteps || IsTerminal(cfg, m.next);
      agent, steps, running, last := Some(m.next), count, !stop, Some(LastStep(intended, actual, m.bumped));
    }

    /** Stops the timer and clears the step counter; the agent stays where it is. */
    method StopSimulation()
      modifies this
      ensures State() == old(State()).(running := false, steps := 0)
      ensures walls == old(walls)
    {
      running := false;
      steps := 0;
    }
  }
}
