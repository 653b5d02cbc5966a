/** Synchronous value iteration over the gridworld MDP (valueIteration in
    src/lib/mdp/gridworld.ts). Values, probabilities and rewards are reals. */
module ValueIteration {
  import opened Grid
  import opened TransitionModel

  /** The largest value change of the last sweep; Infinite before the first sweep. */
  datatype MaxDelta = Infinite | Finite(value: real)

  /** Solver options; an absent field takes its default. */
  datatype Options = Options(maxIter: Option<int>, tol: Option<real>)

  datatype SolveResult = SolveResult(V: array<real>, policy: array<Action>, iterations: nat, delta: MaxDelta)

  const DefaultMaxIter: int := 5000
  const DefaultTol: real := 0.0000001

  function MaxIter(opts: Options): int {
    if opts.maxIter.Some? then opts.maxIter.value else DefaultMaxIter
  }

  function Tol(opts: Options): real {
    if opts.tol.Some? then opts.tol.value else DefaultTol
  }

  predicate Exceeds(d: MaxDelta, tol: real) {
    d.Infinite? || d.value > tol
  }

  /** The walls record never reaches past the value array: every next cell of
      an in-bounds cell indexes V. */
  predicate Solvable(cfg: Config) {
    cfg.walls.n <= cfg.n
  }

  function RAbs(x: real): real { if x < 0.0 then -x else x }

  /** Position of an action in the enumeration order U, D, L, R. */
  function Rank(a: Action): (k: nat)
    ensures k < 4 && Actions[k] == a
  {
    match a
    case U => 0
    case D => 1
    case L => 2
    case R => 3
  }

  /** V at cell c, and 0 outside the board (a read that the model shows
      never happens: every next cell of an in-bounds cell is in bounds). */
  function ValueAt(cfg: Config, V: seq<real>, c: Cell): real {
    if InBounds(cfg.n, c) && |V| == cfg.n * cfg.n then V[Idx(cfg.n, c)] else 0.0
  }

  /** The contribution p * (r + gamma * V[s1]) of one outcome. */
  function Gain(cfg: Config, V: seq<real>, t: Transition): real {
    t.p * (t.r + cfg.gamma * ValueAt(cfg, V, t.s1))
  }

  /** Expected one-step return of an outcome list under V. */
  function Expect(cfg: Config, V: seq<real>, ts: seq<Transition>): real
    decreases |ts|
  {
    if |ts| == 0 then 0.0 else Expect(cfg, V, ts[..|ts| - 1]) + Gain(cfg, V, ts[|ts| - 1])
  }

  /** The same return summed candidate by candidate, before outcomes with
      the same next cell and reward are grouped. */
  function CandidateSum(cfg: Config, V: seq<real>, s: Cell, cands: seq<Candidate>): real
    decreases |cands|
  {
    if |cands| == 0 then 0.0
    else
      var c := cands[|cands| - 1];
      CandidateSum(cfg, V, s, cands[..|cands| - 1])
      + (if c.p <= 0.0 then 0.0 else Gain(cfg, V, OutcomeOf(cfg, s, c)))
  }

  /** The action value of a in s under V. */
  function Q(cfg: Config, V: seq<real>, s: Cell, a: Action): real {
    if IsTerminal(cfg, s) then Gain(cfg, V, Transition(s, 1.0, 0.0))
    else CandidateSum(cfg, V, s, Candidates(cfg, a))
  }

  lemma {:induction false} ExpectUpdate(cfg: Config, V: seq<real>, ts: seq<Transition>, k: nat, e: Transition)
    requires k < |ts|
    ensures Expect(cfg, V, ts[k := e]) == Expect(cfg, V, ts) - Gain(cfg, V, ts[k]) + Gain(cfg, V, e)
    decreases |ts|
  {
    var last := |ts| - 1;
    if k < last {
      assert ts[k := e][..last] == ts[..last][k := e];
      ExpectUpdate(cfg, V, ts[..last], k, e);
    } else {
      assert ts[k := e][..last] == ts[..last];
    }
  }

  /** Adding probability to an outcome adds that much weight to its contribution. */
  lemma GainMerge(cfg: Config, V: seq<real>, u: Transition, t: Transition)
    requires u.s1 == t.s1 && u.r == t.r
    ensures Gain(cfg, V, u.(p := u.p + t.p)) == Gain(cfg, V, u) + Gain(cfg, V, t)
  {
    var x := t.r + cfg.gamma * ValueAt(cfg, V, t.s1);
    assert (u.p + t.p) * x == u.p * x + t.p * x;
  }

  /** Grouping an outcome into the map adds exactly its contribution. */
  lemma ExpectMerge(cfg: Config, V: seq<real>, acc: seq<Transition>, t: Transition)
    ensures Expect(cfg, V, Merge(acc, t)) == Expect(cfg, V, acc) + Gain(cfg, V, t)
  {
    var k := FindKey(acc, t);
    if k < |acc| {
      ExpectUpdate(cfg, V, acc, k, acc[k].(p := acc[k].p + t.p));
      GainMerge(cfg, V, acc[k], t);
    } else {
      assert (acc + [t])[..|acc|] == acc;
    }
  }

  lemma {:induction false} ExpectAccumulate(cfg: Config, V: seq<real>, s: Cell, cands: seq<Candidate>)
    ensures Expect(cfg, V, Accumulate(cfg, s, cands)) == CandidateSum(cfg, V, s, cands)
    decreases |cands|
  {
    if |cands| > 0 {
      var init := cands[..|cands| - 1];
      ExpectAccumulate(cfg, V, s, init);
      var c := cands[|cands| - 1];
      if c.p > 0.0 {
        ExpectMerge(cfg, V, Accumulate(cfg, s, init), OutcomeOf(cfg, s, c));
      }
    }
  }

  /** Grouping outcomes by next cell and reward does not change the expected
      return: the sum over the outcome list equals the sum over the candidates. */
  lemma QIsExpectOfOutcomes(cfg: Config, V: seq<real>, s: Cell, a: Action)
    ensures Expect(cfg, V, Outcomes(cfg, s, a)) == Q(cfg, V, s, a)
  {
    if !IsTerminal(cfg, s) {
      ExpectAccumulate(cfg, V, s, Candidates(cfg, a));
    } else {
      assert [Transition(s, 1.0, 0.0)][..0] == [];
    }
  }

  /** A candidate best action with its action value. */
  datatype Choice = Choice(q: real, a: Action)

  /** The scan over acts that keeps the best action so far and replaces it
      only when a later action has a strictly greater value under f. */
  function Best(f: Action -> real, acts: seq<Action>): Choice
    requires |acts| > 0
    decreases |acts|
  {
    var a := acts[|acts| - 1];
    if |acts| == 1 then Choice(f(a), a)
    else
      var b := Best(f, acts[..|acts| - 1]);
      if f(a) > b.q then Choice(f(a), a) else b
  }

  /** The scan keeps the first action of largest value: it is attained at
      some position k, nothing in acts beats it and everything before k is
      strictly worse. */
  lemma {:induction false} BestIsFirstMaximum(f: Action -> real, acts: seq<Action>)
    requires |acts| > 0
    ensures var b := Best(f, acts);
            && b.q == f(b.a)
            && (forall j :: 0 <= j < |acts| ==> f(acts[j]) <= b.q)
            && exists k :: 0 <= k < |acts| && acts[k] == b.a &&
                 forall j :: 0 <= j < k ==> f(acts[j]) < b.q
    decreases |acts|
  {
    if |acts| > 1 {
      var init := acts[..|acts| - 1];
      BestIsFirstMaximum(f, init);
      var b := Best(f, init);
      var k :| 0 <= k < |init| && init[k] == b.a && forall j :: 0 <= j < k ==> f(init[j]) < b.q;
      assert forall j :: 0 <= j < |init| ==> acts[j] == init[j];
    }
  }

  /** The action values of s under V, as a function of the action. */
  function ActionValues(cfg: Config, V: seq<real>, s: Cell): Action -> real {
    a => Q(cfg, V, s, a)
  }

  /** The action the sweep records for s and its value: the first maximum of
      the action values in U, D, L, R order. */
  function Greedy(cfg: Config, V: seq<real>, s: Cell): Choice {
    Best(ActionValues(cfg, V, s), Actions)
  }

  /** The greedy action attains the maximum action value, and every action
      before it in U, D, L, R order has a strictly smaller value. */
  lemma GreedyIsFirstMaximum(cfg: Config, V: seq<real>, s: Cell)
    ensures Greedy(cfg, V, s).q == Q(cfg, V, s, Greedy(cfg, V, s).a)
    ensures forall b :: Q(cfg, V, s, b) <= Greedy(cfg, V, s).q
    ensures forall b :: Rank(b) < Rank(Greedy(cfg, V, s).a) ==> Q(cfg, V, s, b) < Greedy(cfg, V, s).q
  {
    var f := ActionValues(cfg, V, s);
    BestIsFirstMaximum(f, Actions);
    forall b ensures f(b) == Q(cfg, V, s, b) && f(Actions[Rank(b)]) == Q(cfg, V, s, b) {
    }
  }

  /** The new value of cell i after one Bellman backup; the terminal cell is pinned at 0. */
  function SweepAt(cfg: Config, V: seq<real>, i: int): real
    requires Solvable(cfg) && |V| == cfg.n * cfg.n && 0 <= i < cfg.n * cfg.n
  {
    var s := CellFromIdx(cfg.n, i);
    if IsTerminal(cfg, s) then 0.0 else Greedy(cfg, V, s).q
  }

  /** The policy entry the sweep writes for cell i; "R" at the terminal cell. */
  function PolicyAt(cfg: Config, V: seq<real>, i: int): Action
    requires Solvable(cfg) && |V| == cfg.n * cfg.n && 0 <= i < cfg.n * cfg.n
  {
    var s := CellFromIdx(cfg.n, i);
    if IsTerminal(cfg, s) then R else Greedy(cfg, V, s).a
  }

  /** The backed-up values of cells 0 .. k - 1. */
  function SweepUpTo(cfg: Config, V: seq<real>, k: nat): (W: seq<real>)
    requires Solvable(cfg) && |V| == cfg.n * cfg.n && k <= cfg.n * cfg.n
    ensures |W| == k
  {
    if k == 0 then [] else SweepUpTo(cfg, V, k - 1) + [SweepAt(cfg, V, k - 1)]
  }

  /** One synchronous sweep: every new value is computed from the old V. */
  function Sweep(cfg: Config, V: seq<real>): (W: seq<real>)
    requires Solvable(cfg) && |V| == cfg.n * cfg.n
    ensures |W| == cfg.n * cfg.n
  {
    SweepUpTo(cfg, V, cfg.n * cfg.n)
  }

  /** The greedy actions of cells 0 .. k - 1. */
  function PolicyUpTo(cfg: Config, V: seq<real>, k: nat): (P: seq<Action>)
    requires Solvable(cfg) && |V| == cfg.n * cfg.n && k <= cfg.n * cfg.n
    ensures |P| == k
  {
    if k == 0 then [] else PolicyUpTo(cfg, V, k - 1) + [PolicyAt(cfg, V, k - 1)]
  }

  function PolicyOf(cfg: Config, V: seq<real>): (P: seq<Action>)
    requires Solvable(cfg) && |V| == cfg.n * cfg.n
    ensures |P| == cfg.n * cfg.n
  {
    PolicyUpTo(cfg, V, cfg.n * cfg.n)
  }

  /** Entry i of a sweep is the Bellman backup of cell i, and entry i of the
      policy is its greedy action. */
  lemma {:induction false} SweepIndex(cfg: Config, V: seq<real>, k: nat, i: int)
    requires Solvable(cfg) && |V| == cfg.n * cfg.n && k <= cfg.n * cfg.n && 0 <= i < k
    ensures SweepUpTo(cfg, V, k)[i] == SweepAt(cfg, V, i)
    ensures PolicyUpTo(cfg, V, k)[i] == PolicyAt(cfg, V, i)
  {
    if i < k - 1 {
      SweepIndex(cfg, V, k - 1, i);
    }
  }

  /** What a sweep writes for cell i: at the terminal cell the value 0 and
      the action R; elsewhere the largest action value, and the first action
      in U, D, L, R order that attains it. */
  lemma SweepIsGreedy(cfg: Config, V: seq<real>, i: int)
    requires Solvable(cfg) && |V| == cfg.n * cfg.n && 0 <= i < cfg.n * cfg.n
    ensures var s := CellFromIdx(cfg.n, i);
            IsTerminal(cfg, s) ==> Sweep(cfg, V)[i] == 0.0 && PolicyOf(cfg, V)[i] == R
    ensures var s := CellFromIdx(cfg.n, i);
            var a := PolicyOf(cfg, V)[i];
            !IsTerminal(cfg, s) ==>
              && Sweep(cfg, V)[i] == Q(cfg, V, s, a)
              && (forall b :: Q(cfg, V, s, b) <= Q(cfg, V, s, a))
              && (forall b :: Rank(b) < Rank(a) ==> Q(cfg, V, s, b) < Q(cfg, V, s, a))
  {
    SweepIndex(cfg, V, cfg.n * cfg.n, i);
    GreedyIsFirstMaximum(cfg, V, CellFromIdx(cfg.n, i));
  }

  /** The value array after k sweeps from all zeros. The terminal cell's value
      is 0 after every number of sweeps. */
  function Values(cfg: Config, k: nat): (V: seq<real>)
    requires Solvable(cfg)
    ensures |V| == cfg.n * cfg.n
  {
    if k == 0 then seq(cfg.n * cfg.n, _ => 0.0) else Sweep(cfg, Values(cfg, k - 1))
  }

  /** The terminal cell's value is 0 after every number of sweeps. */
  lemma ValuesTerminal(cfg: Config, k: nat)
    requires Solvable(cfg) && InBounds(cfg.n, cfg.terminal)
    ensures Values(cfg, k)[Idx(cfg.n, cfg.terminal)] == 0.0
  {
    IdxRoundTrip(cfg.n, cfg.terminal);
    if k > 0 {
      SweepIndex(cfg, Values(cfg, k - 1), cfg.n * cfg.n, Idx(cfg.n, cfg.terminal));
    }
  }

  /** Largest change |SweepAt(V, j) - V[j]| of a sweep from V over the
      non-terminal cells j < k, and 0 when there is none. */
  function ResidualUpTo(cfg: Config, V: seq<real>, k: nat): (d: real)
    requires Solvable(cfg) && |V| == cfg.n * cfg.n && k <= cfg.n * cfg.n
    ensures d >= 0.0
  {
    if k == 0 then 0.0
    else
      var m := ResidualUpTo(cfg, V, k - 1);
      if IsTerminal(cfg, CellFromIdx(cfg.n, k - 1)) then m
      else
        var d := RAbs(SweepAt(cfg, V, k - 1) - V[k - 1]);
        if d > m then d else m
  }

  /** The Bellman residual of the sweep from V: the largest change at a non-terminal cell. */
  function Residual(cfg: Config, V: seq<real>): (d: real)
    requires Solvable(cfg) && |V| == cfg.n * cfg.n
    ensures d >= 0.0
  {
    ResidualUpTo(cfg, V, cfg.n * cfg.n)
  }

  /** Every change a sweep makes at a non-terminal cell j < k is at most ResidualUpTo(k). */
  lemma {:induction false} ResidualUpToBounds(cfg: Config, V: seq<real>, k: nat, j: int)
    requires Solvable(cfg) && |V| == cfg.n * cfg.n && k <= cfg.n * cfg.n
    requires 0 <= j < k && !IsTerminal(cfg, CellFromIdx(cfg.n, j))
    ensures RAbs(SweepAt(cfg, V, j) - V[j]) <= ResidualUpTo(cfg, V, k)
  {
    if j < k - 1 {
      ResidualUpToBounds(cfg, V, k - 1, j);
    }
  }

  /** A positive ResidualUpTo(k) is the change at some non-terminal cell j < k. */
  lemma {:induction false} ResidualUpToAttained(cfg: Config, V: seq<real>, k: nat)
    requires Solvable(cfg) && |V| == cfg.n * cfg.n && k <= cfg.n * cfg.n
    ensures ResidualUpTo(cfg, V, k) == 0.0 ||
            exists j :: 0 <= j < k && !IsTerminal(cfg, CellFromIdx(cfg.n, j)) &&
              RAbs(SweepAt(cfg, V, j) - V[j]) == ResidualUpTo(cfg, V, k)
  {
    if k > 0 {
      ResidualUpToAttained(cfg, V, k - 1);
    }
  }

  /** The terminal cell of V holds 0, as it does after every sweep. */
  predicate TerminalZero(cfg: Config, V: seq<real>)
    requires |V| == cfg.n * cfg.n
  {
    InBounds(cfg.n, cfg.terminal) ==> V[Idx(cfg.n, cfg.terminal)] == 0.0
  }

  /** A zero residual leaves every cell where it was. */
  lemma ResidualZeroFixes(cfg: Config, V: seq<real>)
    requires Solvable(cfg) && |V| == cfg.n * cfg.n && TerminalZero(cfg, V)
    ensures Residual(cfg, V) == 0.0 ==> Sweep(cfg, V) == V
  {
    var N := cfg.n * cfg.n;
    if Residual(cfg, V) == 0.0 {
      forall j | 0 <= j < N ensures Sweep(cfg, V)[j] == V[j] {
        SweepIndex(cfg, V, N, j);
        var s := CellFromIdx(cfg.n, j);
        if IsTerminal(cfg, s) {
          assert s == cfg.terminal;
        } else {
          ResidualUpToBounds(cfg, V, N, j);
        }
      }
    }
  }

  /** A sweep that changes nothing has a zero residual. */
  lemma FixedPointResidualZero(cfg: Config, V: seq<real>)
    requires Solvable(cfg) && |V| == cfg.n * cfg.n
    ensures Sweep(cfg, V) == V ==> Residual(cfg, V) == 0.0
  {
    var N := cfg.n * cfg.n;
    ResidualUpToAttained(cfg, V, N);
    if Sweep(cfg, V) == V && Residual(cfg, V) != 0.0 {
      var j :| 0 <= j < N && !IsTerminal(cfg, CellFromIdx(cfg.n, j)) &&
               RAbs(SweepAt(cfg, V, j) - V[j]) == Residual(cfg, V);
      SweepIndex(cfg, V, N, j);
    }
  }

  /** The residual is 0 exactly when V is a fixed point of the sweep, so a
      solver that stops on a residual of 0 has reached a solution of the
      Bellman optimality equations. */
  lemma ResidualZeroIffFixedPoint(cfg: Config, V: seq<real>)
    requires Solvable(cfg) && |V| == cfg.n * cfg.n && TerminalZero(cfg, V)
    ensures Residual(cfg, V) == 0.0 <==> Sweep(cfg, V) == V
  {
    ResidualZeroFixes(cfg, V);
    FixedPointResidualZero(cfg, V);
  }

  /** Once a sweep changes nothing, every later sweep changes nothing either:
      the value arrays stay put from then on. */
  lemma {:induction false} ValuesStable(cfg: Config, k: nat, m: nat)
    requires Solvable(cfg) && Residual(cfg, Values(cfg, k)) == 0.0
    ensures Values(cfg, k + m) == Values(cfg, k)
  {
    if InBounds(cfg.n, cfg.terminal) {
      ValuesTerminal(cfg, k);
    }
    ResidualZeroIffFixedPoint(cfg, Values(cfg, k));
    if m > 0 {
      ValuesStable(cfg, k, m - 1);
    }
  }

  /** V lies below W at every cell. */
  predicate Below(V: seq<real>, W: seq<real>) {
    |V| == |W| && forall j :: 0 <= j < |V| ==> V[j] <= W[j]
  }

  lemma GainMonotone(cfg: Config, V: seq<real>, W: seq<real>, t: Transition)
    requires cfg.gamma >= 0.0 && t.p >= 0.0 && Below(V, W)
    ensures Gain(cfg, V, t) <= Gain(cfg, W, t)
  {
    var x, y := ValueAt(cfg, V, t.s1), ValueAt(cfg, W, t.s1);
    assert cfg.gamma * x <= cfg.gamma * y by {
      assert cfg.gamma * y - cfg.gamma * x == cfg.gamma * (y - x);
    }
    assert t.p * (t.r + cfg.gamma * y) - t.p * (t.r + cfg.gamma * x)
        == t.p * (cfg.gamma * y - cfg.gamma * x);
  }

  lemma {:induction false} CandidateSumMonotone(cfg: Config, V: seq<real>, W: seq<real>, s: Cell, cands: seq<Candidate>)
    requires cfg.gamma >= 0.0 && Below(V, W)
    ensures CandidateSum(cfg, V, s, cands) <= CandidateSum(cfg, W, s, cands)
    decreases |cands|
  {
    if |cands| > 0 {
      CandidateSumMonotone(cfg, V, W, s, cands[..|cands| - 1]);
      var c := cands[|cands| - 1];
      if c.p > 0.0 {
        GainMonotone(cfg, V, W, OutcomeOf(cfg, s, c));
      }
    }
  }

  /** With a non-negative discount, raising the values never lowers an action
      value: only candidates of positive probability contribute. */
  lemma QMonotone(cfg: Config, V: seq<real>, W: seq<real>, s: Cell, a: Action)
    requires cfg.gamma >= 0.0 && Below(V, W)
    ensures Q(cfg, V, s, a) <= Q(cfg, W, s, a)
  {
    if IsTerminal(cfg, s) {
      GainMonotone(cfg, V, W, Transition(s, 1.0, 0.0));
    } else {
      CandidateSumMonotone(cfg, V, W, s, Candidates(cfg, a));
    }
  }

  lemma {:induction false} BestMonotone(f: Action -> real, g: Action -> real, acts: seq<Action>)
    requires |acts| > 0 && forall a :: f(a) <= g(a)
    ensures Best(f, acts).q <= Best(g, acts).q
    decreases |acts|
  {
    if |acts| > 1 {
      BestMonotone(f, g, acts[..|acts| - 1]);
    }
  }

  /** The sweep is monotone: a pointwise larger value array backs up to a
      pointwise larger one, whatever the walls and slip probabilities. */
  lemma SweepMonotone(cfg: Config, V: seq<real>, W: seq<real>)
    requires Solvable(cfg) && cfg.gamma >= 0.0 && |V| == cfg.n * cfg.n && Below(V, W)
    ensures Below(Sweep(cfg, V), Sweep(cfg, W))
  {
    var N := cfg.n * cfg.n;
    forall j | 0 <= j < N ensures Sweep(cfg, V)[j] <= Sweep(cfg, W)[j] {
      SweepIndex(cfg, V, N, j);
      SweepIndex(cfg, W, N, j);
      var s := CellFromIdx(cfg.n, j);
      var f, g := ActionValues(cfg, V, s), ActionValues(cfg, W, s);
      forall a ensures f(a) <= g(a) {
        QMonotone(cfg, V, W, s, a);
      }
      BestMonotone(f, g, Actions);
    }
  }

  /** Arrays that agree with SweepAt and PolicyAt at every cell are the sweep and its policy. */
  lemma SweepOfPointwise(cfg: Config, V: seq<real>, W: seq<real>, P: seq<Action>)
    requires Solvable(cfg) && |V| == cfg.n * cfg.n && |W| == cfg.n * cfg.n && |P| == cfg.n * cfg.n
    requires forall j :: 0 <= j < cfg.n * cfg.n ==> W[j] == SweepAt(cfg, V, j) && P[j] == PolicyAt(cfg, V, j)
    ensures W == Sweep(cfg, V) && P == PolicyOf(cfg, V)
  {
    forall j | 0 <= j < cfg.n * cfg.n ensures W[j] == Sweep(cfg, V)[j] && P[j] == PolicyOf(cfg, V)[j] {
      SweepIndex(cfg, V, cfg.n * cfg.n, j);
    }
  }

  /** The inner sum over an outcome list: the expected one-step return under V. */
  method Expectation(cfg: Config, V: seq<real>, ts: seq<Transition>) returns (q: real)
    requires |V| == cfg.n * cfg.n
    requires forall t :: t in ts ==> InBounds(cfg.n, t.s1)
    ensures q == Expect(cfg, V, ts)
  {
    q := 0.0;
    for j := 0 to |ts|
      invariant q == Expect(cfg, V, ts[..j])
    {
      assert ts[..j + 1][..j] == ts[..j];
      var t := ts[j];
      q := q + t.p * (t.r + cfg.gamma * V[Idx(cfg.n, t.s1)]);
    }
    assert ts[..|ts|] == ts;
  }

  /** The action value of a in s, summed over the grouped outcome list. */
  method ActionValue(cfg: Config, V: seq<real>, s: Cell, a: Action) returns (q: real)
    requires Solvable(cfg) && |V| == cfg.n * cfg.n && InBounds(cfg.n, s)
    ensures q == Q(cfg, V, s, a)
  {
    var ts := Transitions(cfg, s, a);
    OutcomesInBounds(cfg, s, a);
    q := Expectation(cfg, V, ts);
    QIsExpectOfOutcomes(cfg, V, s, a);
  }

  /** The best action value and the first action attaining it, scanning
      U, D, L, R and replacing the best only on a strictly greater value. */
  method BestAction(cfg: Config, V: seq<real>, s: Cell) returns (bestQ: real, bestA: Action)
    requires Solvable(cfg) && |V| == cfg.n * cfg.n && InBounds(cfg.n, s)
    ensures Choice(bestQ, bestA) == Greedy(cfg, V, s)
  {
    bestQ, bestA := 0.0, R;
    for k := 0 to 4
      invariant k > 0 ==> Choice(bestQ, bestA) == Best(ActionValues(cfg, V, s), Actions[..k])
    {
      var a := Actions[k];
      var q := ActionValue(cfg, V, s, a);
      assert Actions[..k + 1][..k] == Actions[..k];
      if k == 0 || q > bestQ {
        bestQ, bestA := q, a;
      }
    }
    assert Actions[..4] == Actions;
  }

  /** The body of the sweep for cell i: the terminal cell is pinned at 0 with
      policy "R" and leaves the running maximum alone; any other cell gets its
      best action value and action, and the maximum absorbs its change. */
  method BackupCell(cfg: Config, V: seq<real>, nextV: array<real>, policy: array<Action>, i: int, maxDelta: real)
    returns (maxDelta': real)
    requires Solvable(cfg)
    requires |V| == cfg.n * cfg.n && nextV.Length == cfg.n * cfg.n && policy.Length == cfg.n * cfg.n
    requires 0 <= i < cfg.n * cfg.n
    modifies nextV, policy
    ensures nextV[i] == SweepAt(cfg, V, i) && policy[i] == PolicyAt(cfg, V, i)
    ensures forall j :: 0 <= j < nextV.Length && j != i ==> nextV[j] == old(nextV[j])
    ensures forall j :: 0 <= j < policy.Length && j != i ==> policy[j] == old(policy[j])
    ensures maxDelta' ==
              if IsTerminal(cfg, CellFromIdx(cfg.n, i)) then maxDelta
              else if RAbs(SweepAt(cfg, V, i) - V[i]) > maxDelta then RAbs(SweepAt(cfg, V, i) - V[i])
              else maxDelta
  {
    maxDelta' := maxDelta;
    var s := CellFromIdx(cfg.n, i);
    if IsTerminal(cfg, s) {
      nextV[i] := 0.0;
      policy[i] := R;
      return;
    }
    var bestQ, bestA := BestAction(cfg, V, s);
    nextV[i] := bestQ;
    policy[i] := bestA;
    var d := RAbs(nextV[i] - V[i]);
    if d > maxDelta' {
      maxDelta' := d;
    }
  }

  /** One sweep of the solver: writes the backed-up value and greedy action of
      every cell into nextV and policy, reading only V, and returns the largest
      change over the non-terminal cells. */
  method SweepInto(cfg: Config, V: seq<real>, nextV: array<real>, policy: array<Action>) returns (sweepDelta: real)
    requires Solvable(cfg)
    requires |V| == cfg.n * cfg.n && nextV.Length == cfg.n * cfg.n && policy.Length == cfg.n * cfg.n
    modifies nextV, policy
    ensures nextV[..] == Sweep(cfg, V) && policy[..] == PolicyOf(cfg, V)
    ensures sweepDelta == Residual(cfg, V)
  {
    sweepDelta := 0.0;
    for i := 0 to cfg.n * cfg.n
      invariant forall j :: 0 <= j < i ==> nextV[j] == SweepAt(cfg, V, j)
      invariant forall j :: 0 <= j < i ==> policy[j] == PolicyAt(cfg, V, j)
      invariant sweepDelta == ResidualUpTo(cfg, V, i)
    {
      sweepDelta := BackupCell(cfg, V, nextV, policy, i, sweepDelta);
    }
    SweepOfPointwise(cfg, V, nextV[..], policy[..]);
  }

  /** Copies src into dst, element by element. */
  method CopyInto(dst: array<real>, src: array<real>)
    requires dst.Length == src.Length && dst != src
    modifies dst
    ensures dst[..] == src[..]
  {
    forall i | 0 <= i < dst.Length {
      dst[i] := src[i];
    }
  }

  /** The policy array after k sweeps: all "R" before the first sweep. */
  function PolicyAfter(cfg: Config, k: nat): (P: seq<Action>)
    requires Solvable(cfg)
    ensures |P| == cfg.n * cfg.n
  {
    if k == 0 then seq(cfg.n * cfg.n, _ => R) else PolicyOf(cfg, Values(cfg, k - 1))
  }

  /** The recorded residual after k sweeps: Infinite before the first sweep. */
  function DeltaAfter(cfg: Config, k: nat): MaxDelta
    requires Solvable(cfg)
  {
    if k == 0 then Infinite else Finite(Residual(cfg, Values(cfg, k - 1)))
  }

  method ValueIteration(cfg: Config, opts: Options) returns (res: SolveResult)
    requires Solvable(cfg)
    ensures res.V.Length == cfg.n * cfg.n && res.policy.Length == cfg.n * cfg.n
    ensures res.iterations <= Max0(MaxIter(opts))
    ensures res.V[..] == Values(cfg, res.iterations)
    ensures res.policy[..] == PolicyAfter(cfg, res.iterations)
    ensures res.delta == DeltaAfter(cfg, res.iterations)
    ensures res.iterations < MaxIter(opts) ==> !Exceeds(res.delta, Tol(opts))
    ensures forall k :: 0 <= k < res.iterations ==> Exceeds(DeltaAfter(cfg, k), Tol(opts))
  {
    var n := cfg.n;
    var maxIter, tol := MaxIter(opts), Tol(opts);
    var V := new real[n * n](_ => 0.0);
    var nextV := new real[n * n](_ => 0.0);
    var policy := new Action[n * n](_ => R);
    var iter: nat := 0;
    var maxDelta := Infinite;
    assert V[..] == Values(cfg, 0);
    assert policy[..] == PolicyAfter(cfg, 0);
    while iter < maxIter && Exceeds(maxDelta, tol)
      invariant V.Length == n * n && nextV.Length == n * n && policy.Length == n * n
      invariant V != nextV
      invariant iter <= Max0(maxIter)
      invariant V[..] == Values(cfg, iter)
      invariant policy[..] == PolicyAfter(cfg, iter)
      invariant maxDelta == DeltaAfter(cfg, iter)
      invariant forall k :: 0 <= k < iter ==> Exceeds(DeltaAfter(cfg, k), tol)
      decreases maxIter - iter
    {
      var sweepDelta := SweepInto(cfg, V[..], nextV, policy);
      CopyInto(V, nextV);
      iter := iter + 1;
      maxDelta := Finite(sweepDelta);
    }
    res := SolveResult(V, policy, iter, maxDelta);
  }
}
