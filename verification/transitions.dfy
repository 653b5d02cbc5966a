/** The slip transition model: the distribution over (next cell, reward)
    outcomes of one (state, action) pair (transitions in src/lib/mdp/gridworld.ts). */
module TransitionModel {
  import opened Grid

  datatype Transition = Transition(s1: Cell, p: real, r: real)

  /** One executed action the slip model considers, with its probability. */
  datatype Candidate = Candidate(a2: Action, p: real)

  /** The intended action with probability pIntended, then each perpendicular
      action with probability (1 - pIntended) / 2. */
  function Candidates(cfg: Config, a: Action): (cs: seq<Candidate>)
    ensures |cs| == 3
    ensures cs[0] == Candidate(a, cfg.pIntended)
    ensures cs[1] == Candidate(Perpendicular(a).0, (1.0 - cfg.pIntended) / 2.0)
    ensures cs[2] == Candidate(Perpendicular(a).1, (1.0 - cfg.pIntended) / 2.0)
  {
    var slip := (1.0 - cfg.pIntended) / 2.0;
    var pp := Perpendicular(a);
    [Candidate(a, cfg.pIntended), Candidate(pp.0, slip), Candidate(pp.1, slip)]
  }

  /** The reward of one movement attempt from s. */
  function Reward(cfg: Config, s: Cell, m: Move): (r: real)
    ensures !IsTerminal(cfg, s) && (m.bumped <==> m.next == s) ==> r == StepReward(cfg, s, m.next)
  {
    var bump := if m.bumped && cfg.bumpPenaltyEnabled then cfg.bumpPenalty else 0.0;
    var enter := if !IsTerminal(cfg, s) && IsTerminal(cfg, m.next) then cfg.terminalReward else 0.0;
    cfg.stepCost + bump + enter
  }

  /** The reward of arriving at s1 from a non-terminal s, stated on the two
      cells alone: a step that stays put is exactly a bump. */
  function StepReward(cfg: Config, s: Cell, s1: Cell): real {
    cfg.stepCost
    + (if s1 == s && cfg.bumpPenaltyEnabled then cfg.bumpPenalty else 0.0)
    + (if IsTerminal(cfg, s1) then cfg.terminalReward else 0.0)
  }

  function OutcomeOf(cfg: Config, s: Cell, c: Candidate): Transition {
    var m := AttemptMove(cfg, s, c.a2);
    Transition(m.next, c.p, Reward(cfg, s, m))
  }

  /** Outcomes are grouped by next cell and reward. */
  function Key(t: Transition): (Cell, real) { (t.s1, t.r) }

  function Keys(ts: seq<Transition>): set<(Cell, real)> {
    set t | t in ts :: Key(t)
  }

  predicate DistinctKeys(ts: seq<Transition>) {
    forall i, j :: 0 <= i < j < |ts| ==> Key(ts[i]) != Key(ts[j])
  }

  predicate DistinctNext(ts: seq<Transition>) {
    forall i, j :: 0 <= i < j < |ts| ==> ts[i].s1 != ts[j].s1
  }

  /** Position of the entry with t's key, or |acc| when there is none: the
      keyed lookup of the map the outcomes are gathered in. */
  function FindKey(acc: seq<Transition>, t: Transition): (k: nat)
    ensures k <= |acc|
    ensures k < |acc| ==> Key(acc[k]) == Key(t)
    ensures k == |acc| ==> Key(t) !in Keys(acc)
  {
    if |acc| == 0 then 0
    else if Key(acc[0]) == Key(t) then 0
    else
      var k := FindKey(acc[1..], t);
      assert Keys(acc) == {Key(acc[0])} + Keys(acc[1..]) by {
        assert acc == [acc[0]] + acc[1..];
      }
      1 + k
  }

  /** Adds t to the map: its probability goes into the entry with the same key,
      or t becomes a new last entry. */
  function Merge(acc: seq<Transition>, t: Transition): (m: seq<Transition>)
    ensures Key(t) !in Keys(acc) ==> m == acc + [t]
    ensures Key(t) in Keys(acc) ==>
              |m| == |acc| && forall i :: 0 <= i < |acc| ==> Key(m[i]) == Key(acc[i])
  {
    var k := FindKey(acc, t);
    if k < |acc| then acc[k := acc[k].(p := acc[k].p + t.p)] else acc + [t]
  }

  /** The map's values, in insertion order, after the candidates have been
      processed in order; candidates of probability at most 0 are skipped. */
  function Accumulate(cfg: Config, s: Cell, cands: seq<Candidate>): seq<Transition>
    decreases |cands|
  {
    if |cands| == 0 then []
    else
      var acc := Accumulate(cfg, s, cands[..|cands| - 1]);
      var c := cands[|cands| - 1];
      if c.p <= 0.0 then acc else Merge(acc, OutcomeOf(cfg, s, c))
  }

  /** The outcome distribution of taking a in s; the terminal cell is absorbing. */
  function Outcomes(cfg: Config, s: Cell, a: Action): seq<Transition> {
    if IsTerminal(cfg, s) then [Transition(s, 1.0, 0.0)]
    else Accumulate(cfg, s, Candidates(cfg, a))
  }

  /** Processing one more candidate merges its outcome, unless it is skipped. */
  lemma AccumulateStep(cfg: Config, s: Cell, cands: seq<Candidate>, i: nat)
    requires i < |cands|
    ensures Accumulate(cfg, s, cands[..i + 1]) ==
              if cands[i].p <= 0.0 then Accumulate(cfg, s, cands[..i])
              else Merge(Accumulate(cfg, s, cands[..i]), OutcomeOf(cfg, s, cands[i]))
  {
    assert cands[..i + 1][..i] == cands[..i];
  }

  /** Records the outcome of one executed action in the map: its reward is the
      step cost, plus the bump penalty when the move was blocked and the penalty
      is enabled, plus the terminal reward when it enters the terminal cell. */
  method Record(cfg: Config, s: Cell, c: Candidate, ts: seq<Transition>) returns (ts': seq<Transition>)
    ensures ts' == Merge(ts, OutcomeOf(cfg, s, c))
  {
    var m := AttemptMove(cfg, s, c.a2);
    var r := cfg.stepCost;
    if m.bumped && cfg.bumpPenaltyEnabled {
      r := r + cfg.bumpPenalty;
    }
    if !IsTerminal(cfg, s) && IsTerminal(cfg, m.next) {
      r := r + cfg.terminalReward;
    }
    var t := Transition(m.next, c.p, r);
    var k := FindKey(ts, t);
    if k < |ts| {
      ts' := ts[k := ts[k].(p := ts[k].p + c.p)];
    } else {
      ts' := ts + [t];
    }
  }

  method Transitions(cfg: Config, s: Cell, a: Action) returns (ts: seq<Transition>)
    ensures ts == Outcomes(cfg, s, a)
    ensures IsTerminal(cfg, s) ==> ts == [Transition(s, 1.0, 0.0)]
  {
    if IsTerminal(cfg, s) {
      return [Transition(s, 1.0, 0.0)];
    }
    var cands := Candidates(cfg, a);
    ts := [];
    for i := 0 to |cands|
      invariant ts == Accumulate(cfg, s, cands[..i])
    {
      AccumulateStep(cfg, s, cands, i);
      var c := cands[i];
      if c.p <= 0.0 {
        continue;
      }
      ts := Record(cfg, s, c, ts);
    }
    assert cands[..|cands|] == cands;
  }

  // ---------------------------------------------------------------------
  // Probability mass

  /** Total probability of an outcome list. */
  function Mass(ts: seq<Transition>): real {
    if |ts| == 0 then 0.0 else Mass(ts[..|ts| - 1]) + ts[|ts| - 1].p
  }

  /** Probability of arriving at x. */
  function MassAt(ts: seq<Transition>, x: Cell): real {
    if |ts| == 0 then 0.0
    else MassAt(ts[..|ts| - 1], x) + (if ts[|ts| - 1].s1 == x then ts[|ts| - 1].p else 0.0)
  }

  /** Total probability of the candidates that are not skipped. */
  function PositiveMass(cands: seq<Candidate>): real {
    if |cands| == 0 then 0.0
    else PositiveMass(cands[..|cands| - 1]) + (if cands[|cands| - 1].p > 0.0 then cands[|cands| - 1].p else 0.0)
  }

  /** Probability, under the slip model, of executing an action whose move ends at x. */
  function CandidateMassAt(cfg: Config, s: Cell, cands: seq<Candidate>, x: Cell): real {
    if |cands| == 0 then 0.0
    else
      var c := cands[|cands| - 1];
      CandidateMassAt(cfg, s, cands[..|cands| - 1], x)
      + (if c.p > 0.0 && AttemptMove(cfg, s, c.a2).next == x then c.p else 0.0)
  }

  lemma {:induction false} MassUpdate(ts: seq<Transition>, k: nat, e: Transition)
    requires k < |ts|
    ensures Mass(ts[k := e]) == Mass(ts) - ts[k].p + e.p
    decreases |ts|
  {
    var last := |ts| - 1;
    if k < last {
      assert ts[k := e][..last] == ts[..last][k := e];
      MassUpdate(ts[..last], k, e);
    } else {
      assert ts[k := e][..last] == ts[..last];
    }
  }

  lemma {:induction false} MassAtUpdate(ts: seq<Transition>, k: nat, e: Transition, x: Cell)
    requires k < |ts| && e.s1 == ts[k].s1
    ensures MassAt(ts[k := e], x) == MassAt(ts, x) + (if e.s1 == x then e.p - ts[k].p else 0.0)
    decreases |ts|
  {
    var last := |ts| - 1;
    if k < last {
      assert ts[k := e][..last] == ts[..last][k := e];
      MassAtUpdate(ts[..last], k, e, x);
    } else {
      assert ts[k := e][..last] == ts[..last];
    }
  }

  lemma MassAppend(ts: seq<Transition>, t: Transition, x: Cell)
    ensures Mass(ts + [t]) == Mass(ts) + t.p
    ensures MassAt(ts + [t], x) == MassAt(ts, x) + (if t.s1 == x then t.p else 0.0)
  {
    assert (ts + [t])[..|ts|] == ts;
  }

  /** Merging adds exactly t's probability, to the total and at t's next cell. */
  lemma MergeMass(acc: seq<Transition>, t: Transition, x: Cell)
    ensures Mass(Merge(acc, t)) == Mass(acc) + t.p
    ensures MassAt(Merge(acc, t), x) == MassAt(acc, x) + (if t.s1 == x then t.p else 0.0)
  {
    var k := FindKey(acc, t);
    if k < |acc| {
      MassUpdate(acc, k, acc[k].(p := acc[k].p + t.p));
      MassAtUpdate(acc, k, acc[k].(p := acc[k].p + t.p), x);
    } else {
      MassAppend(acc, t, x);
    }
  }

  /** Merging never loses probability: the accumulated outcomes carry the whole
      mass of the non-skipped candidates, and at every cell exactly the mass of
      the candidates whose move ends there. */
  lemma {:induction false} AccumulateMass(cfg: Config, s: Cell, cands: seq<Candidate>, x: Cell)
    ensures Mass(Accumulate(cfg, s, cands)) == PositiveMass(cands)
    ensures MassAt(Accumulate(cfg, s, cands), x) == CandidateMassAt(cfg, s, cands, x)
    decreases |cands|
  {
    if |cands| > 0 {
      var init := cands[..|cands| - 1];
      AccumulateMass(cfg, s, init, x);
      var c := cands[|cands| - 1];
      if c.p > 0.0 {
        MergeMass(Accumulate(cfg, s, init), OutcomeOf(cfg, s, c), x);
      }
    }
  }

  // ---------------------------------------------------------------------
  // Keys

  lemma MergeKeys(acc: seq<Transition>, t: Transition)
    ensures Keys(Merge(acc, t)) == Keys(acc) + {Key(t)}
    ensures DistinctKeys(acc) ==> DistinctKeys(Merge(acc, t))
    ensures |Merge(acc, t)| <= |acc| + 1
    ensures (forall u :: u in acc ==> u.p > 0.0) && t.p > 0.0 ==>
              forall u :: u in Merge(acc, t) ==> u.p > 0.0
  {
    var k := FindKey(acc, t);
    var m := Merge(acc, t);
    if k < |acc| {
      forall y | y in Keys(m) ensures y in Keys(acc) + {Key(t)} {
        var u :| u in m && Key(u) == y;
        var j :| 0 <= j < |m| && m[j] == u;
        assert Key(acc[j]) == y;
      }
      assert acc[k] in acc;
      assert Key(t) in Keys(acc);
      forall y | y in Keys(acc) + {Key(t)} ensures y in Keys(m) {
        var u :| u in acc && Key(u) == y;
        var j :| 0 <= j < |acc| && acc[j] == u;
        assert Key(m[j]) == y;
      }
      assert forall u :: u in m ==> exists j :: 0 <= j < |m| && m[j] == u;
    } else {
      assert forall j :: 0 <= j < |acc| ==> acc[j] in acc;
    }
  }

  /** The outcome list has one entry per key, at most one per non-skipped
      candidate, and each of positive probability. */
  lemma {:induction false} AccumulateKeys(cfg: Config, s: Cell, cands: seq<Candidate>)
    ensures DistinctKeys(Accumulate(cfg, s, cands))
    ensures |Accumulate(cfg, s, cands)| <= |cands|
    ensures forall u :: u in Accumulate(cfg, s, cands) ==> u.p > 0.0
    decreases |cands|
  {
    if |cands| > 0 {
      var init := cands[..|cands| - 1];
      var c := cands[|cands| - 1];
      AccumulateKeys(cfg, s, init);
      if c.p > 0.0 {
        MergeKeys(Accumulate(cfg, s, init), OutcomeOf(cfg, s, c));
      }
    }
  }

  /** The keys of the outcome list are exactly the keys of the non-skipped
      candidates' outcomes. */
  lemma {:induction false} AccumulateKeySet(cfg: Config, s: Cell, cands: seq<Candidate>)
    ensures Keys(Accumulate(cfg, s, cands)) ==
              set c | c in cands && c.p > 0.0 :: Key(OutcomeOf(cfg, s, c))
    decreases |cands|
  {
    if |cands| > 0 {
      var init := cands[..|cands| - 1];
      var c := cands[|cands| - 1];
      AccumulateKeySet(cfg, s, init);
      CandidateKeysSnoc(cfg, s, init, c);
      assert cands == init + [c];
      if c.p > 0.0 {
        MergeKeys(Accumulate(cfg, s, init), OutcomeOf(cfg, s, c));
      }
    }
  }

  /** The keys of the positive candidates grow by the last candidate's key
      exactly when that candidate is positive. */
  lemma CandidateKeysSnoc(cfg: Config, s: Cell, init: seq<Candidate>, c: Candidate)
    ensures (set x | x in init + [c] && x.p > 0.0 :: Key(OutcomeOf(cfg, s, x))) ==
            (set x | x in init && x.p > 0.0 :: Key(OutcomeOf(cfg, s, x)))
            + (if c.p > 0.0 then {Key(OutcomeOf(cfg, s, c))} else {})
  {
  }

  // ---------------------------------------------------------------------
  // Properties of the outcome distribution

  /** From a non-terminal cell each outcome's reward depends only on where the
      step ends: the step cost, the bump penalty when the agent stayed put and
      the penalty is enabled, and the terminal reward when it ends on the
      terminal cell. A step that does not bump lands on an in-bounds neighbour. */
  lemma OutcomeOfShape(cfg: Config, s: Cell, c: Candidate)
    requires !IsTerminal(cfg, s)
    ensures OutcomeOf(cfg, s, c).r == StepReward(cfg, s, OutcomeOf(cfg, s, c).s1)
    ensures var s1 := OutcomeOf(cfg, s, c).s1;
            s1 == s || (InBounds(cfg.walls.n, s1) && Adjacent(s, s1))
  {
    var m := AttemptMove(cfg, s, c.a2);
    if !m.bumped {
      AdjacentIsShift(s, m.next);
    }
  }

  /** Outcomes of a non-terminal state: at most three, distinct next cells
      (hence distinct keys), every reward as StepReward gives it, every next
      cell either s or an in-bounds neighbour of s. */
  lemma OutcomesShape(cfg: Config, s: Cell, a: Action)
    requires !IsTerminal(cfg, s)
    ensures |Outcomes(cfg, s, a)| <= 3
    ensures DistinctKeys(Outcomes(cfg, s, a)) && DistinctNext(Outcomes(cfg, s, a))
    ensures forall t :: t in Outcomes(cfg, s, a) ==>
              t.p > 0.0 && t.r == StepReward(cfg, s, t.s1)
              && (t.s1 == s || (InBounds(cfg.walls.n, t.s1) && Adjacent(s, t.s1)))
  {
    var cands := Candidates(cfg, a);
    var ts := Outcomes(cfg, s, a);
    AccumulateKeys(cfg, s, cands);
    AccumulateKeySet(cfg, s, cands);
    forall t | t in ts
      ensures t.r == StepReward(cfg, s, t.s1)
      ensures t.s1 == s || (InBounds(cfg.walls.n, t.s1) && Adjacent(s, t.s1))
    {
      assert Key(t) in Keys(ts);
      var c :| c in cands && c.p > 0.0 && Key(OutcomeOf(cfg, s, c)) == Key(t);
      OutcomeOfShape(cfg, s, c);
    }
    forall i, j | 0 <= i < j < |ts| ensures ts[i].s1 != ts[j].s1 {
      assert ts[i] in ts && ts[j] in ts;
      assert Key(ts[i]) != Key(ts[j]);
    }
  }

  lemma PositiveMassOfCandidates(cfg: Config, a: Action)
    requires 0.0 <= cfg.pIntended <= 1.0
    ensures PositiveMass(Candidates(cfg, a)) == 1.0
  {
    var cs := Candidates(cfg, a);
    var p, slip := cfg.pIntended, (1.0 - cfg.pIntended) / 2.0;
    assert cs[..3] == cs && cs[..3][..2] == cs[..2] && cs[..2][..1] == cs[..1] && cs[..1][..0] == [];
    assert PositiveMass(cs[..1]) == (if p > 0.0 then p else 0.0);
    assert PositiveMass(cs[..2]) == PositiveMass(cs[..1]) + (if slip > 0.0 then slip else 0.0);
    assert PositiveMass(cs) == PositiveMass(cs[..2]) + (if slip > 0.0 then slip else 0.0);
  }

  /** For a valid slip probability the outcome probabilities sum to 1, from a
      terminal cell as from any other. */
  lemma OutcomesMass(cfg: Config, s: Cell, a: Action)
    requires 0.0 <= cfg.pIntended <= 1.0
    ensures Mass(Outcomes(cfg, s, a)) == 1.0
  {
    if IsTerminal(cfg, s) {
      assert Outcomes(cfg, s, a)[..0] == [];
    } else {
      AccumulateMass(cfg, s, Candidates(cfg, a), s);
      PositiveMassOfCandidates(cfg, a);
    }
  }

  /** Merging is exact: the probability of arriving at x from a non-terminal
      cell is the total probability of the executed actions whose move ends at x. */
  lemma OutcomesMassAt(cfg: Config, s: Cell, a: Action, x: Cell)
    requires !IsTerminal(cfg, s)
    ensures MassAt(Outcomes(cfg, s, a), x) == CandidateMassAt(cfg, s, Candidates(cfg, a), x)
  {
    AccumulateMass(cfg, s, Candidates(cfg, a), x);
  }

  /** Every next cell stays on the board of a walls record no larger than it. */
  lemma OutcomesInBounds(cfg: Config, s: Cell, a: Action)
    requires cfg.walls.n <= cfg.n && InBounds(cfg.n, s)
    ensures forall t :: t in Outcomes(cfg, s, a) ==> InBounds(cfg.n, t.s1) && t.p > 0.0
  {
    if !IsTerminal(cfg, s) {
      OutcomesShape(cfg, s, a);
    }
  }
}
