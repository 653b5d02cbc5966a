# Gridworld MDP: slip transitions, value iteration and rollouts

This project models the core of an interactive stochastic gridworld: an
n-by-n board with editable walls, a start cell and an absorbing terminal cell.
Each move succeeds with probability `pIntended` and otherwise slips to one of
the two perpendicular directions. The model covers four parts:

- the transition model, which groups outcomes by (next cell, reward);
- synchronous value iteration, with U, D, L, R tie-breaking;
- the wall editor;
- the rollout simulator, which moves an agent under the solved policy.

The project has four modules:

- `Grid` (`grid.dfy`): cells, actions and walls, plus wall blocking, single
  moves and flat indices. It covers the expression-only helpers of
  `src/lib/mdp/gridworld.ts`.
- `TransitionModel` (`transitions.dfy`): `transitions`. It is a loop that folds
  the three slip candidates into an insertion-ordered keyed collection.
  - It is proved equal to a specification fold, `Accumulate`.
  - Around the fold: total mass 1, the exact mass of each next cell, distinct
    keys, at most 3 outcomes and the reward form.
- `ValueIteration` (`value_iteration.dfy`): `valueIteration`, written with
  arrays and loops.
  - Specification: `Values(cfg, k)` is the value array after k synchronous
    sweeps from zero, `PolicyAfter` the policy array and `DeltaAfter` the
    recorded residual.
  - Proved about them:
    - the policy entry is the first action of largest action value;
    - the terminal value stays 0;
    - the residual is 0 exactly at a fixed point, and from then on the
      iterates stay put;
    - a sweep is monotone.
- `Playground` (`playground.dfy`): the state-changing handlers of
  `src/app/playground/mdp-gridworld/page.tsx`.
  - A `Page` class holds the walls and the rollout state. Its methods are
    proved against pure functions: `Toggled` for the wall toggle and
    `TickState` for one timer tick.
  - The rollout itself is the fold `Run`, which is proved to stop within its
    budget of `4 n^2` ticks.

The model uses these representations:

- Probabilities, rewards and values are reals.
- The residual before the first sweep (`Infinity` in the source) is
  `MaxDelta.Infinite`.
- The source's optional-chained matrix reads, which default to false, are
  `Grid.Lookup`.
- The source's truncating `%` is `Grid.TruncRem`.
- The string map key `"r,c,reward"` is tuple equality on (next cell, reward).
  Number-to-string conversion prints the shortest decimal that reads back as
  the same number, so distinct rewards get distinct keys (only +0 and -0
  share one), and grouping by exact equality is what the source does.
- The scan for the best action starts at minus infinity in the source, so the
  first action is always taken. `BestAction` starts at 0 and takes the first
  action unconditionally (`k == 0 || q > bestQ`), which gives the same result.

## Model

| member | source | states |
|---|---|---|
| Grid.EmptyWalls | src/lib/mdp/gridworld.ts:28-32 | The walls have size n, n rows of max(0, n-1) vertical entries and max(0, n-1) rows of n horizontal entries, and every entry is false |
| Grid.IsTerminal | src/lib/mdp/gridworld.ts:34-36 | Comparing row and column is exactly equality with the terminal cell |
| Grid.ClampCell | src/lib/mdp/gridworld.ts:38-40 | For n >= 1 the result is on the board; an on-board cell is returned unchanged; no board cell is nearer in either coordinate |
| Grid.Delta | src/lib/mdp/gridworld.ts:42-53 | Every action's displacement is a unit step along one axis |
| Grid.Perpendicular | src/lib/mdp/gridworld.ts:55-58 | The two slip directions differ from each other, from the action and from its opposite |
| Grid.PerpendicularOrthogonal | src/lib/mdp/gridworld.ts:55-58 | Both slip displacements have zero dot product with the action's; the first points towards lower indices and the second is its opposite |
| Grid.BlockedByWall | src/lib/mdp/gridworld.ts:60-79 | A target off the board is blocked, and so is any target not edge-adjacent to the source cell. Between two on-board neighbours the answer is the wall entry on their shared edge: v[r][min c] for a horizontal step, h[min r][c] for a vertical one, false where the entry is missing |
| Grid.AdjacentIsShift | src/lib/mdp/gridworld.ts:64-78 | The pairs that reach a wall lookup are exactly the pairs one action step apart |
| Grid.BlockedSymmetric | src/lib/mdp/gridworld.ts:60-79 | Between two on-board neighbours, blocking is the same in both directions |
| Grid.EmptyWallsOpen | src/lib/mdp/gridworld.ts:28-32 | With empty walls, no step between on-board neighbours is blocked |
| Grid.AttemptMove | src/lib/mdp/gridworld.ts:81-86 | A bumped move stays put; otherwise the agent moves exactly one step in the action's direction and stays on the board; an off-board target always bumps; an on-board cell stays on the board; bumped holds iff the agent did not move |
| Grid.Idx | src/lib/mdp/gridworld.ts:134-136 | A board cell's row-major index lies in [0, n*n) |
| Grid.CellFromIdx | src/lib/mdp/gridworld.ts:138-140 | An index in [0, n*n) maps to a board cell whose index is that index |
| Grid.IdxRoundTrip | src/lib/mdp/gridworld.ts:134-140 | cellFromIdx(idx(s)) == s for every board cell, so idx is a bijection onto [0, n*n) |
| Grid.IdxInjective | src/lib/mdp/gridworld.ts:134-136 | Distinct board cells have distinct indices |
| TransitionModel.Candidates | src/lib/mdp/gridworld.ts:100-107 | Exactly three candidates, in order: the intended action with probability pIntended, then the first and second perpendicular actions, each with probability (1 - pIntended) / 2 |
| TransitionModel.Reward | src/lib/mdp/gridworld.ts:114-116 | From a non-terminal cell, for any move whose bump flag means "stayed put", the reward is StepReward of the two cells: step cost, bump penalty exactly when staying put and enabled, terminal reward exactly on arrival at the terminal cell |
| TransitionModel.Merge | src/lib/mdp/gridworld.ts:118-121 | An outcome with a new key becomes a new last entry; one with a present key leaves the length and every entry's key unchanged |
| TransitionModel.FindKey | src/lib/mdp/gridworld.ts:118-119 | The lookup returns a position holding the same (next cell, reward) key, or the end when no entry has that key |
| TransitionModel.AccumulateStep | src/lib/mdp/gridworld.ts:111-122 | One more loop iteration either skips a candidate with p <= 0 or merges its outcome into the collection |
| TransitionModel.Record | src/lib/mdp/gridworld.ts:113-121 | The outcome is recorded with reward stepCost, plus bumpPenalty when bumped and enabled, plus terminalReward on entering the terminal cell. Its probability is added to the entry with the same key, or it becomes a new last entry |
| TransitionModel.Transitions | src/lib/mdp/gridworld.ts:94-125 | The loop's result is the specification fold Outcomes; at the terminal cell it is exactly [(s, 1, 0)] |
| TransitionModel.MergeMass | src/lib/mdp/gridworld.ts:118-121 | Merging an outcome adds its probability to the total mass and to the mass of its next cell |
| TransitionModel.AccumulateMass | src/lib/mdp/gridworld.ts:109-124 | The mass of the grouped outcomes equals the summed probabilities of the positive candidates, both in total and per next cell |
| TransitionModel.MergeKeys | src/lib/mdp/gridworld.ts:118-121 | Merging adds exactly the outcome's key, keeps keys distinct, grows the list by at most one, and keeps all probabilities positive when the added one is |
| TransitionModel.AccumulateKeys | src/lib/mdp/gridworld.ts:109-124 | The grouped outcomes have distinct keys and positive probabilities, and there are no more of them than candidates |
| TransitionModel.AccumulateKeySet | src/lib/mdp/gridworld.ts:109-124 | The keys present are exactly the keys of the positive candidates' outcomes |
| TransitionModel.OutcomeOfShape | src/lib/mdp/gridworld.ts:113-116 | From a non-terminal cell, an outcome's reward depends only on (s, s1): step cost, bump penalty exactly when s1 == s, terminal reward exactly when s1 is terminal. Its next cell is s or an on-board neighbour |
| TransitionModel.OutcomesShape | src/lib/mdp/gridworld.ts:94-125 | At a non-terminal cell: at most 3 outcomes, distinct keys and distinct next cells, positive probabilities, rewards of that form, next cell s or an on-board neighbour |
| TransitionModel.PositiveMassOfCandidates | src/lib/mdp/gridworld.ts:100-107 | For pIntended in [0, 1], the candidates with positive probability sum to 1 |
| TransitionModel.OutcomesMass | src/lib/mdp/gridworld.ts:94-125 | For pIntended in [0, 1], the outcome probabilities sum to 1, terminal or not |
| TransitionModel.OutcomesMassAt | src/lib/mdp/gridworld.ts:109-124 | Grouping loses no mass: the probability of each next cell equals the candidates' total probability for it |
| TransitionModel.OutcomesInBounds | src/lib/mdp/gridworld.ts:94-125 | From a board cell, with walls no larger than the board, every outcome lands on the board with positive probability |
| ValueIteration.Rank | src/lib/mdp/gridworld.ts:2 | Each action's rank is its position in U, D, L, R |
| ValueIteration.ExpectMerge | src/lib/mdp/gridworld.ts:118-121 | Adding an outcome's probability into an existing entry changes the expected return by that outcome's contribution, as a new entry would |
| ValueIteration.GainMerge | src/lib/mdp/gridworld.ts:120 | Two contributions with the same next cell and reward add up to the contribution of their summed probability |
| ValueIteration.ExpectAccumulate | src/lib/mdp/gridworld.ts:109-124 | The expected return over the grouped outcomes equals the sum over the ungrouped candidates |
| ValueIteration.QIsExpectOfOutcomes | src/lib/mdp/gridworld.ts:171-175 | The inner sum over transitions(s, a) is the action value Q(s, a) |
| ValueIteration.BestIsFirstMaximum | src/lib/mdp/gridworld.ts:168-180 | The strict-improvement scan returns a maximum of the values, attained at a position before which every value is strictly smaller |
| ValueIteration.GreedyIsFirstMaximum | src/lib/mdp/gridworld.ts:168-180 | The chosen action attains the largest Q over all four actions, and every action earlier in U, D, L, R order has a strictly smaller Q |
| ValueIteration.SweepIndex | src/lib/mdp/gridworld.ts:160-186 | Entry i of a sweep is the backup of cell i, and entry i of the policy is that cell's greedy action |
| ValueIteration.SweepIsGreedy | src/lib/mdp/gridworld.ts:160-186 | A sweep writes value 0 and action R at the terminal cell. Elsewhere it writes the maximum action value and the first action in U, D, L, R order that attains it |
| ValueIteration.ValuesTerminal | src/lib/mdp/gridworld.ts:162-166 | After any number of sweeps, the terminal cell's value is 0 |
| ValueIteration.ResidualUpTo | src/lib/mdp/gridworld.ts:184-185 | The running maximum change is never negative |
| ValueIteration.Residual | src/lib/mdp/gridworld.ts:158-186 | The residual of a sweep is never negative |
| ValueIteration.ResidualUpToBounds | src/lib/mdp/gridworld.ts:184-185 | Every non-terminal cell's change is at most the running maximum |
| ValueIteration.ResidualUpToAttained | src/lib/mdp/gridworld.ts:184-185 | A nonzero running maximum equals the change of some non-terminal cell |
| ValueIteration.ResidualZeroFixes | src/lib/mdp/gridworld.ts:157-190 | With the terminal cell at 0, a zero residual means the sweep changes nothing |
| ValueIteration.FixedPointResidualZero | src/lib/mdp/gridworld.ts:157-190 | A sweep that changes nothing has residual 0 |
| ValueIteration.ResidualZeroIffFixedPoint | src/lib/mdp/gridworld.ts:157-190 | With the terminal cell at 0, the residual is 0 iff V is a fixed point of the Bellman sweep |
| ValueIteration.ValuesStable | src/lib/mdp/gridworld.ts:157-190 | Once an iterate has residual 0, every later iterate equals it |
| ValueIteration.GainMonotone | src/lib/mdp/gridworld.ts:174 | For gamma >= 0 and p >= 0, a larger value array never decreases an outcome's contribution |
| ValueIteration.CandidateSumMonotone | src/lib/mdp/gridworld.ts:172-175 | For gamma >= 0 the summed return over the candidates is monotone in V (only candidates of positive probability contribute) |
| ValueIteration.QMonotone | src/lib/mdp/gridworld.ts:170-175 | For gamma >= 0, every action value is monotone in V |
| ValueIteration.BestMonotone | src/lib/mdp/gridworld.ts:168-180 | Raising every action's value never lowers the best value the scan finds |
| ValueIteration.SweepMonotone | src/lib/mdp/gridworld.ts:158-186 | For gamma >= 0, V <= W pointwise implies Sweep(V) <= Sweep(W) pointwise |
| ValueIteration.SweepOfPointwise | src/lib/mdp/gridworld.ts:160-186 | Arrays agreeing cell by cell with the backups and greedy actions are the sweep and its policy |
| ValueIteration.Expectation | src/lib/mdp/gridworld.ts:172-175 | The accumulation loop computes the expected one-step return of the outcome list |
| ValueIteration.ActionValue | src/lib/mdp/gridworld.ts:171-175 | The value computed for action a is Q(s, a) |
| ValueIteration.BestAction | src/lib/mdp/gridworld.ts:168-180 | The scan over U, D, L, R, always taking the first action and then replacing only on a strictly greater value, returns the greedy choice: the first action of largest Q, with its value |
| ValueIteration.BackupCell | src/lib/mdp/gridworld.ts:161-185 | Writes cell i's backup and policy entry (0 and R at the terminal cell), leaves every other entry alone, and folds the cell's change into the running maximum, except at the terminal cell |
| ValueIteration.SweepInto | src/lib/mdp/gridworld.ts:158-186 | After the cell loop, nextV is the sweep of V, policy is its greedy policy and the running maximum is the residual |
| ValueIteration.CopyInto | src/lib/mdp/gridworld.ts:188 | V.set(nextV) makes V equal to nextV |
| ValueIteration.ValueIteration | src/lib/mdp/gridworld.ts:142-193 | The results are as follows. Both arrays have length n*n. Iterations is at most max(0, maxIter), with defaults 5000 and 1e-7. V is the iterate after that many sweeps, the policy is the greedy policy of the previous iterate (all R with no sweep), and delta is the last residual (Infinity with no sweep). Stopping early means delta <= tol, and every earlier residual exceeded tol |
| Playground.Toggled | src/app/playground/mdp-gridworld/page.tsx:94-110 | Shape and size are kept, a missing entry leaves the walls unchanged, and exactly the addressed existing entry is negated |
| Playground.ToggleTwice | src/app/playground/mdp-gridworld/page.tsx:94-110 | Toggling the same entry twice restores the walls |
| Playground.ToggleFlipsBlocked | src/lib/mdp/gridworld.ts:60-79 | A toggle flips blocking between two on-board neighbours, in both directions, exactly when it edits the wall between them, and changes no other step |
| Playground.Page.ToggleWall | src/app/playground/mdp-gridworld/page.tsx:94-110 | The copy-and-negate handler leaves the walls equal to Toggled of the old walls and leaves the rollout state alone |
| Playground.SampleActualAction | src/app/playground/mdp-gridworld/page.tsx:112-120 | The intended action iff u < p; the first perpendicular iff p <= u < p + (1-p)/2; the second iff u >= p + (1-p)/2; never the opposite action |
| Playground.SampleIsInverseCdf | src/app/playground/mdp-gridworld/page.tsx:112-120 | The sampler returns the candidate that the inverse CDF of the solver's slip distribution picks for u, so it samples the distribution the policy was planned for |
| Playground.MaxSteps | src/app/playground/mdp-gridworld/page.tsx:129 | The budget 4n^2 is never negative, and at least 4 on a non-empty board |
| Playground.TickState | src/app/playground/mdp-gridworld/page.tsx:131-159 | A tick always places the agent. The counter stays put at the terminal cell and goes up by one elsewhere. The timer runs afterwards only if it ran before, the counter is below the budget and the agent is not at the terminal. An on-board agent stays on the board |
| Playground.TickAtTerminal | src/app/playground/mdp-gridworld/page.tsx:133-139 | At the terminal cell a tick keeps the agent there, stops the timer, and leaves the counter and the last step unchanged |
| Playground.TickMoves | src/app/playground/mdp-gridworld/page.tsx:140-158 | Elsewhere, the intended action is policy[r*n+c], or R when absent, and is the board cell's policy entry. The executed action is never its opposite. The agent moves to attemptMove's next cell with its bump flag, the counter goes up by exactly 1, and the timer keeps running iff it ran, the counter is below the budget and the agent is not at the terminal |
| Playground.StartedInv | src/app/playground/mdp-gridworld/page.tsx:122-128 | A started rollout satisfies the invariant: counter 0, agent on the board |
| Playground.TickInv | src/app/playground/mdp-gridworld/page.tsx:131-159 | A tick keeps counter <= budget, counter < budget while running, and the agent on the board. A running tick adds 1 to the counter, and a stop means terminal or budget reached |
| Playground.RunStops | src/app/playground/mdp-gridworld/page.tsx:131-159 | Given enough draws to exhaust the budget, every rollout ends stopped with the invariant intact |
| Playground.RolloutStops | src/app/playground/mdp-gridworld/page.tsx:129-159 | A rollout started on an n-by-n board (n >= 1) stops within 4n^2 ticks with its counter in [0, 4n^2] |
| Playground.Page.constructor | src/app/playground/mdp-gridworld/page.tsx:29 | The page starts with emptyWalls(10), no agent, counter 0 and no rollout running |
| Playground.Page.StartSimulation | src/app/playground/mdp-gridworld/page.tsx:122-128 | Does nothing while a rollout runs; otherwise starts the timer with counter 0 and the agent at the start cell |
| Playground.Page.Tick | src/app/playground/mdp-gridworld/page.tsx:131-159 | Given a running timer and a configuration holding the page's walls, the timer callback's updates equal TickState of the old rollout state and leave the walls alone |
| Playground.Page.StopSimulation | src/app/playground/mdp-gridworld/page.tsx:163-168 | Stops the timer and resets the counter to 0; agent and walls are kept |

## Left out

- React state, effects, memoisation and JSX. The model leaves out the
  interval timer and its 220 ms period, the reset button, and the effect that
  stops the rollout and clears the agent on every configuration change. The
  page's state is the `Page` class, and its handlers are its methods.
- The random generator `mulberry32` is not part of this model. Its draw is the
  parameter `u` of `SampleActualAction`, `TickState` and `Page.Tick`. A
  rollout is driven by an explicit sequence of draws.
- IEEE-754 arithmetic is not modelled. Values, probabilities and rewards are
  exact reals, so the model has no rounding, NaN or overflow.
- No convergence rate or bound on the number of sweeps is proved. The model
  proves only the stopping rule, the fixed-point characterisation and
  monotonicity.
- The canvas, its click-to-edge hit testing and the heat-map colouring are
  not modelled.
- ValueIteration.ValueIteration: requires `walls.n <= n`.
  - Without it, a move can leave the n-by-n board. The source's index read
    then lands outside the value array or wraps to another row.
  - The page can pass such a configuration for one render, while the grid
    size has changed and the walls have not yet been rebuilt. That
    transient solve is not modelled.
- ValueIteration.ValueAt: returns 0 for an off-board cell. That case is proved
  never to be read, because all outcomes of a board cell are on the board.
- ValueIteration.SweepInto: receives V as a snapshot of the value array.
  `V.set(nextV)` at line 188 is `CopyInto`, and nothing aliases the two arrays.
- `Record`, `Expectation`, `BestAction` and `BackupCell` are the bodies of
  the source's nested loops, lifted into their own methods. The operations
  and their order are unchanged.
- Grid.EmptyWalls: accepts any n, as the source does, and yields empty
  matrices for n < 1. There is no size validation, because the source has
  none.
- Playground.Page.Tick: requires that the timer is running. The callback only
  fires while the interval is set.
  - It also requires that its configuration holds the page's current walls.
    A wall edit changes the configuration, and the page then stops the
    rollout, so a running tick never sees stale walls.
  - Its board size is `cfg.n`, which equals the page's grid size. Its
    `maxSteps` is the value captured when the rollout started.
  - Its policy is a parameter, standing for the solved policy.
- Playground.Page.StopSimulation: the displayed step count (`simSteps`) is not
  modelled separately. The model tracks the reference counter that the tick
  reads.
- The solve options the page passes (tolerance 1e-7, 2000 sweeps) are just
  an `Options` value. The defaults 5000 and 1e-7 are the constants
  `DefaultMaxIter` and `DefaultTol`.
