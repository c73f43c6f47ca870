# Tic-tac-toe MDP solvers in Dafny

This project models the two dynamic-programming solvers of the tic-tac-toe
learning agent and proves what they compute.

- **Value iteration** (`ValueIterationAgent`). `initValues` puts every
  enumerated game into the value table `valueFunction` with value 0.
  `iterate` runs `k` in-place Bellman-optimality sweeps. In a sweep a
  terminal game is pinned to 0. Every other game gets the running maximum,
  started at -999999, of Σ prob·(reward + γ·V(s′)) over its moves.
  `extractPolicy` pins terminal games to 0 again and maps each other game to
  the last of its moves whose lookahead equals the stored value exactly.
  `train` does both and publishes the policy.
- **Policy iteration** (`PolicyIterationAgent`). `initValues` zeroes the
  table `policyValues`. `initRandomPolicy` gives every game that has moves one
  of them in `curPolicy`. `evaluatePolicy` runs in-place sweeps under the
  current policy until a sweep's largest change is below `delta`. At a
  non-terminal game, a sweep does not do a single expectation backup. An
  inner loop over the game's moves never uses the move it iterates over. It
  redoes the backup of the policy move once per move, each time from the
  table as the previous round left it, and raises the running maximum when
  that round's change is larger. `PolicyIteration.RepeatedBackup` models this as written.
  `PolicyIteration.RepeatedBackupOnce` proves that it amounts to one backup
  when the game is not among the successors of its own policy move. That
  holds in tic-tac-toe, where every move adds a mark.
  `improvePolicy` takes, for every game of the policy, the best one-step
  lookahead and the last move attaining it. It replaces the game's move when
  that lookahead strictly exceeds the stored value, and reports whether this
  happened anywhere. `train` alternates the two until improvement reports
  nothing, then publishes `curPolicy`.

The game (`Game`), its moves, its terminal test and the transition model
(`TTTMDP.generateTransitions`) are not part of this model. They are the
function-valued fields of `Mdp.Model`, so every result holds for any game
and transition model whose value-table keys are closed under transitions
(`Mdp.Closed`). Both solvers look successors up in the table without a
check, which is why they need that closure.

Both solvers update a hash map while iterating over its key set. The updates
are in place, so the result depends on the iteration order. Each operation
therefore takes that order as an explicit `seq`. `Mdp.Enumerates` says that
the sequence lists every key exactly once. The key set never changes, so the
same order is used for every sweep.

Files:
- `mdp.dfy` holds the shared pieces: the model of the collaborators, the
  lookahead sum `Q` and the loop that computes it.
- `value_iteration.dfy` holds the value-iteration specification functions and
  the `ValueIterationAgent` class.
- `policy_iteration.dfy` holds the policy-iteration specification functions
  and the `PolicyIterationAgent` class.

Most class methods are proved equal to a specification function of the old
state, and the lemmas state what those functions mean. The exceptions are:
- the two constructors state the initial state directly;
- `InitRandomPolicy` states which entries it adds, because each move is
  chosen arbitrarily;
- `PolicyIterationAgent.Train` describes its run by a ghost trace of the
  table and policy each cycle started from, as explained under "## Left out".

## Model

| member | source | states |
|---|---|---|
| Mdp.DistinctByCount | src/main/java/ticTacToe/ValueIterationAgent.java:107 | a sequence has at most as many distinct games as entries, and exactly as many only when no game repeats |
| Mdp.EnumeratesDistinct | src/main/java/ticTacToe/ValueIterationAgent.java:107 | an iteration order over a key set visits no game twice, so the lemmas stated for distinct orders apply to every sweep |
| Mdp.DistinctAt | src/main/java/ticTacToe/PolicyIterationAgent.java:146 | in an order without repeats, different positions hold different games |
| Mdp.Zeroed | src/main/java/ticTacToe/ValueIterationAgent.java:78-80 | the keys are the old keys plus every listed game; each listed game holds 0; every other key keeps its value |
| Mdp.ExpectedReturn | src/main/java/ticTacToe/ValueIterationAgent.java:119-128 | the transition loop's sum is the expected return `Q` of the move: Σ prob·(reward + γ·V(s′)) over its transitions in order |
| Mdp.Lookahead | src/main/java/ticTacToe/ValueIterationAgent.java:119-128 | definition: the sum over the transitions, first to last, of prob·(reward + γ·V(s′)); its loop is `Mdp.ExpectedReturn` |
| Mdp.Q | src/main/java/ticTacToe/PolicyIterationAgent.java:203-206 | definition: a move's expected return is `Lookahead` over its transitions with the model's discount; `Mdp.LookaheadFrame` says what it reads |
| Mdp.LookaheadFrame | src/main/java/ticTacToe/PolicyIterationAgent.java:160-167 | a move's expected return reads the table only at its successors: tables that agree there give the same sum |
| ValueIteration.BestLookahead | src/main/java/ticTacToe/ValueIterationAgent.java:115-134 | the running maximum is at least -999999 and at least each move's expected return; it is -999999 or exactly one move's expected return |
| ValueIteration.Backup | src/main/java/ticTacToe/ValueIterationAgent.java:109-135 | definition: a terminal game gets 0, any other the running maximum over its moves; its meaning is `BestLookahead` and `SweepNonTerminal` |
| ValueIteration.Sweep | src/main/java/ticTacToe/ValueIterationAgent.java:107-136 | a sweep keeps the key set, leaves unlisted games alone and leaves every listed terminal game at 0 |
| ValueIteration.Sweeps | src/main/java/ticTacToe/ValueIterationAgent.java:105-137 | `n` sweeps keep the key set; after at least one, every listed terminal game is 0 |
| ValueIteration.SweepAt | src/main/java/ticTacToe/ValueIterationAgent.java:107-135 | in a sweep over distinct games, the `i`-th game ends with its backup from the table as the first `i` games left it |
| ValueIteration.SweepNonTerminal | src/main/java/ticTacToe/ValueIterationAgent.java:115-135 | a swept non-terminal game is at least every move's return and equals one of them or -999999, read from the table at that point of the sweep; with no moves it is -999999 |
| ValueIteration.LastMatch | src/main/java/ticTacToe/ValueIterationAgent.java:161-177 | finds the last move whose return equals the target; none exactly when no move's return equals it |
| ValueIteration.Extract | src/main/java/ticTacToe/ValueIterationAgent.java:152-178 | extraction keeps the keys, pins listed terminal games to 0, changes no other value, and maps only listed non-terminal games, each to one of its moves |
| ValueIteration.ExtractStep | src/main/java/ticTacToe/ValueIterationAgent.java:154-177 | definition: one game of the extraction loop; its meaning is `ExtractPinned` |
| ValueIteration.ExtractPinned | src/main/java/ticTacToe/ValueIterationAgent.java:159-177 | on a table whose terminal games hold 0: the table is unchanged; a game has an entry iff it is non-terminal and some move's return equals its value; the entry is the last such move |
| ValueIteration.ExtractIdempotent | src/main/java/ticTacToe/ValueIterationAgent.java:152-178 | from the first extraction's table on, extraction changes no value; on a table whose terminal games hold 0, extracting again gives the same table and policy |
| ValueIteration.TrainedPolicyConsistent | src/main/java/ticTacToe/ValueIterationAgent.java:187-198 | after at least one sweep, extraction leaves the table as it is; every entry maps a non-terminal game to one of its moves whose return equals the game's value |
| ValueIteration.ValueIterationAgent.constructor | src/main/java/ticTacToe/ValueIterationAgent.java:19-37 | the agent starts with an empty table and an empty policy, with the given MDP and sweep count |
| ValueIteration.ValueIterationAgent.InitValues | src/main/java/ticTacToe/ValueIterationAgent.java:75-84 | the table becomes the old table with every enumerated game at 0 |
| ValueIteration.ValueIterationAgent.MaxLookahead | src/main/java/ticTacToe/ValueIterationAgent.java:115-134 | the move loop computes `BestLookahead` over all moves |
| ValueIteration.ValueIterationAgent.SweepInPlace | src/main/java/ticTacToe/ValueIterationAgent.java:107-136 | the in-place loop over the keys leaves the table `Sweep` describes |
| ValueIteration.ValueIterationAgent.Iterate | src/main/java/ticTacToe/ValueIterationAgent.java:103-138 | exactly `k` sweeps: the table becomes `Sweeps(old table, order, k)` |
| ValueIteration.ValueIterationAgent.MatchingMove | src/main/java/ticTacToe/ValueIterationAgent.java:161-177 | the move loop finds `LastMatch`, the move that survives the repeated `put`s |
| ValueIteration.ValueIterationAgent.ExtractAt | src/main/java/ticTacToe/ValueIterationAgent.java:154-177 | one game of the extraction loop does what `ExtractStep` says to the table and the policy being built |
| ValueIteration.ValueIterationAgent.ExtractPolicy | src/main/java/ticTacToe/ValueIterationAgent.java:146-181 | returns the policy, and leaves the table, that `Extract` gives for the old table |
| ValueIteration.ValueIterationAgent.Train | src/main/java/ticTacToe/ValueIterationAgent.java:187-208 | the published policy and the final table are extraction after `k` sweeps of the old table |
| PolicyIteration.RepeatedBackup | src/main/java/ticTacToe/PolicyIterationAgent.java:155-175 | the repeated backup of one game keeps the key set |
| PolicyIteration.RepeatedBackupBounds | src/main/java/ticTacToe/PolicyIterationAgent.java:155-175 | the repeated backup changes only its game, never lowers the running maximum, and ends at least the game's distance from its value at the start |
| PolicyIteration.RepeatedBackupOnce | src/main/java/ticTacToe/PolicyIterationAgent.java:155-175 | when the game is not its own successor, the repeated rounds amount to one backup of the policy move from the table as it was |
| PolicyIteration.EvalStep | src/main/java/ticTacToe/PolicyIterationAgent.java:148-175 | one game's evaluation step keeps the key set |
| PolicyIteration.EvalStepBounds | src/main/java/ticTacToe/PolicyIterationAgent.java:148-175 | one step changes only its game, pins a terminal game to 0, never lowers the running maximum, and for a game with moves leaves it at least the step's own change |
| PolicyIteration.EvalSweep | src/main/java/ticTacToe/PolicyIterationAgent.java:145-176 | an evaluation sweep keeps the key set |
| PolicyIteration.EvalSweepBounds | src/main/java/ticTacToe/PolicyIterationAgent.java:145-176 | a sweep's largest change is never negative; unlisted games keep their values; every listed terminal game ends at 0 |
| PolicyIteration.EvalSweepChange | src/main/java/ticTacToe/PolicyIterationAgent.java:169-174 | a game that occurs once from position `i` on changes over the sweep by at most the sweep's largest change |
| PolicyIteration.EvalStepAttained | src/main/java/ticTacToe/PolicyIterationAgent.java:169-174 | without self-loops, one step either keeps the running maximum or sets it to its own game's change |
| PolicyIteration.EvalSweepAttained | src/main/java/ticTacToe/PolicyIterationAgent.java:145-176 | over distinct games without self-loops, the largest change is 0 or exactly the change of one non-terminal game with moves; with `EvalSweepChange`, it is the largest of those changes |
| PolicyIteration.EvalSweepValue | src/main/java/ticTacToe/PolicyIterationAgent.java:160-170 | a non-terminal game with moves has a policy entry; if it occurs once from position `i` on and is not its own successor, it ends with the expected return of its policy move only, read from the table at that point of the sweep |
| PolicyIteration.EvaluateRun | src/main/java/ticTacToe/PolicyIterationAgent.java:144-178 | the sweep loop keeps the key set |
| PolicyIteration.EvalSweeps | src/main/java/ticTacToe/PolicyIterationAgent.java:144-178 | `n` sweeps in a row keep the key set |
| PolicyIteration.SweepCount | src/main/java/ticTacToe/PolicyIterationAgent.java:144-178 | the number of sweeps the loop performs is between 1 and `fuel + 1` |
| PolicyIteration.EvaluateRunSweeps | src/main/java/ticTacToe/PolicyIterationAgent.java:144-178 | the result is the table after the last sweep performed; convergence is reported iff that sweep's largest change is below `delta`; otherwise the fuel was used up |
| PolicyIteration.SweepCountEarlier | src/main/java/ticTacToe/PolicyIterationAgent.java:178 | every sweep before the last one performed had a largest change of at least `delta`, so the loop stops at the first sweep below it |
| PolicyIteration.EvaluateRunBounds | src/main/java/ticTacToe/PolicyIterationAgent.java:150-154 | evaluation leaves every listed terminal game at 0; with `delta` at most 0 it never reports convergence |
| PolicyIteration.Max | src/main/java/ticTacToe/PolicyIterationAgent.java:209 | definition: `Collections.max` of a non-empty list; its meaning is `MaxBounds` |
| PolicyIteration.BestReturn | src/main/java/ticTacToe/PolicyIterationAgent.java:200-209 | definition: the maximum of `policyList` once every move is looked at; its meaning is `BestReturnBounds` |
| PolicyIteration.Improves | src/main/java/ticTacToe/PolicyIterationAgent.java:221 | definition: the improvement test, best return strictly above the stored value; `NoImprovementIsGreedy` gives its negation's meaning |
| PolicyIteration.Lookaheads | src/main/java/ticTacToe/PolicyIterationAgent.java:200-208 | `policyList` holds one entry per move looked at |
| PolicyIteration.LookaheadsAt | src/main/java/ticTacToe/PolicyIterationAgent.java:200-208 | the `i`-th entry of `policyList` is the expected return of the `i`-th move |
| PolicyIteration.MaxBounds | src/main/java/ticTacToe/PolicyIterationAgent.java:209 | `Collections.max` is at least every entry and equal to one of them |
| PolicyIteration.LastArgmax | src/main/java/ticTacToe/PolicyIterationAgent.java:209-215 | the index kept is a position of the maximum after which every entry is strictly smaller |
| PolicyIteration.BestReturnBounds | src/main/java/ticTacToe/PolicyIterationAgent.java:200-209 | the best return is at least every move's expected return and equal to one of them |
| PolicyIteration.BestMoveOf | src/main/java/ticTacToe/PolicyIterationAgent.java:197-216 | `finalMove` is one of the game's moves and attains the best return |
| PolicyIteration.BestMoveIsLast | src/main/java/ticTacToe/PolicyIterationAgent.java:200-216 | `finalMove` is the last move, in move order, whose return equals the maximum over all moves |
| PolicyIteration.ImprovedMove | src/main/java/ticTacToe/PolicyIterationAgent.java:219-225 | the entry an improvement gives a game is one of its moves |
| PolicyIteration.ImprovedPolicy | src/main/java/ticTacToe/PolicyIterationAgent.java:195-226 | improvement keeps the policy's games and gives each one of its moves |
| PolicyIteration.ImprovedPolicyKeeps | src/main/java/ticTacToe/PolicyIterationAgent.java:221-225 | a game whose best return does not exceed its value keeps its move |
| PolicyIteration.ImprovedPolicyImproves | src/main/java/ticTacToe/PolicyIterationAgent.java:219-225 | a game whose best return exceeds its value gets `finalMove`, whose return exceeds the value and is at least every other move's |
| PolicyIteration.ImprovedPolicyStable | src/main/java/ticTacToe/PolicyIterationAgent.java:221-234 | when no game passes the test, the policy is unchanged |
| PolicyIteration.ImprovedPolicyFits | src/main/java/ticTacToe/PolicyIterationAgent.java:195-226 | the improved policy still gives every game with moves a valid entry over the table's keys |
| PolicyIteration.ImproveSweep | src/main/java/ticTacToe/PolicyIterationAgent.java:195-226 | definition: the improvement loop over `order`; its meaning is `ImproveSweepPolicy` and `ImproveSweepImproved` |
| PolicyIteration.ImproveSweepAt | src/main/java/ticTacToe/PolicyIterationAgent.java:195-226 | after visiting `order`, a game holds its improved move if visited and its old move otherwise |
| PolicyIteration.ImproveSweepValid | src/main/java/ticTacToe/PolicyIterationAgent.java:195-226 | the step keeps the policy's key set and every entry valid |
| PolicyIteration.ImproveSweepFlag | src/main/java/ticTacToe/PolicyIterationAgent.java:221-234 | the flag is raised iff some visited game's best return exceeds its value |
| PolicyIteration.ImproveSweepPolicy | src/main/java/ticTacToe/PolicyIterationAgent.java:195-226 | visiting every game of the policy, in any order, yields the improved policy |
| PolicyIteration.ImproveSweepImproved | src/main/java/ticTacToe/PolicyIterationAgent.java:221-234 | visiting every game, `improvePolicy` returns true iff some game of the policy passes the test, even when its move does not change |
| PolicyIteration.ImproveSweepReady | src/main/java/ticTacToe/PolicyIterationAgent.java:250-253 | after an improvement step the policy still fits the table and has the same games, ready for the next evaluation |
| PolicyIteration.ImproveSweepStable | src/main/java/ticTacToe/PolicyIterationAgent.java:227-234 | a step that returns false left the policy as it was, and no game of it passes the test |
| PolicyIteration.NoImprovementIsGreedy | src/main/java/ticTacToe/PolicyIterationAgent.java:221-225 | when no game passes the test, no move of a policy game has an expected return above the game's value |
| PolicyIteration.PolicyIterationAgent.constructor | src/main/java/ticTacToe/PolicyIterationAgent.java:241 | the agent starts with empty tables and `delta` = 0.1 |
| PolicyIteration.PolicyIterationAgent.InitValues | src/main/java/ticTacToe/PolicyIterationAgent.java:100-106 | the table becomes the old table with every enumerated game at 0 |
| PolicyIteration.PolicyIterationAgent.InitRandomPolicy | src/main/java/ticTacToe/PolicyIterationAgent.java:113-128 | exactly the keys with moves gain an entry, each one of its moves; other entries are untouched |
| PolicyIteration.PolicyIterationAgent.EvaluateAt | src/main/java/ticTacToe/PolicyIterationAgent.java:148-175 | one game's evaluation leaves the table and running maximum `EvalStep` gives |
| PolicyIteration.PolicyIterationAgent.EvaluationSweep | src/main/java/ticTacToe/PolicyIterationAgent.java:145-176 | one in-place sweep leaves the table and largest change `EvalSweep` gives |
| PolicyIteration.PolicyIterationAgent.EvaluatePolicy | src/main/java/ticTacToe/PolicyIterationAgent.java:139-179 | the do-while loop leaves the table, and the convergence verdict, that `EvaluateRun` gives for the old table |
| PolicyIteration.PolicyIterationAgent.BestMove | src/main/java/ticTacToe/PolicyIterationAgent.java:197-216 | the move loop's `maxVal` is the best return and `finalMove` is `BestMoveOf` |
| PolicyIteration.PolicyIterationAgent.ImprovePolicy | src/main/java/ticTacToe/PolicyIterationAgent.java:188-235 | the new policy and the returned flag are `ImproveSweep` of the old policy; the table is untouched |
| PolicyIteration.LinkedSnoc | src/main/java/ticTacToe/PolicyIterationAgent.java:248-253 | a further cycle from the last recorded table and policy extends a linked trace of cycles |
| PolicyIteration.PolicyIterationAgent.EvaluateAndImprove | src/main/java/ticTacToe/PolicyIterationAgent.java:248-253 | one pass of the do-while: the table is the evaluation of the old policy from the old table; after convergence the policy and flag are the improvement step's; a false flag leaves the policy with no game passing the test; a true flag is a `Cycle` from the old to the new table and policy |
| PolicyIteration.PolicyIterationAgent.Train | src/main/java/ticTacToe/PolicyIterationAgent.java:248-256 | the ghost trace starts at the old table and policy, and each recorded cycle converged and improved into the next; the last entry starts the cycle that ends training, whose evaluation is the final table; if it converged, the final policy and `!stable` are its improvement step's result; training is stable only after an improvement step returns false, when no game passes the test, and only then is `curPolicy` published; a converged but unstable finish has run `fuel + 1` cycles |

## Left out

- Doubles are modelled as `real`. Rounding is not modelled, and the exact `==` tests of `extractPolicy` and `improvePolicy` are taken over reals.
- `java.util.Random` in `initRandomPolicy`: the model chooses an arbitrary valid index, not the generator's.
- `Game`, `Game.generateAllValidGames`, `getPossibleMoves`, `isTerminal`, `TTTMDP` and `Policy` are not part of this model. They are parameters: the list of games, and the fields of `Mdp.Model`.
- The constructors that call `initValues`, `initRandomPolicy` and `train` are left out. So are the `Policy` constructors, which delegate to `Agent`, not part of this model. The model's constructors only set up empty tables; callers then run the same steps.
- The `main` methods, `HumanAgent`, `Game.playOut` and the `println` in `ValueIterationAgent.train`: interactive I/O only.
- PolicyIteration.PolicyIterationAgent.EvaluatePolicy: does not model a loop that never ends. It takes a `fuel` bound on the sweeps after the first and reports whether it converged. The source loops for as long as the largest change stays at least `delta`.
- PolicyIteration.PolicyIterationAgent.Train: takes `evalFuel` and `fuel` bounds and stops without publishing when either runs out; the source does not stop in those cases. The run is recorded as a ghost trace of the table and policy each cycle started from, linked cycle by cycle (`Cycle`), rather than as one recursive function of the starting state.
- Convergence of evaluation and of training, and optimality of either solver's policy, are not proved. They need contraction arguments the source does not rely on.
- A game with no moves in `improvePolicy` would get a `null` move. This cannot happen, because `curPolicy` only ever holds games with moves (`PolicyIteration.ValidPolicy`).
- The `put`s inside the `keySet` loops never add a key, so the iteration order is modelled as one fixed sequence for every sweep.
