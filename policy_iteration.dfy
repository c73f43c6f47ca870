/**
 Policy iteration: alternate in-place evaluation sweeps of the current policy
 (until the largest change in a sweep falls below `delta`) with a one-step
 lookahead improvement of the policy, until an improvement step changes
 nothing. The functions below say what each step computes; the class
 `PolicyIterationAgent` performs the steps in place and is proved to agree
 with them.
 */
module PolicyIteration {
  import opened Mdp

  /** Every entry of the policy is one of its state's moves. */
  ghost predicate ValidPolicy<S, M>(mdp: Model<S, M>, pi: map<S, M>)
  {
    forall g {:trigger pi[g]} :: g in pi ==> pi[g] in mdp.moves(g)
  }

  /** Every non-terminal key that has a move has a policy entry: the states
      whose policy move an evaluation sweep looks up. */
  ghost predicate Covers<S, M>(mdp: Model<S, M>, pi: map<S, M>, keys: set<S>)
  {
    forall g {:trigger mdp.moves(g), g in keys} :: g in keys && !mdp.isTerminal(g) && mdp.moves(g) != [] ==> g in pi
  }

  /** The value table's key set is closed under transitions, and the policy
      has an entry, one of the state's moves, for exactly the keys an
      evaluation sweep looks up and possibly more: the conditions under
      which the solvers never look up a missing key. */
  ghost predicate Fits<S, M>(mdp: Model<S, M>, keys: set<S>, pi: map<S, M>)
  {
    Closed(mdp, keys) && pi.Keys <= keys && ValidPolicy(mdp, pi) && Covers(mdp, pi, keys)
  }

  /** Every state of `order` is a key. */
  ghost predicate Listed<S>(order: seq<S>, keys: set<S>)
  {
    forall g :: g in order ==> g in keys
  }

  /** `Math.abs` */
  function Abs(x: real): real
  {
    if x < 0.0 then -x else x
  }

  /** A value table together with the largest change recorded so far in the
      current sweep (`maxVal` of `evaluatePolicy`). */
  datatype Evaluation<S> = Evaluation(values: map<S, real>, maxChange: real)

  /** The inner loop of an evaluation sweep at a non-terminal state `g`: it
      runs once per move of `g` (`n` times) without using that move; each
      round recomputes the expected return of the policy move `pm` from the
      current table, writes it for `g`, and raises the running maximum by its
      distance from `before`, the value `g` had when the sweep reached it. */
  function RepeatedBackup<S(==), M>(mdp: Model<S, M>, V: map<S, real>, g: S, pm: M, n: nat, before: real, mx: real): (r: Evaluation<S>)
    requires Closed(mdp, V.Keys) && g in V && pm in mdp.moves(g)
    ensures r.values.Keys == V.Keys
  {
    if n == 0 then Evaluation(V, mx)
    else
      var e := RepeatedBackup(mdp, V, g, pm, n - 1, before, mx);
      var sum := Q(mdp, e.values, g, pm);
      var change := Abs(before - sum);
      Evaluation(e.values[g := sum], if change > e.maxChange then change else e.maxChange)
  }

  /** The repeated backup changes only `g`, never lowers the running maximum,
      and leaves it at least as large as the distance of `g`'s final value
      from `before`. */
  lemma {:induction false} RepeatedBackupBounds<S, M>(mdp: Model<S, M>, V: map<S, real>, g: S, pm: M, n: nat, before: real, mx: real)
    requires Closed(mdp, V.Keys) && g in V && pm in mdp.moves(g)
    ensures var r := RepeatedBackup(mdp, V, g, pm, n, before, mx);
      && (forall h {:trigger r.values[h]} :: h in V && h != g ==> r.values[h] == V[h])
      && r.maxChange >= mx
      && (n > 0 ==> r.maxChange >= Abs(before - r.values[g]))
  {
    if n > 0 {
      RepeatedBackupBounds(mdp, V, g, pm, n - 1, before, mx);
    }
  }

  /** When `g` is not among the successors of its own policy move (as in
      tic-tac-toe, where every move adds a mark), the repeated rounds are one
      expectation backup: `g` gets the expected return of `pm` under the table
      as it was, and the running maximum grows by that one change. */
  lemma {:induction false} RepeatedBackupOnce<S, M>(mdp: Model<S, M>, V: map<S, real>, g: S, pm: M, n: nat, before: real, mx: real)
    requires Closed(mdp, V.Keys) && g in V && pm in mdp.moves(g)
    requires forall t :: t in mdp.transitions(g, pm) ==> t.sPrime != g
    requires n > 0
    ensures
      var sum := Q(mdp, V, g, pm);
      var change := Abs(before - sum);
      RepeatedBackup(mdp, V, g, pm, n, before, mx) == Evaluation(V[g := sum], if change > mx then change else mx)
  {
    if n > 1 {
      RepeatedBackupOnce(mdp, V, g, pm, n - 1, before, mx);
      var sum := Q(mdp, V, g, pm);
      LookaheadFrame(mdp.transitions(g, pm), mdp.discount, V, V[g := sum]);
    }
  }

  /** What an evaluation sweep does at one state `g`: a terminal state is
      pinned to 0, a non-terminal state with moves gets the repeated backup of
      its policy move, and a state with no moves is left alone. */
  function EvalStep<S(==), M>(mdp: Model<S, M>, pi: map<S, M>, e: Evaluation<S>, g: S): (r: Evaluation<S>)
    requires Fits(mdp, e.values.Keys, pi) && g in e.values
    ensures r.values.Keys == e.values.Keys
  {
    if mdp.isTerminal(g) then Evaluation(e.values[g := 0.0], e.maxChange)
    else if mdp.moves(g) == [] then e
    else RepeatedBackup(mdp, e.values, g, pi[g], |mdp.moves(g)|, e.values[g], e.maxChange)
  }

  /** One step changes only `g`, pins a terminal `g` to 0, never lowers the
      running maximum, and for a state with moves leaves the maximum at least
      as large as the step's own change. */
  lemma EvalStepBounds<S, M>(mdp: Model<S, M>, pi: map<S, M>, e: Evaluation<S>, g: S)
    requires Fits(mdp, e.values.Keys, pi) && g in e.values
    ensures var r := EvalStep(mdp, pi, e, g);
      && (forall h {:trigger r.values[h]} :: h in e.values && h != g ==> r.values[h] == e.values[h])
      && r.maxChange >= e.maxChange
      && (mdp.isTerminal(g) ==> r.values[g] == 0.0)
      && (!mdp.isTerminal(g) && mdp.moves(g) != [] ==> r.maxChange >= Abs(e.values[g] - r.values[g]))
  {
    if !mdp.isTerminal(g) && mdp.moves(g) != [] {
      RepeatedBackupBounds(mdp, e.values, g, pi[g], |mdp.moves(g)|, e.values[g], e.maxChange);
    }
  }

  /** One in-place evaluation sweep of the policy `pi` over `order`, starting
      with a largest change of 0. */
  function EvalSweep<S(==), M>(mdp: Model<S, M>, V: map<S, real>, pi: map<S, M>, order: seq<S>): (r: Evaluation<S>)
    requires Fits(mdp, V.Keys, pi) && Listed(order, V.Keys)
    ensures r.values.Keys == V.Keys
  {
    if order == [] then Evaluation(V, 0.0)
    else
      var front, g := order[..|order| - 1], order[|order| - 1];
      assert order == front + [g];
      EvalStep(mdp, pi, EvalSweep(mdp, V, pi, front), g)
  }

  /** A sweep's largest change is never negative, states outside `order`
      keep their values, and every terminal state of `order` ends at 0. */
  lemma {:induction false} EvalSweepBounds<S, M>(mdp: Model<S, M>, V: map<S, real>, pi: map<S, M>, order: seq<S>)
    requires Fits(mdp, V.Keys, pi) && Listed(order, V.Keys)
    ensures var r := EvalSweep(mdp, V, pi, order);
      && r.maxChange >= 0.0
      && (forall g {:trigger r.values[g]} :: g in V && g !in order ==> r.values[g] == V[g])
      && (forall g {:trigger r.values[g]} :: g in order && mdp.isTerminal(g) ==> r.values[g] == 0.0)
  {
    if order != [] {
      var front, last := order[..|order| - 1], order[|order| - 1];
      assert order == front + [last];
      EvalSweepBounds(mdp, V, pi, front);
      var e := EvalSweep(mdp, V, pi, front);
      assert EvalSweep(mdp, V, pi, order) == EvalStep(mdp, pi, e, last);
      EvalStepBounds(mdp, pi, e, last);
    }
  }

  /** When the `i`-th state of a sweep does not occur again later in it and
      is non-terminal with moves, the change it undergoes, from its value when
      the sweep reached it to its value at the end, is at most the sweep's
      largest change. */
  lemma {:induction false} EvalSweepChange<S, M>(mdp: Model<S, M>, V: map<S, real>, pi: map<S, M>, order: seq<S>, i: nat)
    requires Fits(mdp, V.Keys, pi) && Listed(order, V.Keys)
    requires i < |order| && order[i] !in order[i + 1..]
    requires !mdp.isTerminal(order[i]) && mdp.moves(order[i]) != []
    ensures
      var g, W := order[i], EvalSweep(mdp, V, pi, order[..i]).values;
      var r := EvalSweep(mdp, V, pi, order);
      r.maxChange >= Abs(W[g] - r.values[g])
  {
    var front, last := order[..|order| - 1], order[|order| - 1];
    assert order == front + [last];
    var e := EvalSweep(mdp, V, pi, front);
    assert EvalSweep(mdp, V, pi, order) == EvalStep(mdp, pi, e, last);
    EvalStepBounds(mdp, pi, e, last);
    if i < |order| - 1 {
      assert front[i + 1..] + [last] == order[i + 1..];
      EvalSweepChange(mdp, V, pi, front, i);
      assert front[..i] == order[..i];
      assert last != order[i];
    } else {
      assert order[..i] == front;
    }
  }

  /** The `i`-th state of a sweep has a policy entry when it is non-terminal
      with moves; when it also does not occur again later in the sweep and is
      not its own successor under its policy move (as in tic-tac-toe, where
      every move adds a mark), it ends with the expected return of that move
      under the table as it stood when the sweep reached it. */
  lemma {:induction false} EvalSweepValue<S, M>(mdp: Model<S, M>, V: map<S, real>, pi: map<S, M>, order: seq<S>, i: nat)
    requires Fits(mdp, V.Keys, pi) && Listed(order, V.Keys)
    requires i < |order| && order[i] !in order[i + 1..]
    requires !mdp.isTerminal(order[i]) && mdp.moves(order[i]) != []
    ensures
      var g, W := order[i], EvalSweep(mdp, V, pi, order[..i]).values;
      && g in pi
      && ((forall t :: t in mdp.transitions(g, pi[g]) ==> t.sPrime != g) ==>
            EvalSweep(mdp, V, pi, order).values[g] == Q(mdp, W, g, pi[g]))
  {
    var front, last := order[..|order| - 1], order[|order| - 1];
    assert order == front + [last];
    var g, e := order[i], EvalSweep(mdp, V, pi, front);
    assert EvalSweep(mdp, V, pi, order) == EvalStep(mdp, pi, e, last);
    if i < |order| - 1 {
      EvalStepBounds(mdp, pi, e, last);
      assert front[i + 1..] + [last] == order[i + 1..];
      EvalSweepValue(mdp, V, pi, front, i);
      assert front[..i] == order[..i];
      assert last != g;
    } else {
      assert order[..i] == front;
      if forall t :: t in mdp.transitions(g, pi[g]) ==> t.sPrime != g {
        RepeatedBackupOnce(mdp, e.values, g, pi[g], |mdp.moves(g)|, e.values[g], e.maxChange);
      }
    }
  }

  /** No policy move leads from a state back to itself, as in tic-tac-toe,
      where every move adds a mark. */
  ghost predicate NoSelfLoops<S, M>(mdp: Model<S, M>, pi: map<S, M>)
  {
    forall g, t {:trigger t in mdp.transitions(g, pi[g])} :: g in pi && t in mdp.transitions(g, pi[g]) ==> t.sPrime != g
  }

  /** Without self-loops, one step either leaves the running maximum as it
      was or sets it to the change of its own non-terminal state with moves. */
  lemma EvalStepAttained<S, M>(mdp: Model<S, M>, pi: map<S, M>, e: Evaluation<S>, g: S)
    requires Fits(mdp, e.values.Keys, pi) && g in e.values && NoSelfLoops(mdp, pi)
    ensures var r := EvalStep(mdp, pi, e, g);
      || r.maxChange == e.maxChange
      || (!mdp.isTerminal(g) && mdp.moves(g) != [] && r.maxChange == Abs(e.values[g] - r.values[g]))
  {
    if !mdp.isTerminal(g) && mdp.moves(g) != [] {
      assert g in pi;
      RepeatedBackupOnce(mdp, e.values, g, pi[g], |mdp.moves(g)|, e.values[g], e.maxChange);
    }
  }

  /** In a sweep over distinct states without self-loops, the largest change
      is 0 or is the change of one non-terminal state with moves, the `i`-th,
      from its value when the sweep reached it to its value at the end. */
  lemma {:induction false} EvalSweepAttained<S, M>(mdp: Model<S, M>, V: map<S, real>, pi: map<S, M>, order: seq<S>) returns (i: nat)
    requires Fits(mdp, V.Keys, pi) && Listed(order, V.Keys)
    requires Distinct(order) && NoSelfLoops(mdp, pi)
    ensures var r := EvalSweep(mdp, V, pi, order);
      || r.maxChange == 0.0
      || (&& i < |order| && !mdp.isTerminal(order[i]) && mdp.moves(order[i]) != []
          && r.maxChange == Abs(EvalSweep(mdp, V, pi, order[..i]).values[order[i]] - r.values[order[i]]))
  {
    i := 0;
    if order != [] {
      var front, last := order[..|order| - 1], order[|order| - 1];
      assert order == front + [last];
      var e, r := EvalSweep(mdp, V, pi, front), EvalSweep(mdp, V, pi, order);
      assert r == EvalStep(mdp, pi, e, last);
      EvalStepBounds(mdp, pi, e, last);
      EvalStepAttained(mdp, pi, e, last);
      if r.maxChange != e.maxChange {
        i := |order| - 1;
        assert order[..i] == front;
      } else {
        i := EvalSweepAttained(mdp, V, pi, front);
        if e.maxChange != 0.0 {
          assert order[i] == front[i] && order[..i] == front[..i];
          assert r.values[order[i]] == e.values[order[i]];
        }
      }
    }
  }

  /** The values `evaluatePolicy` leaves and whether it stopped because a
      sweep's largest change fell below `delta`. */
  datatype Evaluated<S> = Evaluated(values: map<S, real>, converged: bool)

  /** `evaluatePolicy`: sweep, and sweep again from the swept table while the
      largest change of a sweep is at least `delta`, at most `fuel` times after
      the first; the table after the last sweep, and whether that sweep's
      largest change was below `delta`. */
  function EvaluateRun<S(==), M>(mdp: Model<S, M>, V: map<S, real>, pi: map<S, M>, order: seq<S>, delta: real, fuel: nat): (r: Evaluated<S>)
    requires Fits(mdp, V.Keys, pi) && Listed(order, V.Keys)
    ensures r.values.Keys == V.Keys
    decreases fuel
  {
    var e := EvalSweep(mdp, V, pi, order);
    if e.maxChange < delta || fuel == 0 then Evaluated(e.values, e.maxChange < delta)
    else EvaluateRun(mdp, e.values, pi, order, delta, fuel - 1)
  }

  /** `evaluatePolicy` as the do-while loop it is, when it goes on: a sweep
      whose largest change is at least `delta`, with fuel left, is followed by
      an evaluation from the swept table. */
  lemma EvaluateRunNext<S, M>(mdp: Model<S, M>, V: map<S, real>, pi: map<S, M>, order: seq<S>, delta: real, fuel: nat)
    requires Fits(mdp, V.Keys, pi) && Listed(order, V.Keys)
    requires EvalSweep(mdp, V, pi, order).maxChange >= delta && fuel > 0
    ensures EvaluateRun(mdp, V, pi, order, delta, fuel) == EvaluateRun(mdp, EvalSweep(mdp, V, pi, order).values, pi, order, delta, fuel - 1)
  {
  }

  /** `evaluatePolicy` as the do-while loop it is, when it stops: after a
      sweep whose largest change is below `delta`, or with no fuel left, the
      result is that sweep's table, converged exactly when the change is below
      `delta`. */
  lemma EvaluateRunStop<S, M>(mdp: Model<S, M>, V: map<S, real>, pi: map<S, M>, order: seq<S>, delta: real, fuel: nat)
    requires Fits(mdp, V.Keys, pi) && Listed(order, V.Keys)
    requires EvalSweep(mdp, V, pi, order).maxChange < delta || fuel == 0
    ensures var e := EvalSweep(mdp, V, pi, order);
      EvaluateRun(mdp, V, pi, order, delta, fuel) == Evaluated(e.values, e.maxChange < delta)
  {
  }

  /** `n` evaluation sweeps in a row, each from the table the previous one
      left; the result carries the last sweep's largest change. */
  function EvalSweeps<S(==), M>(mdp: Model<S, M>, V: map<S, real>, pi: map<S, M>, order: seq<S>, n: nat): (r: Evaluation<S>)
    requires Fits(mdp, V.Keys, pi) && Listed(order, V.Keys) && n >= 1
    ensures r.values.Keys == V.Keys
    decreases n
  {
    var e := EvalSweep(mdp, V, pi, order);
    if n == 1 then e else EvalSweeps(mdp, e.values, pi, order, n - 1)
  }

  /** `n + 1` sweeps are one sweep followed by `n` more. */
  lemma EvalSweepsShift<S, M>(mdp: Model<S, M>, V: map<S, real>, pi: map<S, M>, order: seq<S>, n: nat)
    requires Fits(mdp, V.Keys, pi) && Listed(order, V.Keys) && n >= 2
    ensures EvalSweeps(mdp, V, pi, order, n) == EvalSweeps(mdp, EvalSweep(mdp, V, pi, order).values, pi, order, n - 1)
  {
  }

  /** The number of sweeps `evaluatePolicy` performs: one more after each
      sweep whose largest change is at least `delta`, while fuel lasts. */
  function SweepCount<S(==), M>(mdp: Model<S, M>, V: map<S, real>, pi: map<S, M>, order: seq<S>, delta: real, fuel: nat): (j: nat)
    requires Fits(mdp, V.Keys, pi) && Listed(order, V.Keys)
    ensures 1 <= j <= fuel + 1
    decreases fuel
  {
    var e := EvalSweep(mdp, V, pi, order);
    if e.maxChange < delta || fuel == 0 then 1
    else 1 + SweepCount(mdp, e.values, pi, order, delta, fuel - 1)
  }

  /** The stop rule of `evaluatePolicy`, first half: with `j` sweeps
      performed, the result is the table after the `j`-th sweep, convergence
      is reported exactly when the `j`-th sweep's largest change is below
      `delta`, and otherwise the fuel was used up. */
  lemma {:induction false} EvaluateRunSweeps<S, M>(mdp: Model<S, M>, V: map<S, real>, pi: map<S, M>, order: seq<S>, delta: real, fuel: nat)
    requires Fits(mdp, V.Keys, pi) && Listed(order, V.Keys)
    ensures
      var r, j := EvaluateRun(mdp, V, pi, order, delta, fuel), SweepCount(mdp, V, pi, order, delta, fuel);
      && r.values == EvalSweeps(mdp, V, pi, order, j).values
      && (r.converged <==> EvalSweeps(mdp, V, pi, order, j).maxChange < delta)
      && (!r.converged ==> j == fuel + 1)
    decreases fuel
  {
    var e := EvalSweep(mdp, V, pi, order);
    assert EvalSweeps(mdp, V, pi, order, 1) == e;
    if e.maxChange < delta || fuel == 0 {
      EvaluateRunStop(mdp, V, pi, order, delta, fuel);
      assert SweepCount(mdp, V, pi, order, delta, fuel) == 1;
    } else {
      EvaluateRunNext(mdp, V, pi, order, delta, fuel);
      EvaluateRunSweeps(mdp, e.values, pi, order, delta, fuel - 1);
      var k := SweepCount(mdp, e.values, pi, order, delta, fuel - 1);
      assert SweepCount(mdp, V, pi, order, delta, fuel) == k + 1;
      EvalSweepsShift(mdp, V, pi, order, k + 1);
    }
  }

  /** The stop rule of `evaluatePolicy`, second half: every sweep before the
      last one performed changed some state by at least `delta`. */
  lemma {:induction false} SweepCountEarlier<S, M>(mdp: Model<S, M>, V: map<S, real>, pi: map<S, M>, order: seq<S>, delta: real, fuel: nat)
    requires Fits(mdp, V.Keys, pi) && Listed(order, V.Keys)
    ensures forall l {:trigger EvalSweeps(mdp, V, pi, order, l)} ::
      1 <= l < SweepCount(mdp, V, pi, order, delta, fuel) ==> EvalSweeps(mdp, V, pi, order, l).maxChange >= delta
    decreases fuel
  {
    var e := EvalSweep(mdp, V, pi, order);
    if !(e.maxChange < delta || fuel == 0) {
      SweepCountEarlier(mdp, e.values, pi, order, delta, fuel - 1);
      var k := SweepCount(mdp, e.values, pi, order, delta, fuel - 1);
      assert SweepCount(mdp, V, pi, order, delta, fuel) == k + 1;
      forall l | 1 <= l < k + 1
        ensures EvalSweeps(mdp, V, pi, order, l).maxChange >= delta
      {
        if l > 1 {
          EvalSweepsShift(mdp, V, pi, order, l);
        } else {
          assert EvalSweeps(mdp, V, pi, order, 1) == e;
        }
      }
    }
  }

  /** Every terminal state listed in `order` has value 0 in `W`. */
  ghost predicate TerminalsZero<S, M>(mdp: Model<S, M>, order: seq<S>, W: map<S, real>)
  {
    forall g {:trigger W[g]} :: g in order && g in W && mdp.isTerminal(g) ==> W[g] == 0.0
  }

  /** Evaluation leaves every terminal state of `order` at 0, and with a
      threshold of 0 or less it never reports convergence. */
  lemma {:induction false} EvaluateRunBounds<S, M>(mdp: Model<S, M>, V: map<S, real>, pi: map<S, M>, order: seq<S>, delta: real, fuel: nat)
    requires Fits(mdp, V.Keys, pi) && Listed(order, V.Keys)
    ensures var r := EvaluateRun(mdp, V, pi, order, delta, fuel);
      TerminalsZero(mdp, order, r.values) && (delta <= 0.0 ==> !r.converged)
    decreases fuel
  {
    var e := EvalSweep(mdp, V, pi, order);
    EvalSweepBounds(mdp, V, pi, order);
    if e.maxChange < delta || fuel == 0 {
      EvaluateRunStop(mdp, V, pi, order, delta, fuel);
    } else {
      EvaluateRunNext(mdp, V, pi, order, delta, fuel);
      EvaluateRunBounds(mdp, e.values, pi, order, delta, fuel - 1);
    }
  }

  /** The expected returns of the first `n` moves of `g`: the list
      `policyList` that `improvePolicy` fills for one state. */
  function Lookaheads<S(==), M>(mdp: Model<S, M>, V: map<S, real>, g: S, n: nat): (r: seq<real>)
    requires Closed(mdp, V.Keys) && g in V && n <= |mdp.moves(g)|
    ensures |r| == n
  {
    if n == 0 then [] else Lookaheads(mdp, V, g, n - 1) + [Q(mdp, V, g, mdp.moves(g)[n - 1])]
  }

  /** Entry `i` of the list is the expected return of move `i`. */
  lemma {:induction false} LookaheadsAt<S, M>(mdp: Model<S, M>, V: map<S, real>, g: S, n: nat, i: nat)
    requires Closed(mdp, V.Keys) && g in V && n <= |mdp.moves(g)| && i < n
    ensures Lookaheads(mdp, V, g, n)[i] == Q(mdp, V, g, mdp.moves(g)[i])
  {
    if i < n - 1 {
      LookaheadsAt(mdp, V, g, n - 1, i);
    }
  }

  /** `Collections.max` of a non-empty list. */
  function Max(s: seq<real>): real
    requires s != []
  {
    if |s| == 1 then s[0]
    else
      var m := Max(s[..|s| - 1]);
      if s[|s| - 1] > m then s[|s| - 1] else m
  }

  /** The maximum bounds every element and is one of them. */
  lemma {:induction false} MaxBounds(s: seq<real>)
    requires s != []
    ensures forall i :: 0 <= i < |s| ==> s[i] <= Max(s)
    ensures exists i :: 0 <= i < |s| && s[i] == Max(s)
  {
    if |s| > 1 {
      var front := s[..|s| - 1];
      MaxBounds(front);
      assert Max(front) <= Max(s) && s[|s| - 1] <= Max(s);
      forall i | 0 <= i < |s| - 1
        ensures s[i] <= Max(s)
      {
        assert s[i] == front[i];
      }
      var k :| 0 <= k < |front| && front[k] == Max(front);
      if s[|s| - 1] <= Max(front) {
        assert s[k] == Max(s);
      } else {
        assert s[|s| - 1] == Max(s);
      }
    } else {
      assert s[0] == Max(s);
    }
  }

  /** The index of the last element of `s` equal to its maximum: the move
      that survives when `finalMove` is overwritten at every element equal to
      the maximum so far. */
  function LastArgmax(s: seq<real>): (i: nat)
    requires s != []
    ensures i < |s| && s[i] == Max(s)
    ensures forall j :: i < j < |s| ==> s[j] < Max(s)
  {
    if s[|s| - 1] == Max(s) then |s| - 1
    else
      var front := s[..|s| - 1];
      var i := LastArgmax(front);
      assert s[i] == front[i] && Max(s) == Max(front);
      i
  }

  /** The best expected return over all moves of `g`. */
  function BestReturn<S(==), M>(mdp: Model<S, M>, V: map<S, real>, g: S): real
    requires Closed(mdp, V.Keys) && g in V && mdp.moves(g) != []
  {
    Max(Lookaheads(mdp, V, g, |mdp.moves(g)|))
  }

  /** The best return bounds the expected return of every move of `g` and
      is the expected return of one of them. */
  lemma BestReturnBounds<S, M>(mdp: Model<S, M>, V: map<S, real>, g: S)
    requires Closed(mdp, V.Keys) && g in V && mdp.moves(g) != []
    ensures forall j {:trigger mdp.moves(g)[j]} :: 0 <= j < |mdp.moves(g)| ==> Q(mdp, V, g, mdp.moves(g)[j]) <= BestReturn(mdp, V, g)
    ensures exists j {:trigger mdp.moves(g)[j]} :: 0 <= j < |mdp.moves(g)| && Q(mdp, V, g, mdp.moves(g)[j]) == BestReturn(mdp, V, g)
  {
    var ms := mdp.moves(g);
    var qs := Lookaheads(mdp, V, g, |ms|);
    MaxBounds(qs);
    forall j | 0 <= j < |ms|
      ensures Q(mdp, V, g, ms[j]) <= BestReturn(mdp, V, g)
    {
      LookaheadsAt(mdp, V, g, |ms|, j);
    }
    var i :| 0 <= i < |qs| && qs[i] == Max(qs);
    LookaheadsAt(mdp, V, g, |ms|, i);
  }

  /** The last move of `g`, in move order, whose expected return is the best. */
  function BestMoveOf<S(==), M>(mdp: Model<S, M>, V: map<S, real>, g: S): (m: M)
    requires Closed(mdp, V.Keys) && g in V && mdp.moves(g) != []
    ensures m in mdp.moves(g) && Q(mdp, V, g, m) == BestReturn(mdp, V, g)
  {
    var i := LastArgmax(Lookaheads(mdp, V, g, |mdp.moves(g)|));
    LookaheadsAt(mdp, V, g, |mdp.moves(g)|, i);
    mdp.moves(g)[i]
  }

  /** The improvement test of `improvePolicy`: the best lookahead strictly
      exceeds the stored value. */
  function Improves<S(==), M>(mdp: Model<S, M>, V: map<S, real>, g: S): bool
    requires Closed(mdp, V.Keys) && g in V && mdp.moves(g) != []
  {
    BestReturn(mdp, V, g) > V[g]
  }

  /** Some state of the policy passes the improvement test: what
      `improvePolicy` returns. */
  function AnyImproves<S(==), M>(mdp: Model<S, M>, V: map<S, real>, pi: map<S, M>): bool
    requires Closed(mdp, V.Keys) && pi.Keys <= V.Keys && ValidPolicy(mdp, pi)
  {
    exists g {:trigger Improves(mdp, V, g)} :: g in pi && Improves(mdp, V, g)
  }

  /** The entry an improvement step gives `g`: its best move when it passes
      the improvement test, its current move otherwise. */
  function ImprovedMove<S(==), M>(mdp: Model<S, M>, V: map<S, real>, pi: map<S, M>, g: S): (m: M)
    requires Closed(mdp, V.Keys) && pi.Keys <= V.Keys && ValidPolicy(mdp, pi) && g in pi
    ensures m in mdp.moves(g)
  {
    if Improves(mdp, V, g) then BestMoveOf(mdp, V, g) else pi[g]
  }

  /** The policy after one improvement step. */
  function ImprovedPolicy<S(==), M>(mdp: Model<S, M>, V: map<S, real>, pi: map<S, M>): (r: map<S, M>)
    requires Closed(mdp, V.Keys) && pi.Keys <= V.Keys && ValidPolicy(mdp, pi)
    ensures r.Keys == pi.Keys
    ensures ValidPolicy(mdp, r)
  {
    map g | g in pi :: ImprovedMove(mdp, V, pi, g)
  }

  /** A state that fails the improvement test keeps its move. */
  lemma ImprovedPolicyKeeps<S, M>(mdp: Model<S, M>, V: map<S, real>, pi: map<S, M>, g: S)
    requires Closed(mdp, V.Keys) && pi.Keys <= V.Keys && ValidPolicy(mdp, pi) && g in pi
    requires !Improves(mdp, V, g)
    ensures ImprovedPolicy(mdp, V, pi)[g] == pi[g]
  {
    assert ImprovedPolicy(mdp, V, pi)[g] == ImprovedMove(mdp, V, pi, g);
  }

  /** A state that passes the improvement test gets its best move, whose
      expected return strictly exceeds the state's value and is at least that
      of every other move. */
  lemma ImprovedPolicyImproves<S, M>(mdp: Model<S, M>, V: map<S, real>, pi: map<S, M>, g: S)
    requires Closed(mdp, V.Keys) && pi.Keys <= V.Keys && ValidPolicy(mdp, pi) && g in pi
    requires Improves(mdp, V, g)
    ensures var m := ImprovedPolicy(mdp, V, pi)[g];
      && m == BestMoveOf(mdp, V, g)
      && Q(mdp, V, g, m) > V[g]
      && forall j :: 0 <= j < |mdp.moves(g)| ==> Q(mdp, V, g, mdp.moves(g)[j]) <= Q(mdp, V, g, m)
  {
    assert ImprovedPolicy(mdp, V, pi)[g] == ImprovedMove(mdp, V, pi, g);
    BestReturnBounds(mdp, V, g);
  }

  /** An improvement step that reports no change leaves the policy as it was. */
  lemma ImprovedPolicyStable<S, M>(mdp: Model<S, M>, V: map<S, real>, pi: map<S, M>)
    requires Closed(mdp, V.Keys) && pi.Keys <= V.Keys && ValidPolicy(mdp, pi)
    requires !AnyImproves(mdp, V, pi)
    ensures ImprovedPolicy(mdp, V, pi) == pi
  {
    forall g | g in pi
      ensures ImprovedPolicy(mdp, V, pi)[g] == pi[g]
    {
      assert !Improves(mdp, V, g);
      ImprovedPolicyKeeps(mdp, V, pi, g);
    }
  }

  /** The policy and the improvement flag during an improvement step. */
  datatype Improvement<S, M> = Improvement(policy: map<S, M>, improved: bool)

  /** An improvement step that has visited the states of `order`, first to
      last: each state that passes the improvement test gets its best move and
      raises the flag. */
  function ImproveSweep<S(==), M>(mdp: Model<S, M>, V: map<S, real>, pi: map<S, M>, order: seq<S>): (r: Improvement<S, M>)
    requires Closed(mdp, V.Keys) && pi.Keys <= V.Keys && ValidPolicy(mdp, pi) && Listed(order, pi.Keys)
  {
    if order == [] then Improvement(pi, false)
    else
      var r := ImproveSweep(mdp, V, pi, order[..|order| - 1]);
      var g := order[|order| - 1];
      assert pi[g] in mdp.moves(g);
      if Improves(mdp, V, g) then Improvement(r.policy[g := BestMoveOf(mdp, V, g)], true) else r
  }

  /** After visiting `order`, a state of the policy holds its improved move if
      it was visited and its old move otherwise. */
  lemma {:induction false} ImproveSweepAt<S, M>(mdp: Model<S, M>, V: map<S, real>, pi: map<S, M>, order: seq<S>, g: S)
    requires Closed(mdp, V.Keys) && pi.Keys <= V.Keys && ValidPolicy(mdp, pi) && Listed(order, pi.Keys)
    requires g in pi
    ensures var r := ImproveSweep(mdp, V, pi, order);
      g in r.policy && r.policy[g] == if g in order then ImprovedMove(mdp, V, pi, g) else pi[g]
  {
    if order != [] {
      var front, last := order[..|order| - 1], order[|order| - 1];
      assert order == front + [last];
      ImproveSweepAt(mdp, V, pi, front, g);
    }
  }

  /** An improvement step keeps the policy's states and gives each of them
      one of its moves. */
  lemma {:induction false} ImproveSweepValid<S, M>(mdp: Model<S, M>, V: map<S, real>, pi: map<S, M>, order: seq<S>)
    requires Closed(mdp, V.Keys) && pi.Keys <= V.Keys && ValidPolicy(mdp, pi) && Listed(order, pi.Keys)
    ensures var r := ImproveSweep(mdp, V, pi, order).policy;
      r.Keys == pi.Keys && ValidPolicy(mdp, r)
  {
    if order != [] {
      ImproveSweepValid(mdp, V, pi, order[..|order| - 1]);
    }
  }

  /** The flag is raised exactly when some visited state passes the test. */
  lemma {:induction false} ImproveSweepFlag<S, M>(mdp: Model<S, M>, V: map<S, real>, pi: map<S, M>, order: seq<S>)
    requires Closed(mdp, V.Keys) && pi.Keys <= V.Keys && ValidPolicy(mdp, pi) && Listed(order, pi.Keys)
    ensures ImproveSweep(mdp, V, pi, order).improved <==>
      exists g {:trigger Improves(mdp, V, g)} :: g in order && g in pi && Improves(mdp, V, g)
  {
    if order != [] {
      var front, last := order[..|order| - 1], order[|order| - 1];
      assert order == front + [last];
      ImproveSweepFlag(mdp, V, pi, front);
      if ImproveSweep(mdp, V, pi, order).improved && !Improves(mdp, V, last) {
        var g :| g in front && g in pi && Improves(mdp, V, g);
        assert g in order;
      }
    }
  }

  /** Two maps with the same keys that agree at every key are equal. */
  lemma MapsAgree<K, V>(a: map<K, V>, b: map<K, V>)
    requires a.Keys == b.Keys
    requires forall k {:trigger a[k]} :: k in a ==> a[k] == b[k]
    ensures a == b
  {
  }

  /** Visiting every state of the policy yields the improved policy. */
  lemma ImproveSweepPolicy<S, M>(mdp: Model<S, M>, V: map<S, real>, pi: map<S, M>, order: seq<S>)
    requires Closed(mdp, V.Keys) && pi.Keys <= V.Keys && ValidPolicy(mdp, pi) && Enumerates(order, pi.Keys)
    ensures ImproveSweep(mdp, V, pi, order).policy == ImprovedPolicy(mdp, V, pi)
  {
    var a, b := ImproveSweep(mdp, V, pi, order).policy, ImprovedPolicy(mdp, V, pi);
    ImproveSweepValid(mdp, V, pi, order);
    forall g | g in a
      ensures a[g] == b[g]
    {
      assert g in order;
      ImproveSweepAt(mdp, V, pi, order, g);
      assert b[g] == ImprovedMove(mdp, V, pi, g);
    }
    MapsAgree(a, b);
  }

  /** Visiting every state of the policy raises the flag exactly when some
      state of the policy passes the improvement test. */
  lemma ImproveSweepImproved<S, M>(mdp: Model<S, M>, V: map<S, real>, pi: map<S, M>, order: seq<S>)
    requires Closed(mdp, V.Keys) && pi.Keys <= V.Keys && ValidPolicy(mdp, pi) && Enumerates(order, pi.Keys)
    ensures ImproveSweep(mdp, V, pi, order).improved == AnyImproves(mdp, V, pi)
  {
    ImproveSweepFlag(mdp, V, pi, order);
    if AnyImproves(mdp, V, pi) {
      var g :| g in pi && Improves(mdp, V, g);
      assert g in order;
    }
  }

  /** The best move is the last move, in move order, whose expected return
      equals the maximum over all moves of `g`. */
  lemma BestMoveIsLast<S, M>(mdp: Model<S, M>, V: map<S, real>, g: S)
    requires Closed(mdp, V.Keys) && g in V && mdp.moves(g) != []
    ensures exists i {:trigger mdp.moves(g)[i]} ::
      && 0 <= i < |mdp.moves(g)|
      && BestMoveOf(mdp, V, g) == mdp.moves(g)[i]
      && (forall j :: 0 <= j < |mdp.moves(g)| ==> Q(mdp, V, g, mdp.moves(g)[j]) <= Q(mdp, V, g, mdp.moves(g)[i]))
      && (forall j :: i < j < |mdp.moves(g)| ==> Q(mdp, V, g, mdp.moves(g)[j]) < Q(mdp, V, g, mdp.moves(g)[i]))
  {
    var ms := mdp.moves(g);
    var qs := Lookaheads(mdp, V, g, |ms|);
    var i := LastArgmax(qs);
    assert BestMoveOf(mdp, V, g) == ms[i];
    LookaheadsAt(mdp, V, g, |ms|, i);
    MaxBounds(qs);
    forall j | 0 <= j < |ms|
      ensures Q(mdp, V, g, ms[j]) <= Q(mdp, V, g, ms[i])
    {
      LookaheadsAt(mdp, V, g, |ms|, j);
    }
    forall j | i < j < |ms|
      ensures Q(mdp, V, g, ms[j]) < Q(mdp, V, g, ms[i])
    {
      LookaheadsAt(mdp, V, g, |ms|, j);
    }
  }

  /** An improved policy still fits the table: same keys, valid moves. */
  lemma ImprovedPolicyFits<S, M>(mdp: Model<S, M>, V: map<S, real>, pi: map<S, M>)
    requires Fits(mdp, V.Keys, pi)
    ensures Fits(mdp, V.Keys, ImprovedPolicy(mdp, V, pi))
  {
    var r := ImprovedPolicy(mdp, V, pi);
    forall g | g in V.Keys && !mdp.isTerminal(g) && mdp.moves(g) != []
      ensures g in r
    {
      assert g in pi;
    }
  }

  /** What an improvement step over an enumeration of the policy's states
      hands to the next evaluation: a policy that still fits the table and
      has the same states. */
  lemma ImproveSweepReady<S, M>(mdp: Model<S, M>, V: map<S, real>, pi: map<S, M>, order: seq<S>)
    requires Fits(mdp, V.Keys, pi) && Enumerates(order, pi.Keys)
    ensures Listed(order, pi.Keys)
    ensures var im := ImproveSweep(mdp, V, pi, order);
      Fits(mdp, V.Keys, im.policy) && Enumerates(order, im.policy.Keys)
  {
    ImproveSweepPolicy(mdp, V, pi, order);
    ImprovedPolicyFits(mdp, V, pi);
  }

  /** An improvement step over an enumeration of the policy's states that
      reports no change leaves the policy as it was, and then no state of the
      policy passes the improvement test. */
  lemma ImproveSweepStable<S, M>(mdp: Model<S, M>, V: map<S, real>, pi: map<S, M>, order: seq<S>)
    requires Closed(mdp, V.Keys) && pi.Keys <= V.Keys && ValidPolicy(mdp, pi) && Enumerates(order, pi.Keys)
    requires !ImproveSweep(mdp, V, pi, order).improved
    ensures ImproveSweep(mdp, V, pi, order).policy == pi && !AnyImproves(mdp, V, pi)
  {
    ImproveSweepPolicy(mdp, V, pi, order);
    ImproveSweepImproved(mdp, V, pi, order);
    ImprovedPolicyStable(mdp, V, pi);
  }

  /** A policy none of whose states passes the improvement test is greedy
      with respect to the table: no move of a policy state has an expected
      return above the state's value. */
  lemma NoImprovementIsGreedy<S, M>(mdp: Model<S, M>, V: map<S, real>, pi: map<S, M>)
    requires Closed(mdp, V.Keys) && pi.Keys <= V.Keys && ValidPolicy(mdp, pi)
    requires !AnyImproves(mdp, V, pi)
    ensures forall g, j {:trigger mdp.moves(g)[j], pi[g]} :: g in pi && 0 <= j < |mdp.moves(g)| ==>
      Q(mdp, V, g, mdp.moves(g)[j]) <= V[g]
  {
    forall g, j | g in pi && 0 <= j < |mdp.moves(g)|
      ensures Q(mdp, V, g, mdp.moves(g)[j]) <= V[g]
    {
      assert !Improves(mdp, V, g);
      BestReturnBounds(mdp, V, g);
    }
  }

  /** The policy-iteration agent: the value table of the current policy, the
      current policy, the MDP, the convergence threshold, and the policy it
      publishes after training. */
  /** One full cycle of `train` that does not end it: from the table and
      policy `a`, evaluation converges and the improvement step that follows
      reports a change, leaving the table and policy `b`. */
  ghost predicate Cycle<S, M>(mdp: Model<S, M>, valueOrder: seq<S>, policyOrder: seq<S>, delta: real, evalFuel: nat,
                               a: (map<S, real>, map<S, M>), b: (map<S, real>, map<S, M>))
  {
    && Fits(mdp, a.0.Keys, a.1) && Listed(valueOrder, a.0.Keys) && Listed(policyOrder, a.1.Keys)
    && var r := EvaluateRun(mdp, a.0, a.1, valueOrder, delta, evalFuel);
       && r.converged && b.0 == r.values
       && ImproveSweep(mdp, r.values, a.1, policyOrder) == Improvement(b.1, true)
  }

  /** Every entry of `trace` but the last is linked to the next by a `Cycle`. */
  ghost predicate Linked<S, M>(mdp: Model<S, M>, valueOrder: seq<S>, policyOrder: seq<S>, delta: real, evalFuel: nat,
                                trace: seq<(map<S, real>, map<S, M>)>)
  {
    forall c {:trigger Cycle(mdp, valueOrder, policyOrder, delta, evalFuel, trace[c], trace[c + 1])} :: 0 <= c < |trace| - 1 ==>
      Cycle(mdp, valueOrder, policyOrder, delta, evalFuel, trace[c], trace[c + 1])
  }

  /** A cycle from the last entry of a linked trace extends it. */
  lemma LinkedSnoc<S, M>(mdp: Model<S, M>, valueOrder: seq<S>, policyOrder: seq<S>, delta: real, evalFuel: nat,
                         trace: seq<(map<S, real>, map<S, M>)>, next: (map<S, real>, map<S, M>))
    requires Linked(mdp, valueOrder, policyOrder, delta, evalFuel, trace) && trace != []
    requires Cycle(mdp, valueOrder, policyOrder, delta, evalFuel, trace[|trace| - 1], next)
    ensures Linked(mdp, valueOrder, policyOrder, delta, evalFuel, trace + [next])
  {
    var t := trace + [next];
    forall c | 0 <= c < |t| - 1
      ensures Cycle(mdp, valueOrder, policyOrder, delta, evalFuel, t[c], t[c + 1])
    {
      if c < |trace| - 1 {
        assert t[c] == trace[c] && t[c + 1] == trace[c + 1];
      }
    }
  }

  class PolicyIterationAgent<S(==), M(==)> {
    var policyValues: map<S, real>
    var curPolicy: map<S, M>
    var policy: map<S, M>
    const mdp: Model<S, M>
    const delta: real

    /** Every policy entry is a key of the value table and one of its state's moves. */
    ghost predicate Valid()
      reads this
    {
      curPolicy.Keys <= policyValues.Keys && ValidPolicy(mdp, curPolicy)
    }

    constructor (mdp: Model<S, M>)
      ensures Valid()
      ensures this.mdp == mdp && delta == 0.1
      ensures policyValues == map[] && curPolicy == map[] && policy == map[]
    {
      this.mdp := mdp;
      delta := 0.1;
      policyValues := map[];
      curPolicy := map[];
      policy := map[];
    }

    /** Puts every enumerated state into the table with value 0. */
    method InitValues(allGames: seq<S>)
      requires Valid()
      modifies this`policyValues
      ensures Valid()
      ensures policyValues == Zeroed(old(policyValues), allGames)
    {
      var i := 0;
      while i < |allGames|
        invariant 0 <= i <= |allGames|
        invariant policyValues == Zeroed(old(policyValues), allGames[..i])
      {
        assert allGames[..i + 1][..i] == allGames[..i];
        policyValues := policyValues[allGames[i] := 0.0];
        i := i + 1;
      }
      assert allGames[..i] == allGames;
    }

    /** Gives every key that has a move an arbitrarily chosen one of its moves. */
    method InitRandomPolicy(order: seq<S>)
      requires Valid() && Enumerates(order, policyValues.Keys)
      modifies this`curPolicy
      ensures Valid() && Covers(mdp, curPolicy, policyValues.Keys)
      ensures forall g :: g in curPolicy <==> g in old(curPolicy) || (g in policyValues && mdp.moves(g) != [])
      ensures forall g :: g in old(curPolicy) && !(g in policyValues && mdp.moves(g) != []) ==> curPolicy[g] == old(curPolicy)[g]
    {
      assert forall g :: g in policyValues ==> g in order;
      var j := 0;
      while j < |order|
        invariant 0 <= j <= |order|
        invariant Valid()
        invariant forall g :: g in curPolicy <==> g in old(curPolicy) || (g in order[..j] && mdp.moves(g) != [])
        invariant forall g :: g in old(curPolicy) && !(g in order[..j] && mdp.moves(g) != []) ==> curPolicy[g] == old(curPolicy)[g]
      {
        var game := order[j];
        var m := mdp.moves(game);
        if |m| != 0 {
          var number :| 0 <= number < |m|;
          curPolicy := curPolicy[game := m[number]];
        }
        assert order[..j + 1] == order[..j] + [game];
        j := j + 1;
      }
      assert order[..j] == order;
    }

    /** The inner loop of one state's evaluation: `n` rounds of the policy
        move's backup, as `RepeatedBackup` describes. */
    method EvaluateAt(g: S, maxVal: real) returns (maxVal': real)
      requires Fits(mdp, policyValues.Keys, curPolicy) && g in policyValues
      modifies this`policyValues
      ensures Evaluation(policyValues, maxVal') == EvalStep(mdp, curPolicy, Evaluation(old(policyValues), maxVal), g)
    {
      maxVal' := maxVal;
      var currentVal := policyValues[g];
      if mdp.isTerminal(g) {
        policyValues := policyValues[g := 0.0];
        return;
      }
      var ms := mdp.moves(g);
      ghost var V0 := policyValues;
      var i := 0;
      while i < |ms|
        invariant 0 <= i <= |ms|
        invariant ms != [] ==> Evaluation(policyValues, maxVal') == RepeatedBackup(mdp, V0, g, curPolicy[g], i, currentVal, maxVal)
        invariant ms == [] ==> policyValues == V0 && maxVal' == maxVal
      {
        var sum := ExpectedReturn(mdp, policyValues, g, curPolicy[g]);
        var updateVal := Abs(currentVal - sum);
        policyValues := policyValues[g := sum];
        if updateVal > maxVal' {
          maxVal' := updateVal;
        }
        i := i + 1;
      }
    }

    /** One in-place evaluation sweep over `order`; returns its largest change. */
    method EvaluationSweep(order: seq<S>) returns (maxVal: real)
      requires Fits(mdp, policyValues.Keys, curPolicy) && Listed(order, policyValues.Keys)
      modifies this`policyValues
      ensures Evaluation(policyValues, maxVal) == EvalSweep(mdp, old(policyValues), curPolicy, order)
    {
      ghost var V0 := policyValues;
      maxVal := 0.0;
      var j := 0;
      while j < |order|
        invariant 0 <= j <= |order|
        invariant EvalSweep(mdp, V0, curPolicy, order[..j]) == Evaluation(policyValues, maxVal)
      {
        assert order[..j + 1][..j] == order[..j];
        assert EvalSweep(mdp, V0, curPolicy, order[..j + 1]) == EvalStep(mdp, curPolicy, Evaluation(policyValues, maxVal), order[j]);
        maxVal := EvaluateAt(order[j], maxVal);
        j := j + 1;
      }
      assert order[..j] == order;
    }

    /** Sweeps until the largest change of a sweep is below `delta`, giving up
        after `fuel` sweeps beyond the first. */
    method EvaluatePolicy(delta: real, order: seq<S>, fuel: nat) returns (converged: bool)
      requires Listed(order, policyValues.Keys) && Fits(mdp, policyValues.Keys, curPolicy)
      modifies this`policyValues
      ensures Evaluated(policyValues, converged) == EvaluateRun(mdp, old(policyValues), curPolicy, order, delta, fuel)
    {
      ghost var V0, pi := policyValues, curPolicy;
      ghost var start := policyValues;
      var left: nat := fuel;
      var maxVal := EvaluationSweep(order);
      while maxVal >= delta && left > 0
        invariant curPolicy == pi
        invariant start.Keys == V0.Keys && policyValues.Keys == V0.Keys
        invariant EvalSweep(mdp, start, pi, order) == Evaluation(policyValues, maxVal)
        invariant EvaluateRun(mdp, start, pi, order, delta, left) == EvaluateRun(mdp, V0, pi, order, delta, fuel)
        decreases left
      {
        EvaluateRunNext(mdp, start, pi, order, delta, left);
        start := policyValues;
        maxVal := EvaluationSweep(order);
        left := left - 1;
      }
      EvaluateRunStop(mdp, start, pi, order, delta, left);
      converged := maxVal < delta;
    }

    /** One state's lookahead: the best expected return over its moves
        (the maximum of `policyList`) and the last move attaining it. */
    method BestMove(g: S) returns (maxVal: real, finalMove: M)
      requires Closed(mdp, policyValues.Keys) && g in policyValues && mdp.moves(g) != []
      ensures maxVal == BestReturn(mdp, policyValues, g)
      ensures finalMove == BestMoveOf(mdp, policyValues, g)
    {
      var ms := mdp.moves(g);
      var policyList: seq<real> := [];
      var found: Option<M> := None;
      maxVal := 0.0;
      var i := 0;
      while i < |ms|
        invariant 0 <= i <= |ms|
        invariant policyList == Lookaheads(mdp, policyValues, g, i)
        invariant i == 0 ==> found == None
        invariant i > 0 ==> maxVal == Max(policyList) && found == Some(ms[LastArgmax(policyList)])
      {
        var sum := ExpectedReturn(mdp, policyValues, g, ms[i]);
        policyList := policyList + [sum];
        maxVal := Max(policyList);
        assert policyList[..i] == Lookaheads(mdp, policyValues, g, i);
        if maxVal == sum {
          found := Some(ms[i]);
        }
        i := i + 1;
      }
      finalMove := found.value;
    }

    /** One improvement step over the policy's states, in order `order`:
        a state whose best lookahead strictly exceeds its stored value gets
        its best move; reports whether that happened anywhere. What the step
        amounts to, whatever the order, is `ImproveSweepPolicy` and
        `ImproveSweepImproved`. */
    method ImprovePolicy(order: seq<S>) returns (improved: bool)
      requires Listed(order, curPolicy.Keys) && Closed(mdp, policyValues.Keys) && Valid()
      modifies this`curPolicy
      ensures Valid()
      ensures Improvement(curPolicy, improved) == ImproveSweep(mdp, policyValues, old(curPolicy), order)
    {
      ghost var V, pi := policyValues, curPolicy;
      assert Listed(order, pi.Keys);
      improved := false;
      var j := 0;
      while j < |order|
        invariant 0 <= j <= |order| && policyValues == V
        invariant Improvement(curPolicy, improved) == ImproveSweep(mdp, V, pi, order[..j])
      {
        var g := order[j];
        assert order[..j + 1][..j] == order[..j];
        assert pi[g] in mdp.moves(g);
        var maxVal, finalMove := BestMove(g);
        var currentValue := policyValues[g];
        if maxVal > currentValue {
          curPolicy := curPolicy[g := finalMove];
          improved := true;
        }
        j := j + 1;
      }
      assert order[..j] == order;
      ImproveSweepValid(mdp, V, pi, order);
    }

    /** One pass of `train`'s do-while: evaluate the current policy, then,
        if evaluation converged, run the improvement step, whose result is
        the loop condition. */
    method EvaluateAndImprove(valueOrder: seq<S>, policyOrder: seq<S>, evalFuel: nat) returns (converged: bool, improved: bool)
      requires Enumerates(valueOrder, policyValues.Keys) && Enumerates(policyOrder, curPolicy.Keys)
      requires Fits(mdp, policyValues.Keys, curPolicy)
      modifies this`policyValues, this`curPolicy
      ensures policyValues.Keys == old(policyValues).Keys && curPolicy.Keys == old(curPolicy).Keys
      ensures Fits(mdp, policyValues.Keys, curPolicy) && TerminalsZero(mdp, valueOrder, policyValues)
      ensures Evaluated(policyValues, converged) == EvaluateRun(mdp, old(policyValues), old(curPolicy), valueOrder, delta, evalFuel)
      ensures !converged ==> curPolicy == old(curPolicy) && !improved
      ensures converged ==> Improvement(curPolicy, improved) == ImproveSweep(mdp, policyValues, old(curPolicy), policyOrder)
      ensures converged && !improved ==> curPolicy == old(curPolicy) && !AnyImproves(mdp, policyValues, curPolicy)
      ensures improved ==> Cycle(mdp, valueOrder, policyOrder, delta, evalFuel, (old(policyValues), old(curPolicy)), (policyValues, curPolicy))
    {
      ghost var V0, pi0 := policyValues, curPolicy;
      assert Listed(valueOrder, V0.Keys) && Listed(policyOrder, pi0.Keys);
      converged := EvaluatePolicy(delta, valueOrder, evalFuel);
      EvaluateRunBounds(mdp, V0, pi0, valueOrder, delta, evalFuel);
      if !converged {
        return converged, false;
      }
      ImproveSweepReady(mdp, policyValues, pi0, policyOrder);
      improved := ImprovePolicy(policyOrder);
      if !improved {
        ImproveSweepStable(mdp, policyValues, pi0, policyOrder);
      }
    }

    /** Alternates evaluation and improvement until an improvement step
        reports no change, then publishes the current policy. Every
        evaluation is given `evalFuel` sweeps beyond the first, and at most
        `fuel` further cycles are run; when either runs out, training stops
        without publishing. The ghost `trace` holds the table and policy each
        cycle started from: it begins at the old state, consecutive entries
        are linked by a `Cycle`, and its last entry, `lastStart` and
        `lastPolicy`, started the cycle that ended training. */
    method Train(valueOrder: seq<S>, policyOrder: seq<S>, evalFuel: nat, fuel: nat)
      returns (stable: bool, ghost lastStart: map<S, real>, ghost lastPolicy: map<S, M>, ghost lastConverged: bool,
               ghost trace: seq<(map<S, real>, map<S, M>)>)
      requires Enumerates(valueOrder, policyValues.Keys) && Enumerates(policyOrder, curPolicy.Keys)
      requires Fits(mdp, policyValues.Keys, curPolicy)
      modifies this`policyValues, this`curPolicy, this`policy
      ensures policyValues.Keys == old(policyValues).Keys && curPolicy.Keys == old(curPolicy).Keys
      ensures Fits(mdp, policyValues.Keys, curPolicy) && TerminalsZero(mdp, valueOrder, policyValues)
      ensures 1 <= |trace| <= fuel + 1
      ensures trace[0] == (old(policyValues), old(curPolicy)) && trace[|trace| - 1] == (lastStart, lastPolicy)
      ensures Linked(mdp, valueOrder, policyOrder, delta, evalFuel, trace)
      ensures lastStart.Keys == policyValues.Keys && Fits(mdp, lastStart.Keys, lastPolicy) && lastPolicy.Keys == curPolicy.Keys
      ensures Evaluated(policyValues, lastConverged) == EvaluateRun(mdp, lastStart, lastPolicy, valueOrder, delta, evalFuel)
      ensures !lastConverged ==> curPolicy == lastPolicy && !stable
      ensures lastConverged ==> Improvement(curPolicy, !stable) == ImproveSweep(mdp, policyValues, lastPolicy, policyOrder)
      ensures stable ==> curPolicy == lastPolicy && !AnyImproves(mdp, policyValues, curPolicy)
      ensures !stable && lastConverged ==> |trace| == fuel + 1
      ensures policy == if stable then curPolicy else old(policy)
    {
      var left: nat := fuel;
      trace := [(policyValues, curPolicy)];
      while true
        invariant policyValues.Keys == old(policyValues).Keys && curPolicy.Keys == old(curPolicy).Keys
        invariant Fits(mdp, policyValues.Keys, curPolicy)
        invariant policy == old(policy)
        invariant |trace| + left == fuel + 1
        invariant trace[0] == (old(policyValues), old(curPolicy)) && trace[|trace| - 1] == (policyValues, curPolicy)
        invariant Linked(mdp, valueOrder, policyOrder, delta, evalFuel, trace)
        decreases left
      {
        lastStart, lastPolicy := trace[|trace| - 1].0, trace[|trace| - 1].1;
        var converged, improved := EvaluateAndImprove(valueOrder, policyOrder, evalFuel);
        lastConverged := converged;
        if !improved {
          stable := converged;
          if stable {
            policy := curPolicy;
          }
          return;
        }
        if left == 0 {
          return false, lastStart, lastPolicy, lastConverged, trace;
        }
        LinkedSnoc(mdp, valueOrder, policyOrder, delta, evalFuel, trace, (policyValues, curPolicy));
        trace := trace + [(policyValues, curPolicy)];
        left := left - 1;
      }
    }
  }
}
