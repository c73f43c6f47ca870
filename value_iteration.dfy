/**
 Value iteration: `k` in-place Bellman-optimality sweeps over the value table,
 then a greedy policy read off the table. The functions below say what one
 sweep and one extraction compute; the class `ValueIterationAgent` performs
 them in place and is proved to agree with them.
 */
module ValueIteration {
  import opened Mdp

  /** The starting point of the running maximum in a sweep: a state with no
      move, or whose every move looks worse, gets this value. */
  const NoMoveValue: real := -999999.0

  /** The running maximum over the first `n` moves of `g`, started at
      NoMoveValue and raised whenever a move's expected return is larger. */
  function BestLookahead<S(==), M>(mdp: Model<S, M>, V: map<S, real>, g: S, n: nat): (r: real)
    requires Closed(mdp, V.Keys) && g in V && n <= |mdp.moves(g)|
    ensures r >= NoMoveValue
    ensures forall i :: 0 <= i < n ==> r >= Q(mdp, V, g, mdp.moves(g)[i])
    ensures r == NoMoveValue || exists i :: 0 <= i < n && r == Q(mdp, V, g, mdp.moves(g)[i])
  {
    if n == 0 then NoMoveValue
    else
      var best := BestLookahead(mdp, V, g, n - 1);
      var sum := Q(mdp, V, g, mdp.moves(g)[n - 1]);
      if sum > best then sum else best
  }

  /** The new value of `g` in a sweep: terminal states are pinned to 0, every
      other state gets the best expected return over its moves. */
  function Backup<S(==), M>(mdp: Model<S, M>, V: map<S, real>, g: S): real
    requires Closed(mdp, V.Keys) && g in V
  {
    if mdp.isTerminal(g) then 0.0 else BestLookahead(mdp, V, g, |mdp.moves(g)|)
  }

  /** One in-place sweep: the states of `order` are backed up one after the
      other, each reading the table as the earlier ones left it. */
  function Sweep<S(==), M>(mdp: Model<S, M>, V: map<S, real>, order: seq<S>): (r: map<S, real>)
    requires Closed(mdp, V.Keys) && forall g :: g in order ==> g in V
    ensures r.Keys == V.Keys
    ensures forall g :: g in V && g !in order ==> r[g] == V[g]
    ensures forall g :: g in order && mdp.isTerminal(g) ==> r[g] == 0.0
  {
    if order == [] then V
    else
      var front, g := order[..|order| - 1], order[|order| - 1];
      assert order == front + [g];
      var W := Sweep(mdp, V, front);
      W[g := Backup(mdp, W, g)]
  }

  /** `n` sweeps in the same order. */
  function Sweeps<S(==), M>(mdp: Model<S, M>, V: map<S, real>, order: seq<S>, n: nat): (r: map<S, real>)
    requires Closed(mdp, V.Keys) && forall g :: g in order ==> g in V
    ensures r.Keys == V.Keys
    ensures n > 0 ==> forall g :: g in order && mdp.isTerminal(g) ==> r[g] == 0.0
  {
    if n == 0 then V else Sweep(mdp, Sweeps(mdp, V, order, n - 1), order)
  }

  /** In a sweep over distinct states, the value written for the `i`-th state
      is its backup from the table as the first `i` states left it, and no
      later step touches it. */
  lemma {:induction false} SweepAt<S, M>(mdp: Model<S, M>, V: map<S, real>, order: seq<S>, i: nat)
    requires Closed(mdp, V.Keys) && forall g :: g in order ==> g in V
    requires Distinct(order)
    requires i < |order|
    ensures Sweep(mdp, V, order)[order[i]] == Backup(mdp, Sweep(mdp, V, order[..i]), order[i])
  {
    var front, last := order[..|order| - 1], order[|order| - 1];
    assert order == front + [last];
    assert Distinct(front) && last !in front;
    var W := Sweep(mdp, V, front);
    assert Sweep(mdp, V, order) == W[last := Backup(mdp, W, last)];
    if i < |order| - 1 {
      SweepAt(mdp, V, front, i);
      assert front[..i] == order[..i] && order[i] == front[i] && front[i] in front;
    } else {
      assert order[..i] == front;
    }
  }

  /** What a sweep gives a non-terminal state: at least the expected return
      of each of its moves, and either exactly one of them or NoMoveValue,
      all read from the table as it stood when the sweep reached the state;
      a state without moves gets NoMoveValue. */
  lemma SweepNonTerminal<S, M>(mdp: Model<S, M>, V: map<S, real>, order: seq<S>, i: nat)
    requires Closed(mdp, V.Keys) && forall g :: g in order ==> g in V
    requires Distinct(order)
    requires i < |order| && !mdp.isTerminal(order[i])
    ensures
      var g, W := order[i], Sweep(mdp, V, order[..i]);
      var r := Sweep(mdp, V, order)[g];
      && r >= NoMoveValue
      && (forall j :: 0 <= j < |mdp.moves(g)| ==> r >= Q(mdp, W, g, mdp.moves(g)[j]))
      && (r == NoMoveValue || exists j :: 0 <= j < |mdp.moves(g)| && r == Q(mdp, W, g, mdp.moves(g)[j]))
      && (mdp.moves(g) == [] ==> r == NoMoveValue)
  {
    SweepAt(mdp, V, order, i);
  }

  /** The index of the last of the first `n` moves of `g` whose expected
      return equals `target` exactly, if there is one. */
  function LastMatch<S(==), M>(mdp: Model<S, M>, V: map<S, real>, g: S, target: real, n: nat): (r: Option<nat>)
    requires Closed(mdp, V.Keys) && g in V && n <= |mdp.moves(g)|
    ensures r.Some? ==> r.value < n && Q(mdp, V, g, mdp.moves(g)[r.value]) == target
    ensures r.Some? ==> forall j :: r.value < j < n ==> Q(mdp, V, g, mdp.moves(g)[j]) != target
    ensures r.None? <==> forall j :: 0 <= j < n ==> Q(mdp, V, g, mdp.moves(g)[j]) != target
  {
    if n == 0 then None
    else if Q(mdp, V, g, mdp.moves(g)[n - 1]) == target then Some(n - 1)
    else LastMatch(mdp, V, g, target, n - 1)
  }

  /** The value table and the policy `extractPolicy` leaves behind. */
  datatype Extraction<S, M> = Extraction(values: map<S, real>, policy: map<S, M>)

  /** Policy extraction over `order`: a terminal state is re-pinned to 0 and
      gets no entry; any other state maps to the last of its moves whose
      expected return equals its stored value, and gets no entry if none does. */
  function Extract<S(==), M>(mdp: Model<S, M>, V: map<S, real>, order: seq<S>): (r: Extraction<S, M>)
    requires Closed(mdp, V.Keys) && forall g :: g in order ==> g in V
    ensures r.values.Keys == V.Keys
    ensures forall g :: g in V ==> r.values[g] == if g in order && mdp.isTerminal(g) then 0.0 else V[g]
    ensures forall g :: g in r.policy ==> g in order && !mdp.isTerminal(g) && r.policy[g] in mdp.moves(g)
  {
    if order == [] then Extraction(V, map[])
    else
      var front, g := order[..|order| - 1], order[|order| - 1];
      assert order == front + [g];
      ExtractStep(mdp, Extract(mdp, V, front), g)
  }

  /** What extraction does at one state `g`. */
  function ExtractStep<S(==), M>(mdp: Model<S, M>, e: Extraction<S, M>, g: S): Extraction<S, M>
    requires Closed(mdp, e.values.Keys) && g in e.values
  {
    if mdp.isTerminal(g) then Extraction(e.values[g := 0.0], e.policy)
    else
      match LastMatch(mdp, e.values, g, e.values[g], |mdp.moves(g)|)
      case None => e
      case Some(i) => Extraction(e.values, e.policy[g := mdp.moves(g)[i]])
  }

  /** On a table whose terminal states already hold 0, extraction leaves the
      table as it is, and a state has a policy entry exactly when it is a
      non-terminal state of `order` with a move whose expected return equals
      its value; the entry is the last such move. */
  lemma {:induction false} ExtractPinned<S, M>(mdp: Model<S, M>, V: map<S, real>, order: seq<S>)
    requires Closed(mdp, V.Keys) && forall g :: g in order ==> g in V
    requires forall g :: g in order && mdp.isTerminal(g) ==> V[g] == 0.0
    ensures Extract(mdp, V, order).values == V
    ensures forall g :: g in Extract(mdp, V, order).policy <==>
      g in order && !mdp.isTerminal(g) && LastMatch(mdp, V, g, V[g], |mdp.moves(g)|).Some?
    ensures forall g :: g in Extract(mdp, V, order).policy ==>
      Extract(mdp, V, order).policy[g] == mdp.moves(g)[LastMatch(mdp, V, g, V[g], |mdp.moves(g)|).value]
  {
    if order != [] {
      var front, g := order[..|order| - 1], order[|order| - 1];
      assert order == front + [g];
      ExtractPinned(mdp, V, front);
      var e := Extract(mdp, V, front);
      assert Extract(mdp, V, order) == ExtractStep(mdp, e, g);
      if mdp.isTerminal(g) {
        assert e.values[g := 0.0] == V;
      }
    }
  }

  /** From the first extraction's table on, extraction changes no value; on
      a table whose terminal states already hold 0, extracting from the
      extracted table gives the same table and the same policy again. */
  lemma ExtractIdempotent<S, M>(mdp: Model<S, M>, V: map<S, real>, order: seq<S>)
    requires Closed(mdp, V.Keys) && forall g :: g in order ==> g in V
    ensures
      var first := Extract(mdp, V, order);
      && Extract(mdp, first.values, order).values == first.values
      && ((forall g :: g in order && mdp.isTerminal(g) ==> V[g] == 0.0) ==> Extract(mdp, first.values, order) == first)
  {
    var first := Extract(mdp, V, order);
    ExtractPinned(mdp, first.values, order);
    if forall g :: g in order && mdp.isTerminal(g) ==> V[g] == 0.0 {
      ExtractPinned(mdp, V, order);
    }
  }

  /** After at least one sweep, the extracted policy is consistent with the
      table: extraction changes no value, and every entry maps a non-terminal
      state to one of its moves whose expected return equals the state's value. */
  lemma TrainedPolicyConsistent<S, M>(mdp: Model<S, M>, V: map<S, real>, order: seq<S>, k: nat)
    requires Closed(mdp, V.Keys) && Enumerates(order, V.Keys) && k > 0
    ensures
      var W := Sweeps(mdp, V, order, k);
      var e := Extract(mdp, W, order);
      && e.values == W
      && forall g :: g in e.policy ==>
           && g in W && !mdp.isTerminal(g) && e.policy[g] in mdp.moves(g)
           && Q(mdp, W, g, e.policy[g]) == W[g]
  {
    var W := Sweeps(mdp, V, order, k);
    ExtractPinned(mdp, W, order);
  }

  /** The value-iteration agent: the value table, the number of sweeps, the
      MDP, and the policy it publishes after training. */
  class ValueIterationAgent<S(==), M(==)> {
    var valueFunction: map<S, real>
    var policy: map<S, M>
    const mdp: Model<S, M>
    const k: nat

    constructor (mdp: Model<S, M>, k: nat)
      ensures this.mdp == mdp && this.k == k
      ensures valueFunction == map[] && policy == map[]
    {
      this.mdp := mdp;
      this.k := k;
      valueFunction := map[];
      policy := map[];
    }

    /** Puts every enumerated state into the table with value 0. */
    method InitValues(allGames: seq<S>)
      modifies this`valueFunction
      ensures valueFunction == Zeroed(old(valueFunction), allGames)
    {
      var i := 0;
      while i < |allGames|
        invariant 0 <= i <= |allGames|
        invariant valueFunction == Zeroed(old(valueFunction), allGames[..i])
      {
        assert allGames[..i + 1][..i] == allGames[..i];
        valueFunction := valueFunction[allGames[i] := 0.0];
        i := i + 1;
      }
      assert allGames[..i] == allGames;
    }

    /** The running maximum of one state's update, read from the current table. */
    method MaxLookahead(g: S) returns (maxVal: real)
      requires Closed(mdp, valueFunction.Keys) && g in valueFunction
      ensures maxVal == BestLookahead(mdp, valueFunction, g, |mdp.moves(g)|)
    {
      var ms := mdp.moves(g);
      maxVal := NoMoveValue;
      var i := 0;
      while i < |ms|
        invariant 0 <= i <= |ms|
        invariant maxVal == BestLookahead(mdp, valueFunction, g, i)
      {
        var sum := ExpectedReturn(mdp, valueFunction, g, ms[i]);
        assert BestLookahead(mdp, valueFunction, g, i + 1) == if sum > maxVal then sum else maxVal;
        if sum > maxVal {
          maxVal := sum;
        }
        i := i + 1;
      }
    }

    /** One in-place sweep over the table, in key order `order`. */
    method SweepInPlace(order: seq<S>)
      requires forall g :: g in order ==> g in valueFunction
      requires Closed(mdp, valueFunction.Keys)
      modifies this`valueFunction
      ensures valueFunction == Sweep(mdp, old(valueFunction), order)
    {
      ghost var start := valueFunction;
      var j := 0;
      while j < |order|
        invariant 0 <= j <= |order|
        invariant valueFunction == Sweep(mdp, start, order[..j])
      {
        var g := order[j];
        assert order[..j + 1] == order[..j] + [g];
        if mdp.isTerminal(g) {
          valueFunction := valueFunction[g := 0.0];
        } else {
          var maxVal := MaxLookahead(g);
          valueFunction := valueFunction[g := maxVal];
        }
        j := j + 1;
      }
      assert order[..j] == order;
    }

    /** Exactly `k` in-place sweeps over the table, in key order `order`. */
    method Iterate(order: seq<S>)
      requires Enumerates(order, valueFunction.Keys)
      requires Closed(mdp, valueFunction.Keys)
      modifies this`valueFunction
      ensures valueFunction == Sweeps(mdp, old(valueFunction), order, k)
    {
      ghost var V0 := valueFunction;
      assert forall g :: g in order ==> g in V0;
      var i := 0;
      while i < k
        invariant 0 <= i <= k
        invariant valueFunction.Keys == V0.Keys
        invariant valueFunction == Sweeps(mdp, V0, order, i)
      {
        ghost var W := valueFunction;
        SweepInPlace(order);
        assert valueFunction == Sweep(mdp, W, order);
        i := i + 1;
      }
    }

    /** The last move of `g` whose expected return equals `target`: the move
        that survives the repeated `put`s of one state's extraction. */
    method MatchingMove(g: S, target: real) returns (found: Option<nat>)
      requires Closed(mdp, valueFunction.Keys) && g in valueFunction
      ensures found == LastMatch(mdp, valueFunction, g, target, |mdp.moves(g)|)
    {
      var ms := mdp.moves(g);
      found := None;
      var i := 0;
      while i < |ms|
        invariant 0 <= i <= |ms|
        invariant found == LastMatch(mdp, valueFunction, g, target, i)
      {
        var sum := ExpectedReturn(mdp, valueFunction, g, ms[i]);
        if sum == target {
          found := Some(i);
        }
        i := i + 1;
      }
    }

    /** One state of the extraction loop: re-pin a terminal state, or record
        the matching move of a non-terminal one in the policy being built. */
    method ExtractAt(g: S, p: map<S, M>) returns (p': map<S, M>)
      requires Closed(mdp, valueFunction.Keys) && g in valueFunction
      modifies this`valueFunction
      ensures Extraction(valueFunction, p') == ExtractStep(mdp, Extraction(old(valueFunction), p), g)
    {
      p' := p;
      if mdp.isTerminal(g) {
        valueFunction := valueFunction[g := 0.0];
      } else {
        var found := MatchingMove(g, valueFunction[g]);
        if found.Some? {
          p' := p[g := mdp.moves(g)[found.value]];
        }
      }
    }

    /** Builds a fresh policy from the table, re-pinning terminal states. */
    method ExtractPolicy(order: seq<S>) returns (p: map<S, M>)
      requires Enumerates(order, valueFunction.Keys)
      requires Closed(mdp, valueFunction.Keys)
      modifies this`valueFunction
      ensures valueFunction == Extract(mdp, old(valueFunction), order).values
      ensures p == Extract(mdp, old(valueFunction), order).policy
    {
      ghost var V0 := valueFunction;
      assert forall g :: g in order ==> g in V0;
      p := map[];
      var j := 0;
      while j < |order|
        invariant 0 <= j <= |order|
        invariant Extract(mdp, V0, order[..j]) == Extraction(valueFunction, p)
      {
        assert order[..j + 1][..j] == order[..j];
        assert Extract(mdp, V0, order[..j + 1]) == ExtractStep(mdp, Extraction(valueFunction, p), order[j]);
        p := ExtractAt(order[j], p);
        j := j + 1;
      }
      assert order[..j] == order;
    }

    /** Runs the sweeps, then publishes the extracted policy. */
    method Train(order: seq<S>)
      requires Enumerates(order, valueFunction.Keys)
      requires Closed(mdp, valueFunction.Keys)
      modifies this`valueFunction, this`policy
      ensures valueFunction == Extract(mdp, Sweeps(mdp, old(valueFunction), order, k), order).values
      ensures policy == Extract(mdp, Sweeps(mdp, old(valueFunction), order, k), order).policy
    {
      Iterate(order);
      policy := ExtractPolicy(order);
    }
  }
}
