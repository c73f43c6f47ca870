/**
 The tic-tac-toe MDP as the two solvers see it. The game states (`Game`), the
 moves (`Move`), the terminal test, the move generator and the transition model
 (`TTTMDP.generateTransitions`) are collaborators whose code is not part of this
 model: they are carried as function-valued fields of `Model`, so every lemma
 holds for any game and any transition model that satisfy the stated closure
 condition.
 */
module Mdp {

  datatype Option<T> = None | Some(value: T)

  /** One outcome of taking a move (`TransitionProb`): its probability, the
      immediate reward (`outcome.localReward`) and the next state (`outcome.sPrime`). */
  datatype Transition<S> = Transition(prob: real, reward: real, sPrime: S)

  /** The collaborators both agents consult, and the discount factor. */
  datatype Model<!S, !M> = Model(
    isTerminal: S -> bool,
    moves: S -> seq<M>,
    transitions: (S, M) -> seq<Transition<S>>,
    discount: real)

  /** The key set is closed under one transition step: every successor of a
      key, under any of its moves, is itself a key. The solvers look successors
      up in their value table without a check. */
  ghost predicate Closed<S, M>(mdp: Model<S, M>, keys: set<S>)
  {
    forall g, m, t {:trigger t in mdp.transitions(g, m)} ::
      g in keys && m in mdp.moves(g) && t in mdp.transitions(g, m) ==> t.sPrime in keys
  }

  /** `order` lists every key exactly once (its states are the keys, and it is
      no longer than the key set): the iteration order of a key set. */
  ghost predicate Enumerates<S>(order: seq<S>, keys: set<S>)
  {
    (set g | g in order) == keys && |order| == |keys|
  }

  /** No state of `s` occurs twice. */
  ghost predicate Distinct<S>(s: seq<S>)
    decreases |s|
  {
    s == [] || (s[|s| - 1] !in s[..|s| - 1] && Distinct(s[..|s| - 1]))
  }

  /** A sequence has at most as many distinct states as entries, and exactly
      as many only when no state occurs twice. */
  lemma {:induction false} DistinctByCount<S>(s: seq<S>)
    ensures |set g | g in s| <= |s|
    ensures |set g | g in s| == |s| ==> Distinct(s)
    decreases |s|
  {
    if s != [] {
      var front, last := s[..|s| - 1], s[|s| - 1];
      assert s == front + [last];
      assert (set g | g in s) == (set g | g in front) + {last};
      DistinctByCount(front);
    }
  }

  /** An iteration order of a key set lists no state twice. */
  lemma EnumeratesDistinct<S>(order: seq<S>, keys: set<S>)
    requires Enumerates(order, keys)
    ensures Distinct(order)
  {
    DistinctByCount(order);
  }

  /** In a sequence without repeats, different positions hold different states. */
  lemma {:induction false} DistinctAt<S>(s: seq<S>, a: nat, b: nat)
    requires Distinct(s) && a < b < |s|
    ensures s[a] != s[b]
    decreases |s|
  {
    var front := s[..|s| - 1];
    if b < |s| - 1 {
      DistinctAt(front, a, b);
    } else {
      assert s[a] == front[a];
    }
  }

  /** The table `V` with every state of `games` set to 0, in the order listed. */
  function Zeroed<S(==)>(V: map<S, real>, games: seq<S>): (r: map<S, real>)
    ensures r.Keys == V.Keys + (set g | g in games)
    ensures forall g {:trigger r[g]} :: g in games ==> r[g] == 0.0
    ensures forall g {:trigger r[g]} :: g in V && g !in games ==> r[g] == V[g]
  {
    if games == [] then V
    else
      var front := games[..|games| - 1];
      assert games == front + [games[|games| - 1]];
      Zeroed(V, front)[games[|games| - 1] := 0.0]
  }

  /** Sum over the transitions, first to last, of prob * (reward + gamma * V(s')). */
  function Lookahead<S(==)>(trs: seq<Transition<S>>, gamma: real, V: map<S, real>): real
    requires forall t :: t in trs ==> t.sPrime in V
  {
    if trs == [] then 0.0
    else
      var t := trs[|trs| - 1];
      Lookahead(trs[..|trs| - 1], gamma, V) + t.prob * (t.reward + gamma * V[t.sPrime])
  }

  /** The expected return of move `m` in state `g` under the value table `V`. */
  function Q<S(==), M>(mdp: Model<S, M>, V: map<S, real>, g: S, m: M): real
    requires forall t :: t in mdp.transitions(g, m) ==> t.sPrime in V
  {
    Lookahead(mdp.transitions(g, m), mdp.discount, V)
  }

  /** The lookahead reads the table only at the successors: two tables that
      agree there give the same sum. */
  lemma {:induction false} LookaheadFrame<S>(trs: seq<Transition<S>>, gamma: real, V: map<S, real>, W: map<S, real>)
    requires forall t :: t in trs ==> t.sPrime in V && t.sPrime in W && V[t.sPrime] == W[t.sPrime]
    ensures Lookahead(trs, gamma, V) == Lookahead(trs, gamma, W)
  {
    if trs != [] {
      LookaheadFrame(trs[..|trs| - 1], gamma, V, W);
    }
  }

  /** The innermost loop of both agents: accumulate the expected return of
      move `m` in state `g`, one transition at a time. */
  method ExpectedReturn<S(==), M>(mdp: Model<S, M>, V: map<S, real>, g: S, m: M) returns (sum: real)
    requires forall t :: t in mdp.transitions(g, m) ==> t.sPrime in V
    ensures sum == Q(mdp, V, g, m)
  {
    var trs := mdp.transitions(g, m);
    sum := 0.0;
    var i := 0;
    while i < |trs|
      invariant 0 <= i <= |trs|
      invariant sum == Lookahead(trs[..i], mdp.discount, V)
    {
      var t := trs[i];
      assert trs[..i + 1][..i] == trs[..i];
      sum := sum + t.prob * (t.reward + mdp.discount * V[t.sPrime]);
      i := i + 1;
    }
    assert trs[..i] == trs;
  }
}
