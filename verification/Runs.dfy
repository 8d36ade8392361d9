/** Runs of a state machine, over any states and actions. */
module Runs {

  datatype Machine<!S, !A> = Machine(enabled: (S, A) -> bool, step: (S, A) -> S)

  ghost function After<S, A>(m: Machine<S, A>, s: S, actions: seq<A>): S {
    if actions == [] then s
    else m.step(After(m, s, actions[..|actions| - 1]), actions[|actions| - 1])
  }

  /** Every action is enabled when its turn comes. */
  ghost predicate IsRun<S, A>(m: Machine<S, A>, s: S, actions: seq<A>) {
    actions == []
    || (IsRun(m, s, actions[..|actions| - 1])
        && m.enabled(After(m, s, actions[..|actions| - 1]), actions[|actions| - 1]))
  }

  lemma {:induction false} RunPrefix<S, A>(m: Machine<S, A>, s: S, actions: seq<A>, n: nat)
    requires n <= |actions| && IsRun(m, s, actions)
    ensures IsRun(m, s, actions[..n])
    decreases |actions|
  {
    if n < |actions| {
      assert actions[..|actions| - 1][..n] == actions[..n];
      RunPrefix(m, s, actions[..|actions| - 1], n);
    } else {
      assert actions[..n] == actions;
    }
  }

  lemma RunGrows<S, A>(m: Machine<S, A>, s: S, actions: seq<A>, a: A)
    requires IsRun(m, s, actions) && m.enabled(After(m, s, actions), a)
    ensures IsRun(m, s, actions + [a])
    ensures After(m, s, actions + [a]) == m.step(After(m, s, actions), a)
  {
    assert (actions + [a])[..|actions|] == actions;
  }

  lemma {:induction false} AfterSplits<S, A>(m: Machine<S, A>, s: S, actions: seq<A>, i: nat)
    requires i <= |actions|
    ensures After(m, s, actions) == After(m, After(m, s, actions[..i]), actions[i..])
    decreases |actions|
  {
    if i == |actions| {
      assert actions[..i] == actions;
    } else {
      var front := actions[..|actions| - 1];
      AfterSplits(m, s, front, i);
      assert front[..i] == actions[..i];
      assert actions[i..][..|actions[i..]| - 1] == front[i..];
    }
  }

  /** A run is a run up to any point followed by a run from there. */
  lemma {:induction false} RunSplits<S, A>(m: Machine<S, A>, s: S, actions: seq<A>, i: nat)
    requires i <= |actions| && IsRun(m, s, actions)
    ensures IsRun(m, s, actions[..i])
    ensures IsRun(m, After(m, s, actions[..i]), actions[i..])
    ensures After(m, s, actions) == After(m, After(m, s, actions[..i]), actions[i..])
    decreases |actions|
  {
    RunPrefix(m, s, actions, i);
    AfterSplits(m, s, actions, i);
    if i < |actions| {
      var front := actions[..|actions| - 1];
      RunSplits(m, s, front, i);
      assert front[..i] == actions[..i];
      assert actions[i..][..|actions[i..]| - 1] == front[i..];
    }
  }

  ghost predicate Inductive<S(!new), A(!new)>(m: Machine<S, A>, inv: S -> bool) {
    forall s, a :: inv(s) && m.enabled(s, a) ==> inv(m.step(s, a))
  }

  /** What every step keeps, every run keeps. */
  lemma {:induction false} RunKeeps<S(!new), A(!new)>(m: Machine<S, A>, inv: S -> bool, s: S, actions: seq<A>)
    requires Inductive(m, inv)
    requires inv(s) && IsRun(m, s, actions)
    ensures inv(After(m, s, actions))
    decreases |actions|
  {
    if actions != [] {
      RunKeeps(m, inv, s, actions[..|actions| - 1]);
    }
  }

  ghost predicate Preorder<S(!new)>(rel: (S, S) -> bool) {
    && (forall s :: rel(s, s))
    && forall s, t, u :: rel(s, t) && rel(t, u) ==> rel(s, u)
  }

  /** Every step moves along the relation. */
  ghost predicate MovesAlong<S(!new), A(!new)>(m: Machine<S, A>, inv: S -> bool, rel: (S, S) -> bool) {
    forall s, a :: inv(s) && m.enabled(s, a) ==> rel(s, m.step(s, a))
  }

  lemma {:induction false} RunMovesAlong<S(!new), A(!new)>(m: Machine<S, A>, inv: S -> bool, rel: (S, S) -> bool, s: S,
                                                           actions: seq<A>)
    requires Inductive(m, inv) && Preorder(rel) && MovesAlong(m, inv, rel)
    requires inv(s) && IsRun(m, s, actions)
    ensures rel(s, After(m, s, actions))
    decreases |actions|
  {
    if actions != [] {
      RunMovesAlong(m, inv, rel, s, actions[..|actions| - 1]);
      RunKeeps(m, inv, s, actions[..|actions| - 1]);
    }
  }

  /** Certain actions raise the rank and the others leave it alone. */
  ghost predicate Ranks<S(!new), A(!new)>(m: Machine<S, A>, inv: S -> bool, rank: S -> int, moves: A -> bool) {
    forall s, a :: inv(s) && m.enabled(s, a)
      ==> rank(s) <= rank(m.step(s, a)) && (rank(s) == rank(m.step(s, a)) <==> !moves(a))
  }

  ghost predicate NoneMoves<A>(moves: A -> bool, actions: seq<A>) {
    forall i :: 0 <= i < |actions| ==> !moves(actions[i])
  }

  /** The rank is the same at both ends of a run exactly when none of those actions took place. */
  lemma {:induction false} RankTellsMoves<S(!new), A(!new)>(m: Machine<S, A>, inv: S -> bool, rank: S -> int, moves: A -> bool,
                                                            s: S, actions: seq<A>)
    requires Inductive(m, inv) && Ranks(m, inv, rank, moves)
    requires inv(s) && IsRun(m, s, actions)
    ensures rank(s) <= rank(After(m, s, actions))
    ensures rank(s) == rank(After(m, s, actions)) <==> NoneMoves(moves, actions)
    decreases |actions|
  {
    if actions != [] {
      var front := actions[..|actions| - 1];
      RankTellsMoves(m, inv, rank, moves, s, front);
      RunKeeps(m, inv, s, front);
      assert NoneMoves(moves, actions) <==> NoneMoves(moves, front) && !moves(actions[|front|]);
    }
  }
}
