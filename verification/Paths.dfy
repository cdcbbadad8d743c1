/** Sequences of states in which every two neighbours are related by a step. */
module Paths {

  ghost predicate Path<S>(path: seq<S>, step: (S, S) -> bool) {
    |path| > 0 && forall i | 0 < i < |path| :: step(path[i - 1], path[i])
  }

  lemma ExtendPath<S>(path: seq<S>, step: (S, S) -> bool, t: S)
    requires Path(path, step) && step(path[|path| - 1], t)
    ensures Path(path + [t], step)
  {
    var q := path + [t];
    forall i | 0 < i < |q| ensures step(q[i - 1], q[i]) {
      if i < |path| { assert step(path[i - 1], path[i]); }
    }
  }

  /** What every step keeps holds along the path. */
  lemma {:induction false} PathKeeps<S(!new)>(path: seq<S>, step: (S, S) -> bool, inv: S -> bool, i: nat)
    requires Path(path, step) && i < |path| && inv(path[0])
    requires forall s, t | inv(s) && step(s, t) :: inv(t)
    ensures inv(path[i])
  {
    if i > 0 {
      PathKeeps(path, step, inv, i - 1);
    }
  }
}
