/** Reachability along a finitely branching relation. */
module Reachability {

  /** `path` leads from `root` to `x`, each element a successor of the one before. */
  ghost predicate IsPath<T>(succ: T -> set<T>, root: T, path: seq<T>, x: T) {
    && path != [] && path[0] == root && path[|path| - 1] == x
    && forall i | 0 <= i < |path| - 1 :: path[i + 1] in succ(path[i])
  }

  ghost predicate Reachable<T(!new)>(succ: T -> set<T>, root: T, x: T) {
    exists path :: IsPath(succ, root, path, x)
  }

  lemma {:induction false} RootReachable<T(!new)>(succ: T -> set<T>, root: T)
    ensures Reachable(succ, root, root)
  {
    assert IsPath(succ, root, [root], root);
  }

  lemma {:induction false} StepReachable<T(!new)>(succ: T -> set<T>, root: T, x: T, y: T)
    requires Reachable(succ, root, x) && y in succ(x)
    ensures Reachable(succ, root, y)
  {
    var path :| IsPath(succ, root, path, x);
    assert IsPath(succ, root, path + [y], y);
  }

  ghost predicate Closed<T>(succ: T -> set<T>, s: set<T>) {
    forall x | x in s :: succ(x) <= s
  }

  /** A set that holds the root and is closed under successors holds everything reachable. */
  lemma {:induction false} ClosedHoldsReachable<T(!new)>(succ: T -> set<T>, root: T, s: set<T>, x: T)
    requires Closed(succ, s) && root in s && Reachable(succ, root, x)
    ensures x in s
  {
    var path :| IsPath(succ, root, path, x);
    var i := 0;
    while i < |path| - 1
      invariant 0 <= i < |path| && path[i] in s
    {
      assert path[i + 1] in succ(path[i]);
      i := i + 1;
    }
  }
}
