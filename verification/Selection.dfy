/** Choosing places of a list: all of a kind, in order, none left out. */
module Selection {

  /** `at` lists, in order, exactly the places below `n` that `chosen` holds of. */
  ghost predicate Selects(at: seq<nat>, n: nat, chosen: nat -> bool) {
    && (forall k, l | 0 <= k < l < |at| :: at[k] < at[l])
    && (forall k | 0 <= k < |at| :: at[k] < n && chosen(at[k]))
    && (forall i: nat | i < n && chosen(i) :: i in at)
  }

  /** One more place, when the list it is taken from has grown by one. */
  lemma {:induction false} SelectsLast(at: seq<nat>, n: nat, before: nat -> bool, chosen: nat -> bool)
    requires Selects(at, n, before) && forall i: nat | i < n :: before(i) == chosen(i)
    ensures Selects(at + (if chosen(n) then [n] else []), n + 1, chosen)
  {
    var next := at + (if chosen(n) then [n] else []);
    assert forall i | i in at :: i in next;
    if chosen(n) {
      assert next[|at|] == n;
    }
  }

  /** `out` says, one by one, what `says` relates to the items at `at`. */
  ghost predicate Tells<T, U>(out: seq<U>, items: seq<T>, at: seq<nat>, says: (U, T) -> bool) {
    |out| == |at| && forall k | 0 <= k < |at| :: at[k] < |items| && says(out[k], items[at[k]])
  }

  lemma {:induction false} TellsLast<T, U>(before: seq<U>, out: seq<U>, items: seq<T>, at: seq<nat>,
                                           says: (U, T) -> bool, more: bool)
    requires items != [] && Tells(before, items[..|items| - 1], at, says)
    requires if more then out != [] && out[..|out| - 1] == before && says(out[|out| - 1], items[|items| - 1])
             else out == before
    ensures Tells(out, items, at + (if more then [|items| - 1] else []), says)
  {
    assert more ==> forall k | 0 <= k < |before| :: out[k] == before[k];
  }
}
