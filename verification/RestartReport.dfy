/** What a probe's report says of its attempts, told by their positions. */
module RestartReport {
  import opened Wrappers
  import opened Selection
  import opened RestartProbe

  predicate Answers200(t: Tick) {
    t.attempt.status.Some? && t.attempt.status.value == 200
  }

  /** The kind of error of an attempt, "ok" if it has none. */
  function KindOf(t: Tick): string {
    match t.attempt.errorKind
    case Some(kind) => kind
    case None => "ok"
  }

  predicate Fails(t: Tick) {
    t.attempt.errorKind.Some? && t.attempt.errorKind.value != ""
  }

  /** The first attempt, or one whose status or kind of error is not that of the attempt before. */
  predicate Changes(seen: seq<Tick>, i: nat) {
    && i < |seen|
    && (i == 0 || seen[i].attempt.status != seen[i - 1].attempt.status || KindOf(seen[i]) != KindOf(seen[i - 1]))
  }

  /** The attempts at which something changes. */
  function ChangesIn(seen: seq<Tick>): nat -> bool {
    (i: nat) => Changes(seen, i)
  }

  /** The time, the status and the error of an attempt. */
  predicate Records(transition: Transition, t: Tick) {
    && transition.ms == t.elapsedMs && transition.status == t.attempt.status
    && transition.errorKind == (if Fails(t) then t.attempt.errorKind else None)
  }

  lemma {:induction false} TransitionsInOrder(seen: seq<Tick>) returns (at: seq<nat>)
    ensures Selects(at, |seen|, ChangesIn(seen))
    ensures Tells(RunStarts(seen), seen, at, Records)
  {
    if seen == [] {
      at := [];
    } else {
      hide Selects, Tells, Records, Changes, RunStarts;
      var n := |seen| - 1;
      at := TransitionsInOrder(seen[..n]);
      forall i: nat | i < n
        ensures Changes(seen[..n], i) <==> Changes(seen, i)
      {
        SameChanges(seen, n, i);
      }
      SelectsLast(at, n, ChangesIn(seen[..n]), ChangesIn(seen));
      LastTransition(seen);
      TellsLast(RunStarts(seen[..n]), RunStarts(seen), seen, at, Records, Changes(seen, n));
      at := at + (if Changes(seen, n) then [n] else []);
    }
  }

  lemma {:induction false} SameChanges(seen: seq<Tick>, n: nat, i: nat)
    requires i < n <= |seen|
    ensures Changes(seen[..n], i) <==> Changes(seen, i)
  {
  }

  lemma {:induction false} LastTransition(seen: seq<Tick>)
    requires seen != []
    ensures var n := |seen| - 1;
            var before, all := RunStarts(seen[..n]), RunStarts(seen);
            if Changes(seen, n) then all != [] && all[..|all| - 1] == before && Records(all[|all| - 1], seen[n])
            else all == before
  {
    hide Fails, KindOf, StateKey, TransitionOf;
    var n := |seen| - 1;
    KeysDiffer(seen[n], if n > 0 then seen[n - 1] else seen[n]);
    TransitionIs(seen[n]);
  }

  lemma {:induction false} KeysDiffer(t: Tick, u: Tick)
    ensures StateKey(t.attempt) != StateKey(u.attempt)
       <==> t.attempt.status != u.attempt.status || KindOf(t) != KindOf(u)
  {
  }

  lemma {:induction false} TransitionIs(t: Tick)
    ensures TransitionOf(t)
         == Transition(t.elapsedMs, t.attempt.status, if Fails(t) then t.attempt.errorKind else None)
  {
  }

  lemma {:induction false} FirstErrorIs(seen: seq<Tick>)
    ensures FirstError(seen) == None <==> forall i | 0 <= i < |seen| :: !Fails(seen[i])
    ensures forall i | 0 <= i < |seen| && Fails(seen[i]) && (forall j | 0 <= j < i :: !Fails(seen[j])) ::
              FirstError(seen) == seen[i].attempt.errorKind
  {
    if seen != [] && !Fails(seen[0]) {
      FirstErrorIs(seen[1..]);
      assert forall i | 1 <= i < |seen| :: seen[i] == seen[1..][i - 1];
      assert forall i | 0 <= i < |seen| - 1 :: seen[1..][i] == seen[i + 1];
      forall i | 0 <= i < |seen| && Fails(seen[i]) && (forall j | 0 <= j < i :: !Fails(seen[j]))
        ensures FirstError(seen) == seen[i].attempt.errorKind
      {
        assert i > 0 && seen[1..][i - 1] == seen[i];
        assert forall j | 0 <= j < i - 1 :: !Fails(seen[1..][j]);
      }
    }
  }

  lemma {:induction false} FirstDownIsAt(seen: seq<Tick>, i: nat)
    requires i < |seen| && !Answers200(seen[i]) && forall j | 0 <= j < i :: Answers200(seen[j])
    ensures FirstDown(seen) == Some(seen[i])
  {
    if i > 0 {
      FirstDownIsAt(seen[1..], i - 1);
    }
  }

  /** A probe that is never answered otherwise than 200: nothing was down, and the time is that of the last answer. */
  lemma {:induction false} NeverDown(r: ProbeResult, seen: seq<Tick>)
    requires Reports(r, seen) && forall i | 0 <= i < |seen| :: Answers200(seen[i])
    ensures r.unavailableMs == None && r.firstRecoveryMs == None && r.downtimeMs == None
    ensures r.ms == (if seen == [] then None else Some(seen[|seen| - 1].elapsedMs))
    ensures r.status == (if seen == [] then None else Some(200))
  {
    FirstDownIs(seen);
  }

  /**
   A probe that is answered otherwise first at attempt `i`: down since then, and recovered if and only if the last
   attempt is answered 200; only then are a recovery, a downtime and a time reported.
   */
  lemma {:induction false} DownSince(r: ProbeResult, seen: seq<Tick>, i: nat)
    requires Reports(r, seen)
    requires i < |seen| && !Answers200(seen[i]) && forall j | 0 <= j < i :: Answers200(seen[j])
    ensures var last := seen[|seen| - 1];
            && r.unavailableMs == Some(seen[i].elapsedMs) && r.status == last.attempt.status
            && (if Answers200(last)
                then r.firstRecoveryMs == r.ms == Some(last.elapsedMs)
                       && r.downtimeMs == Some(last.elapsedMs - seen[i].elapsedMs)
                else r.firstRecoveryMs == r.ms == r.downtimeMs == None)
  {
    FirstDownIsAt(seen, i);
  }

  /**
   No further attempt is made exactly if the deadline is over, the process is done, the restart is done without the
   port having been down since an attempt, or the port has just come back.
   */
  lemma {:induction false} StopsIff(ticks: seq<Tick>, k: nat)
    requires k <= |ticks|
    ensures Stops(ticks, k) <==>
      || k == |ticks|
      || ticks[k].processDone
      || (ticks[k].done && k > 0 && forall j | 0 <= j < k :: Answers200(ticks[j]))
      || (k > 0 && Answers200(ticks[k - 1]) && exists j :: 0 <= j < k && !Answers200(ticks[j]))
  {
    hide FirstDown;
    FirstDownIs(ticks[..k]);
    assert forall j | 0 <= j < k :: ticks[..k][j] == ticks[j];
  }
}
