/** The probe that watches a port go down and come back during a restart. */
module RestartProbe {
  import opened Wrappers

  datatype Attempt = Attempt(status: Option<int>, errorKind: Option<string>)

  /**
   One pass of the probe loop before its deadline: the two flags as read at its top, and the attempt
   it would make with the time it ends at, counted from the restart signal.
   */
  datatype Tick = Tick(processDone: bool, done: bool, attempt: Attempt, elapsedMs: int)

  datatype Transition = Transition(ms: int, status: Option<int>, errorKind: Option<string>)

  datatype ProbeResult = ProbeResult(
    downtimeMs: Option<int>, firstErrorKind: Option<string>, firstRecoveryMs: Option<int>, ms: Option<int>,
    status: Option<int>, transitions: seq<Transition>, unavailableMs: Option<int>)

  /** The text `status:errorKind` that the loop compares. */
  function StateKey(a: Attempt): (Option<int>, string) {
    (a.status, a.errorKind.GetOr("ok"))
  }

  predicate Up(t: Tick) {
    t.attempt.status == Some(200)
  }

  predicate AllUp(ticks: seq<Tick>) {
    forall i | 0 <= i < |ticks| :: Up(ticks[i])
  }

  function TransitionOf(t: Tick): Transition {
    Transition(t.elapsedMs, t.attempt.status, if t.attempt.errorKind == Some("") then None else t.attempt.errorKind)
  }

  /** The first attempt of every maximal run of equal states. */
  function RunStarts(seen: seq<Tick>): seq<Transition> {
    if seen == [] then []
    else
      var n := |seen| - 1;
      RunStarts(seen[..n])
      + (if n > 0 && StateKey(seen[n].attempt) == StateKey(seen[n - 1].attempt) then [] else [TransitionOf(seen[n])])
  }

  /** The first attempt that did not answer 200. */
  function FirstDown(seen: seq<Tick>): Option<Tick> {
    if seen == [] then None
    else if !Up(seen[0]) then Some(seen[0])
    else FirstDown(seen[1..])
  }

  /** The last attempt that answered 200. */
  function LastUp(seen: seq<Tick>): Option<Tick> {
    if seen == [] then None
    else if Up(seen[|seen| - 1]) then Some(seen[|seen| - 1])
    else LastUp(seen[..|seen| - 1])
  }

  function FirstError(seen: seq<Tick>): Option<string> {
    if seen == [] then None
    else if seen[0].attempt.errorKind.Some? && seen[0].attempt.errorKind.value != "" then seen[0].attempt.errorKind
    else FirstError(seen[1..])
  }

  /** Attempts answer 200 for a while, then not for a while, and then at most once more, as the very last. */
  ghost predicate DownOnce(seen: seq<Tick>) {
    exists a: nat, b: nat :: Shape(seen, a, b)
  }

  ghost predicate Shape(seen: seq<Tick>, a: nat, b: nat) {
    && a <= b <= |seen| && AllUp(seen[..a]) && (forall i | a <= i < b :: !Up(seen[i]))
    && (b < |seen| ==> a < b && b == |seen| - 1 && Up(seen[b]))
  }

  ghost predicate Recovered(seen: seq<Tick>) {
    seen != [] && Up(seen[|seen| - 1]) && FirstDown(seen).Some?
  }

  /** What the probe reports after the attempts `seen`. */
  ghost predicate Reports(r: ProbeResult, seen: seq<Tick>) {
    && DownOnce(seen)
    && r.transitions == RunStarts(seen)
    && r.firstErrorKind == FirstError(seen)
    && r.unavailableMs == (match FirstDown(seen) case Some(t) => Some(t.elapsedMs) case None => None)
    && r.status == (if seen == [] then None else seen[|seen| - 1].attempt.status)
    && (Recovered(seen) ==>
          var last := seen[|seen| - 1].elapsedMs;
          && r.firstRecoveryMs == Some(last) && r.ms == Some(last)
          && r.downtimeMs == Some(last - FirstDown(seen).value.elapsedMs))
    && (!Recovered(seen) ==>
          && r.firstRecoveryMs == None && r.downtimeMs == None
          && r.ms == (if FirstDown(seen).Some? then None
                      else match LastUp(seen) case Some(t) => Some(t.elapsedMs) case None => None))
  }

  /** Why the probe made no further attempt. */
  predicate Stops(ticks: seq<Tick>, k: nat)
    requires k <= |ticks|
  {
    || k == |ticks|                                                        // deadline
    || ticks[k].processDone
    || (ticks[k].done && AllUp(ticks[..k]) && k > 0)                       // done and never down
    || (k > 0 && Up(ticks[k - 1]) && FirstDown(ticks[..k]).Some?)          // recovered
  }

  method WaitForRestartProbe(ticks: seq<Tick>) returns (r: ProbeResult, k: nat)
    ensures k <= |ticks| && Reports(r, ticks[..k]) && Stops(ticks, k)
    ensures forall j | 0 <= j < k :: !Stops(ticks, j)
  {
    hide FirstDown, LastUp, RunStarts, FirstError, DownOnce, StillWatching, AllUp;
    var firstErrorKind: Option<string> := None;
    var lastStatus: Option<int> := None;
    var lastStateKey: Option<(Option<int>, string)> := None;
    var lastSuccessMs: Option<int> := None;
    var unavailableMs: Option<int> := None;
    var transitions: seq<Transition> := [];
    k := 0;
    NothingSeen();
    while k < |ticks|
      invariant 0 <= k <= |ticks|
      invariant Running(ticks[..k], firstErrorKind, lastStatus, lastStateKey, lastSuccessMs, unavailableMs, transitions)
      invariant forall j | 0 <= j < k :: !Stops(ticks, j)
    {
      RunningMeans(ticks[..k]);
      if ticks[k].processDone {
        break;
      }
      if ticks[k].done && unavailableMs == None && lastSuccessMs.Some? {
        return ProbeResult(None, firstErrorKind, None, lastSuccessMs, Some(200), transitions, None), k;
      }
      var attempt, elapsedMs := ticks[k].attempt, ticks[k].elapsedMs;
      Seen(ticks[..k], ticks[k]);
      assert ticks[..k + 1] == ticks[..k] + [ticks[k]];
      assert !Stops(ticks, k);
      if FirstDown(ticks[..k]).Some? && Up(ticks[k]) {
        RecoveredShape(ticks[..k], ticks[k]);
      }
      lastStatus := attempt.status;
      var stateKey := StateKey(attempt);
      if Some(stateKey) != lastStateKey {
        transitions := transitions + [TransitionOf(ticks[k])];
        lastStateKey := Some(stateKey);
      }
      if attempt.errorKind.Some? && attempt.errorKind.value != "" && firstErrorKind == None {
        firstErrorKind := attempt.errorKind;
      }
      if attempt.status != Some(200) && unavailableMs == None {
        unavailableMs := Some(elapsedMs);
      }
      if attempt.status == Some(200) {
        lastSuccessMs := Some(elapsedMs);
      }
      k := k + 1;
      if attempt.status == Some(200) && unavailableMs.Some? {
        return ProbeResult(Some(elapsedMs - unavailableMs.value), firstErrorKind, Some(elapsedMs), Some(elapsedMs),
                           attempt.status, transitions, unavailableMs), k;
      }
    }
    RunningMeans(ticks[..k]);
    return ProbeResult(None, firstErrorKind, None, if unavailableMs == None then lastSuccessMs else None,
                       lastStatus, transitions, unavailableMs), k;
  }

  // ---------- the loop's variables ----------

  ghost predicate Running(seen: seq<Tick>, firstErrorKind: Option<string>, lastStatus: Option<int>,
                          lastStateKey: Option<(Option<int>, string)>, lastSuccessMs: Option<int>,
                          unavailableMs: Option<int>, transitions: seq<Transition>) {
    && StillWatching(seen)
    && firstErrorKind == FirstError(seen)
    && transitions == RunStarts(seen)
    && lastStatus == (if seen == [] then None else seen[|seen| - 1].attempt.status)
    && lastStateKey == (if seen == [] then None else Some(StateKey(seen[|seen| - 1].attempt)))
    && lastSuccessMs == (match LastUp(seen) case Some(t) => Some(t.elapsedMs) case None => None)
    && unavailableMs == (match FirstDown(seen) case Some(t) => Some(t.elapsedMs) case None => None)
  }

  /** While the loop goes on there has been no recovery: 200s first, and none after the first failure. */
  ghost predicate StillWatching(seen: seq<Tick>) {
    forall i, j | 0 <= i < j < |seen| && !Up(seen[i]) :: !Up(seen[j])
  }

  lemma {:induction false} NothingSeen()
    ensures Running([], None, None, None, None, None, [])
  {
  }

  lemma {:induction false} FirstDownIs(seen: seq<Tick>)
    ensures FirstDown(seen).None? <==> AllUp(seen)
    ensures FirstDown(seen).Some?
        ==> exists i :: 0 <= i < |seen| && !Up(seen[i]) && FirstDown(seen).value == seen[i] && AllUp(seen[..i])
  {
    if seen != [] && Up(seen[0]) {
      FirstDownIs(seen[1..]);
      if FirstDown(seen).Some? {
        var i :| 0 <= i < |seen[1..]| && !Up(seen[1..][i]) && FirstDown(seen[1..]).value == seen[1..][i]
            && AllUp(seen[1..][..i]);
        assert !Up(seen[i + 1]) && seen[i + 1] == seen[1..][i];
        assert forall j | 1 <= j < i + 1 :: seen[j] == seen[1..][..i][j - 1];
      } else {
        assert forall j | 1 <= j < |seen| :: seen[j] == seen[1..][j - 1];
      }
    } else if seen != [] {
      assert !Up(seen[0]) && AllUp(seen[..0]);
    }
  }

  lemma {:induction false} RunningMeans(seen: seq<Tick>)
    requires StillWatching(seen)
    ensures DownOnce(seen) && !Recovered(seen)
    ensures FirstDown(seen).None? <==> AllUp(seen)
    ensures AllUp(seen) && seen != [] ==> LastUp(seen) == Some(seen[|seen| - 1]) && Up(seen[|seen| - 1])
    ensures LastUp(seen).Some? && FirstDown(seen).None? ==> seen != []
  {
    FirstDownIs(seen);
    if FirstDown(seen).Some? {
      var i :| 0 <= i < |seen| && !Up(seen[i]) && AllUp(seen[..i]);
      assert Shape(seen, i, |seen|);
    } else {
      assert seen[..|seen|] == seen;
      assert Shape(seen, |seen|, |seen|);
    }
  }

  /** How the summaries change by one more attempt. */
  lemma {:induction false} Seen(seen: seq<Tick>, t: Tick)
    ensures FirstDown(seen + [t]) == if FirstDown(seen).Some? then FirstDown(seen) else if Up(t) then None else Some(t)
    ensures LastUp(seen + [t]) == if Up(t) then Some(t) else LastUp(seen)
    ensures FirstError(seen + [t]) == if FirstError(seen).Some? then FirstError(seen)
                                      else if t.attempt.errorKind.Some?
                                          && t.attempt.errorKind.value != "" then t.attempt.errorKind
                                      else None
    ensures RunStarts(seen + [t]) ==
      RunStarts(seen)
          + (if seen != [] && StateKey(t.attempt) == StateKey(seen[|seen| - 1].attempt) then [] else [TransitionOf(t)])
    ensures StillWatching(seen) && (FirstDown(seen).Some? ==> !Up(t)) ==> StillWatching(seen + [t])
  {
    hide FirstDown, LastUp, FirstError, StateKey, TransitionOf, StillWatching;
    assert (seen + [t])[..|seen|] == seen;
    FirstDownSeen(seen, t);
    FirstErrorSeen(seen, t);
    LastUpSeen(seen, t);
    if StillWatching(seen) && (FirstDown(seen).Some? ==> !Up(t)) {
      StillWatchingSeen(seen, t);
    }
  }

  lemma {:induction false} FirstDownSeen(seen: seq<Tick>, t: Tick)
    ensures FirstDown(seen + [t]) == if FirstDown(seen).Some? then FirstDown(seen) else if Up(t) then None else Some(t)
  {
    hide Up;
    if seen == [] {
      assert (seen + [t])[1..] == [];
    } else {
      assert (seen + [t])[1..] == seen[1..] + [t];
      FirstDownSeen(seen[1..], t);
    }
  }

  lemma {:induction false} FirstErrorSeen(seen: seq<Tick>, t: Tick)
    ensures FirstError(seen + [t]) == if FirstError(seen).Some? then FirstError(seen)
                                      else if t.attempt.errorKind.Some?
                                          && t.attempt.errorKind.value != "" then t.attempt.errorKind
                                      else None
  {
    if seen == [] {
      assert (seen + [t])[1..] == [];
    } else {
      assert (seen + [t])[1..] == seen[1..] + [t];
      FirstErrorSeen(seen[1..], t);
    }
  }

  lemma {:induction false} LastUpSeen(seen: seq<Tick>, t: Tick)
    ensures LastUp(seen + [t]) == if Up(t) then Some(t) else LastUp(seen)
  {
    hide Up;
    assert (seen + [t])[..|seen|] == seen;
  }

  lemma {:induction false} StillWatchingSeen(seen: seq<Tick>, t: Tick)
    requires StillWatching(seen) && (FirstDown(seen).Some? ==> !Up(t))
    ensures StillWatching(seen + [t])
  {
    FirstDownIs(seen);
  }

  lemma {:induction false} RecoveredShape(seen: seq<Tick>, t: Tick)
    requires StillWatching(seen) && FirstDown(seen).Some? && Up(t)
    ensures DownOnce(seen + [t]) && Recovered(seen + [t])
  {
    Seen(seen, t);
    FirstDownIs(seen);
    var i :| 0 <= i < |seen| && !Up(seen[i]) && AllUp(seen[..i]);
    var all := seen + [t];
    assert all[..i] == seen[..i];
    assert Shape(all, i, |seen|);
  }

  // ---------- consequences ----------

  /** With a clock that never runs backwards, a reported downtime is not negative. */
  lemma {:induction false} DowntimeIsNotNegative(r: ProbeResult, seen: seq<Tick>)
    requires Reports(r, seen)
    requires forall i, j | 0 <= i <= j < |seen| :: seen[i].elapsedMs <= seen[j].elapsedMs
    ensures r.downtimeMs.Some? <==> r.firstRecoveryMs.Some?
    ensures r.downtimeMs.Some?
        ==> r.unavailableMs.Some? && 0 <= r.downtimeMs.value == r.firstRecoveryMs.value - r.unavailableMs.value
  {
    FirstDownIs(seen);
  }

  /** Attempt `i` is in another state than the attempt before it, or is the first. */
  predicate Turns(seen: seq<Tick>, i: nat) {
    i < |seen| && (i == 0 || StateKey(seen[i].attempt) != StateKey(seen[i - 1].attempt))
  }

  function TurnsUpTo(seen: seq<Tick>, n: nat): seq<nat>
    requires n <= |seen|
  {
    if n == 0 then [] else TurnsUpTo(seen, n - 1) + (if Turns(seen, n - 1) then [n - 1] else [])
  }

  /** The turns in order, none left out. */
  lemma {:induction false} TurnsAreAll(seen: seq<Tick>, n: nat)
    requires n <= |seen|
    ensures forall i: nat :: i in TurnsUpTo(seen, n) <==> i < n && Turns(seen, i)
    ensures forall i, j | 0 <= i < j < |TurnsUpTo(seen, n)| :: TurnsUpTo(seen, n)[i] < TurnsUpTo(seen, n)[j]
  {
    hide Turns;
    if n > 0 {
      TurnsAreAll(seen, n - 1);
      var before := TurnsUpTo(seen, n - 1);
      assert forall i | 0 <= i < |before| :: before[i] in before;
    }
  }

  /** The transitions compress the trace: in order, they are exactly the attempts at which the state turns. */
  lemma {:induction false} TransitionsAreTurns(seen: seq<Tick>, n: nat)
    requires n <= |seen|
    ensures var ts, turns := RunStarts(seen[..n]), TurnsUpTo(seen, n);
            |ts| == |turns| && forall k | 0 <= k < |ts| :: turns[k] < |seen| && ts[k] == TransitionOf(seen[turns[k]])
  {
    hide StateKey, TransitionOf;
    if n > 0 {
      TransitionsAreTurns(seen, n - 1);
      assert seen[..n][..n - 1] == seen[..n - 1];
    }
  }
}
