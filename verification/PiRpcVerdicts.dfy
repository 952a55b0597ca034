/** What becomes of a pending prompt, event by event and over whole histories of a client's callbacks. */
module PiRpcVerdicts {
  import opened Wrappers
  import opened PiRpcClient

  /** What event `e` settles the pending prompt `id` with, if it does. */
  function Verdict(e: Event, id: nat): Option<Settlement> {
    match e
    case Response(i, success) => if i == id && !success then Some(Rejected) else None
    case AgentEnd(line, usable) => if usable then Some(Resolved(line)) else Some(Rejected)
    case TimerFires(i) => if i == id then Some(Rejected) else None
    case WriteError(i) => if i == id then Some(Rejected) else None
    case ProcessError => Some(Rejected)
    case ProcessClose => Some(Rejected)
    case Close => None
  }

  function DeliverAll(c: Client, events: seq<Event>): Client {
    if events == [] then c else Deliver(DeliverAll(c, events[..|events| - 1]), events[|events| - 1])
  }

  ghost predicate AllEnabled(c: Client, events: seq<Event>) {
    forall k | 0 <= k < |events| :: Enabled(c, events[k])
  }

  /** One event: the pending prompt is settled by its verdict, and stays pending with its timers armed without one. */
  lemma {:induction false} PendingAfter(c: Client, e: Event, id: nat)
    requires ClientInv(c) && Enabled(c, e) && c.pending == Some(id)
    ensures var d := Deliver(c, e);
            && |d.prompts| == |c.prompts|
            && d.prompts[id].settled == Verdict(e, id)
            && d.pending == (if Verdict(e, id) == None then Some(id) else None)
            && (Verdict(e, id) == None ==> d.prompts == c.prompts)
  {
  }

  /** Without a pending prompt no event does anything but close the client. */
  lemma {:induction false} NothingPending(c: Client, e: Event)
    requires ClientInv(c) && Enabled(c, e) && c.pending == None
    ensures Deliver(c, e) == c.(closed := c.closed || e.Close? || e.ProcessClose?)
  {
  }

  /** A client is closed by `close`, by the end of its process and by the timeout of its pending prompt only. */
  lemma {:induction false} ClosedIff(c: Client, e: Event)
    ensures Deliver(c, e).closed <==>
      c.closed || e.Close? || e.ProcessClose? || (e.TimerFires? && c.pending == Some(e.id))
  {
  }

  lemma {:induction false} AllKeepInv(c: Client, events: seq<Event>)
    requires ClientInv(c) && AllEnabled(c, events)
    ensures ClientInv(DeliverAll(c, events)) && |DeliverAll(c, events).prompts| == |c.prompts|
  {
    hide ClientInv, Deliver, Enabled;
    if events != [] {
      var n := |events| - 1;
      AllKeepInv(c, events[..n]);
      SameEnabled(c, DeliverAll(c, events[..n]), events[n]);
      DeliverKeepsInv(DeliverAll(c, events[..n]), events[n]);
    }
  }

  lemma {:induction false} SameEnabled(c: Client, d: Client, e: Event)
    requires |c.prompts| == |d.prompts|
    ensures Enabled(c, e) <==> Enabled(d, e)
  {
  }

  /** As long as no event has a verdict for it, the prompt is pending, unsettled and with both timers armed. */
  lemma {:induction false} PendingWithoutVerdict(c: Client, events: seq<Event>, id: nat)
    requires ClientInv(c) && AllEnabled(c, events) && c.pending == Some(id)
    requires forall k | 0 <= k < |events| :: Verdict(events[k], id) == None
    ensures DeliverAll(c, events).pending == Some(id) && DeliverAll(c, events).prompts == c.prompts
  {
    hide ClientInv, Deliver, Enabled, Verdict;
    if events != [] {
      var n := |events| - 1;
      PendingWithoutVerdict(c, events[..n], id);
      AllKeepInv(c, events[..n]);
      SameEnabled(c, DeliverAll(c, events[..n]), events[n]);
      PendingAfter(DeliverAll(c, events[..n]), events[n], id);
    }
  }

  /** The first verdict counts, whatever came before and comes after it. */
  lemma {:induction false} FirstVerdictCounts(c: Client, events: seq<Event>, id: nat, k: nat)
    requires ClientInv(c) && AllEnabled(c, events) && c.pending == Some(id)
    requires k < |events| && Verdict(events[k], id).Some? && forall j | 0 <= j < k :: Verdict(events[j], id) == None
    ensures var d := DeliverAll(c, events);
            |d.prompts| == |c.prompts| && id < |d.prompts| && d.prompts[id].settled == Verdict(events[k], id)
  {
    hide Deliver, Enabled, Verdict;
    var n := |events| - 1;
    AllKeepInv(c, events);
    AllKeepInv(c, events[..n]);
    var before := DeliverAll(c, events[..n]);
    if k == n {
      PendingWithoutVerdict(c, events[..n], id);
      SameEnabled(c, before, events[n]);
      PendingAfter(before, events[n], id);
    } else {
      FirstVerdictCounts(c, events[..n], id, k);
      SettlementsStay(before, events[n], id);
    }
  }

  /** A response that is not a failure of prompt `id`: its acknowledgement, or one with another id. */
  predicate Acknowledges(e: Event, id: nat) {
    e.Response? && (e.success || e.id != id)
  }

  /**
   The normal course: after any acknowledgements the prompt is still pending; an `agent_end` line with a text
   then resolves it with that line, and one without, like a failure response with its id, rejects it.
   */
  lemma {:induction false} AcknowledgedThenAnswered(c: Client, acknowledgements: seq<Event>, id: nat, line: nat)
    requires ClientInv(c) && c.pending == Some(id)
    requires forall k | 0 <= k < |acknowledgements| :: Acknowledges(acknowledgements[k], id)
    ensures DeliverAll(c, acknowledgements) == c && id < |c.prompts| && c.prompts[id] == ARMED
    ensures forall usable :: var d := DeliverAll(c, acknowledgements + [AgentEnd(line, usable)]);
              d == c.(pending := None, prompts := c.prompts[id := Prompt(false, false,
                  Some(if usable then Resolved(line) else Rejected))])
    ensures DeliverAll(c, acknowledgements + [Response(id, false)])
         == c.(pending := None, prompts := c.prompts[id := Prompt(false, false, Some(Rejected))])
  {
    AcknowledgedWaits(c, acknowledgements, id);
    forall e: Event
      ensures DeliverAll(c, acknowledgements + [e]) == Deliver(DeliverAll(c, acknowledgements), e)
    {
      assert (acknowledgements + [e])[..|acknowledgements|] == acknowledgements;
    }
  }

  lemma {:induction false} AcknowledgedWaits(c: Client, acknowledgements: seq<Event>, id: nat)
    requires ClientInv(c) && c.pending == Some(id)
    requires forall k | 0 <= k < |acknowledgements| :: Acknowledges(acknowledgements[k], id)
    ensures DeliverAll(c, acknowledgements) == c
  {
    if acknowledgements != [] {
      AcknowledgedWaits(c, acknowledgements[..|acknowledgements| - 1], id);
    }
  }

  // ---------- over whole runs ----------

  /** The verdict of a step of a run for prompt `id` of client `c`: that of a callback of this client. */
  function StepVerdict(step: Step, c: nat, id: nat): Option<Settlement> {
    if step.Happens? && step.c == c then Verdict(step.e, id) else None
  }

  lemma {:induction false} StepSettles(s: System, step: Step, c: nat, id: nat)
    requires SystemInv(s) && CanStep(s, step) && c < |s.clients| && s.clients[c].pending == Some(id)
    ensures var t := Apply(s, step);
            && c < |t.clients| && |t.clients[c].prompts| == |s.clients[c].prompts| && id < |t.clients[c].prompts|
            && t.clients[c].prompts[id].settled == StepVerdict(step, c, id)
            && (StepVerdict(step, c, id) == None ==> t.clients[c].pending == Some(id))
  {
    hide Deliver, AllResolved, Verdict;
    assert InStep(s.clients[c], s.ends[c]);
    match step
    case Happens(d, e) =>
      if d == c {
        PendingAfter(s.clients[c], e, id);
      }
    case Prompted =>
      PromptedElsewhere(s, c, id);
    case _ =>
      PendingAfter(s.clients[c], Close, id);
      CloseHasNoVerdict(id);
  }

  lemma {:induction false} CloseHasNoVerdict(id: nat)
    ensures Verdict(Close, id) == None
  {
  }

  lemma {:induction false} PromptedElsewhere(s: System, c: nat, id: nat)
    requires SystemInv(s) && CanStep(s, Prompted) && c < |s.clients| && s.clients[c].pending == Some(id)
    ensures s.current != Some(c)
  {
    assert InStep(s.clients[c], s.ends[c]);
  }

  /** In every run a pending prompt stays pending until a callback of its client has a verdict for it. */
  lemma {:induction false} WaitsForVerdict(states: seq<System>, steps: seq<Step>, k: nat, later: nat, c: nat, id: nat)
    requires IsRun(states, steps) && k <= later < |states| && c < |states[k].clients|
    requires states[k].clients[c].pending == Some(id)
    requires forall j | k <= j < later :: StepVerdict(steps[j], c, id) == None
    ensures c < |states[later].clients| && id < |states[later].clients[c].prompts|
    ensures states[later].clients[c].pending == Some(id) && states[later].clients[c].prompts[id].settled == None
    decreases later - k
  {
    hide InStep, AllResolved, StepVerdict, Apply, CanStep;
    if k == later {
      RunInvariant(states, steps, k);
      PendingUnsettled(states[k], c, id);
    } else {
      WaitsForVerdict(states, steps, k, later - 1, c, id);
      RunInvariant(states, steps, later - 1);
      StepSettles(states[later - 1], steps[later - 1], c, id);
    }
  }

  /** The first verdict settles it, for the rest of the run. */
  lemma {:induction false} SettledByFirstVerdict(states: seq<System>, steps: seq<Step>, k: nat, m: nat, later: nat,
                                                 c: nat, id: nat)
    requires IsRun(states, steps) && k <= m < later < |states| && c < |states[k].clients|
    requires states[k].clients[c].pending == Some(id)
    requires StepVerdict(steps[m], c, id).Some? && forall j | k <= j < m :: StepVerdict(steps[j], c, id) == None
    ensures c < |states[later].clients| && id < |states[later].clients[c].prompts|
    ensures states[later].clients[c].prompts[id].settled == StepVerdict(steps[m], c, id)
  {
    hide InStep, AllResolved, StepVerdict, Apply, CanStep;
    WaitsForVerdict(states, steps, k, m, c, id);
    RunInvariant(states, steps, m);
    StepSettles(states[m], steps[m], c, id);
    SettledForGood(states, steps, m + 1, later, c, id);
  }

  lemma {:induction false} PendingUnsettled(s: System, c: nat, id: nat)
    requires SystemInv(s) && c < |s.clients| && s.clients[c].pending == Some(id)
    ensures id < |s.clients[c].prompts| && s.clients[c].prompts[id].settled == None
  {
    assert InStep(s.clients[c], s.ends[c]);
  }
}
