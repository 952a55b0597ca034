/**
 The prompt client of the translator as a state machine over replies, timeouts, close, process
 errors and write errors, and the driver that creates, prompts and drops clients.
 Prompt number i of a client is request `req-(i+1)`.
 */
module PiRpcClient {
  import opened Wrappers

  /** `line` numbers the `agent_end` line whose text the prompt was given. */
  datatype Settlement = Resolved(line: nat) | Rejected

  /** The promise of one prompt with the two timers its executor arms. */
  datatype Prompt = Prompt(timer: bool, heartbeat: bool, settled: Option<Settlement>)

  datatype Client = Client(closed: bool, pending: Option<nat>, prompts: seq<Prompt>)

  datatype Event =
    | Response(id: nat, success: bool)
    | AgentEnd(line: nat, usable: bool)  // `usable` is false when no translation can be extracted
    | TimerFires(id: nat)
    | ProcessError
    | ProcessClose
    | WriteError(id: nat)
    | Close

  const NEW_CLIENT := Client(false, None, [])

  const ARMED := Prompt(true, true, None)

  // ---------- what each callback does ----------

  /** Clear both timers and settle the promise; a promise that is settled stays as it is. */
  function Settle(c: Client, id: nat, outcome: Settlement): Client {
    if id < |c.prompts| then
      c.(prompts := c.prompts[id := Prompt(false, false, Some(c.prompts[id].settled.GetOr(outcome)))])
    else c
  }

  function RejectPending(c: Client): Client {
    match c.pending
    case Some(id) => Settle(c.(pending := None), id, Rejected)
    case None => c
  }

  function Send(c: Client): Client {
    c.(pending := Some(|c.prompts|), prompts := c.prompts + [ARMED])
  }

  function Deliver(c: Client, e: Event): Client {
    match e
    case Response(id, success) =>
      if c.pending == Some(id) && !success then RejectPending(c) else c
    case AgentEnd(line, usable) =>
      (match c.pending
       case Some(id) => Settle(c.(pending := None), id, if usable then Resolved(line) else Rejected)
       case None => c)
    case TimerFires(id) =>
      if c.pending == Some(id) then RejectPending(c).(closed := true)
      else if id < |c.prompts| then c.(prompts := c.prompts[id := c.prompts[id].(timer := false)])
      else c
    case ProcessError => RejectPending(c)
    case ProcessClose => RejectPending(c.(closed := true))
    case WriteError(id) => Settle(if c.pending == Some(id) then c.(pending := None) else c, id, Rejected)
    case Close => c.(closed := true)
  }

  /** A timer or write callback belongs to a prompt that was started; even a stale one does no harm. */
  predicate Enabled(c: Client, e: Event) {
    match e
    case TimerFires(id) => id < |c.prompts|
    case WriteError(id) => id < |c.prompts|
    case _ => true
  }

  // ---------- the client class ----------

  class PiRpcClient {
    var closed: bool
    var pending: Option<nat>
    var requestCount: nat
    var prompts: seq<Prompt>

    ghost function State(): Client
      reads this
    {
      Client(closed, pending, prompts)
    }

    ghost predicate Valid()
      reads this
    {
      requestCount == |prompts| && ClientInv(State())
    }

    constructor ()
      ensures Valid() && State() == NEW_CLIENT
    {
      closed := false;
      pending := None;
      requestCount := 0;
      prompts := [];
    }

    /** The executor of one prompt; `sequence` runs it only once the previous promise has settled. */
    method StartPrompt() returns (id: Option<nat>)
      requires Valid() && pending == None
      modifies this
      ensures Valid()
      ensures old(closed) ==> id == None && State() == old(State())
      ensures !old(closed) ==> id == Some(|old(prompts)|) && State() == Send(old(State()))
    {
      if closed {
        return None;
      }
      id := Some(requestCount);
      requestCount := requestCount + 1;
      prompts := prompts + [ARMED];
      pending := id;
    }

    method SettlePrompt(id: nat, outcome: Settlement)
      requires id < |prompts|
      modifies this`prompts
      ensures State() == Settle(old(State()), id, outcome)
    {
      var settled := if prompts[id].settled.None? then Some(outcome) else prompts[id].settled;
      prompts := prompts[id := Prompt(false, false, settled)];
    }

    method RejectPendingPrompt()
      requires pending.Some? ==> pending.value < |prompts|
      modifies this`pending, this`prompts
      ensures State() == RejectPending(old(State()))
    {
      var current := pending;
      pending := None;
      if current.Some? {
        SettlePrompt(current.value, Rejected);
      }
    }

    method OnResponse(id: nat, success: bool)
      requires Valid()
      modifies this
      ensures Valid() && State() == Deliver(old(State()), Response(id, success))
    {
      DeliverKeepsInv(State(), Response(id, success));
      if pending == None || pending != Some(id) || success {
        return;
      }
      pending := None;
      SettlePrompt(id, Rejected);
    }

    method OnAgentEnd(line: nat, usable: bool)
      requires Valid()
      modifies this
      ensures Valid() && State() == Deliver(old(State()), AgentEnd(line, usable))
    {
      DeliverKeepsInv(State(), AgentEnd(line, usable));
      if pending == None {
        return;
      }
      var id := pending.value;
      pending := None;
      SettlePrompt(id, if usable then Resolved(line) else Rejected);
    }

    method OnTimer(id: nat)
      requires Valid() && id < |prompts|
      modifies this
      ensures Valid() && State() == Deliver(old(State()), TimerFires(id))
    {
      DeliverKeepsInv(State(), TimerFires(id));
      if pending == Some(id) {
        pending := None;
        CloseClient();
        SettlePrompt(id, Rejected);
      } else {
        prompts := prompts[id := prompts[id].(timer := false)];
      }
    }

    method OnProcessError()
      requires Valid()
      modifies this
      ensures Valid() && State() == Deliver(old(State()), ProcessError)
    {
      DeliverKeepsInv(State(), ProcessError);
      RejectPendingPrompt();
    }

    method OnProcessClose()
      requires Valid()
      modifies this
      ensures Valid() && State() == Deliver(old(State()), ProcessClose)
    {
      DeliverKeepsInv(State(), ProcessClose);
      closed := true;
      RejectPendingPrompt();
    }

    method OnWriteError(id: nat)
      requires Valid() && id < |prompts|
      modifies this
      ensures Valid() && State() == Deliver(old(State()), WriteError(id))
    {
      DeliverKeepsInv(State(), WriteError(id));
      if pending == Some(id) {
        pending := None;
      }
      SettlePrompt(id, Rejected);
    }

    method CloseClient()
      modifies this`closed
      ensures State() == Deliver(old(State()), Close)
    {
      if closed {
        return;
      }
      closed := true;
    }
  }

  // ---------- what every event keeps ----------

  /**
   An unsettled prompt is the pending one and has both timers armed; a settled one has neither.
   Hence at most one prompt is unsettled, and it cannot be forgotten.
   */
  ghost predicate ClientInv(c: Client) {
    && (c.pending.Some? ==> c.pending.value == |c.prompts| - 1 && c.prompts[c.pending.value].settled.None?)
    && forall i | 0 <= i < |c.prompts| ::
         if c.prompts[i].settled.None? then c.pending == Some(i) && c.prompts[i] == ARMED
         else !c.prompts[i].timer && !c.prompts[i].heartbeat
  }

  lemma {:induction false} DeliverKeepsInv(c: Client, e: Event)
    requires ClientInv(c) && Enabled(c, e)
    ensures ClientInv(Deliver(c, e)) && |Deliver(c, e).prompts| == |c.prompts|
  {
  }

  /** A promise settles at most once: no event changes a settlement. */
  lemma {:induction false} SettlementsStay(c: Client, e: Event, i: nat)
    requires i < |c.prompts| && c.prompts[i].settled.Some?
    ensures |Deliver(c, e).prompts| == |c.prompts| && Deliver(c, e).prompts[i].settled == c.prompts[i].settled
  {
  }

  // ---------- the driver and its clients ----------

  /**
   `current` is what `getClient` would return, `awaiting` the prompt `translateBatch` awaits, and
   `ends[c]` the number of `agent_end` lines client c's process has delivered: it writes one per
   prompt, in order.
   */
  datatype System = System(clients: seq<Client>, ends: seq<nat>, current: Option<nat>, awaiting: Option<nat>)

  const INITIAL := System([], [], None, None)

  datatype Step =
    | Create                     // getClient with no client
    | Prompted                   // prompt on the current client
    | Unavailable                // prompt throws because the client is closed
    | Accept                     // the awaited text parses and answers every key
    | Fail                       // the awaited prompt rejected, or its text is refused: resetClient
    | Release                    // resetClient when the locale is done
    | Happens(c: nat, e: Event)  // a callback of any client, at any time

  predicate CanStep(s: System, step: Step) {
    match step
    case Create => s.current.None?
    case Prompted => s.current.Some? && s.awaiting.None? && s.current.value < |s.clients|
        && !s.clients[s.current.value].closed
    case Unavailable => s.current.Some? && s.awaiting.None? && s.current.value < |s.clients|
        && s.clients[s.current.value].closed
    case Accept => AwaitedSettled(s) && Awaited(s).settled.value.Resolved?
    case Fail => AwaitedSettled(s)
    case Release => s.awaiting.None?
    case Happens(c, e) =>
      && c < |s.clients| && c < |s.ends| && Enabled(s.clients[c], e)
      && (e.AgentEnd? ==> e.line == s.ends[c] < |s.clients[c].prompts|)
  }

  predicate AwaitedSettled(s: System) {
    && s.current.Some? && s.current.value < |s.clients|
    && s.awaiting.Some? && s.awaiting.value < |s.clients[s.current.value].prompts|
    && Awaited(s).settled.Some?
  }

  function Awaited(s: System): Prompt
    requires s.current.Some? && s.current.value < |s.clients|
    requires s.awaiting.Some? && s.awaiting.value < |s.clients[s.current.value].prompts|
  {
    s.clients[s.current.value].prompts[s.awaiting.value]
  }

  /** `await client.close(); client = null` */
  function Reset(s: System): System {
    if s.current.Some? && s.current.value < |s.clients| then
      System(s.clients[s.current.value := Deliver(s.clients[s.current.value], Close)], s.ends, None, None)
    else s.(current := None, awaiting := None)
  }

  function Apply(s: System, step: Step): System
    requires CanStep(s, step)
  {
    match step
    case Create => System(s.clients + [NEW_CLIENT], s.ends + [0], Some(|s.clients|), s.awaiting)
    case Prompted =>
      var c := s.clients[s.current.value];
      s.(clients := s.clients[s.current.value := Send(c)], awaiting := Some(|c.prompts|))
    case Unavailable => Reset(s)
    case Accept => s.(awaiting := None)
    case Fail => Reset(s)
    case Release => Reset(s)
    case Happens(c, e) =>
      System(s.clients[c := Deliver(s.clients[c], e)],
             if e.AgentEnd? then s.ends[c := s.ends[c] + 1] else s.ends,
             s.current, s.awaiting)
  }

  ghost predicate IsRun(states: seq<System>, steps: seq<Step>) {
    && |states| == |steps| + 1 && states[0] == INITIAL
    && forall k | 0 <= k < |steps| :: CanStep(states[k], steps[k]) && states[k + 1] == Apply(states[k], steps[k])
  }

  // ---------- safety of every run ----------

  /**
   All prompts but the last were resolved, each by its own `agent_end` line, and so was the last if it was
   resolved.
   */
  ghost predicate InStep(c: Client, ends: nat) {
    && ClientInv(c)
    && (forall i | 0 <= i < |c.prompts| - 1 :: c.prompts[i].settled == Some(Resolved(i)))
    && (|c.prompts| == 0 ==> ends == 0)
    && (|c.prompts| > 0 ==>
          var n := |c.prompts|;
          match c.prompts[n - 1].settled
          case None => ends == n - 1
          case Some(Resolved(line)) => line == n - 1 && ends == n
          case Some(Rejected) => ends == n - 1 || ends == n)
  }

  ghost predicate AllResolved(c: Client) {
    forall i | 0 <= i < |c.prompts| :: c.prompts[i].settled.Some? && c.prompts[i].settled.value.Resolved?
  }

  ghost predicate SystemInv(s: System) {
    && |s.ends| == |s.clients|
    && (forall c | 0 <= c < |s.clients| :: InStep(s.clients[c], s.ends[c]))
    && (s.current.Some? ==> s.current.value < |s.clients|)
    && (s.awaiting.Some? ==> s.current.Some? && s.awaiting.value == |s.clients[s.current.value].prompts| - 1)
    && (s.current.Some? && s.awaiting.None? ==> AllResolved(s.clients[s.current.value]))
  }

  lemma {:induction false} DeliverKeepsStep(c: Client, ends: nat, e: Event)
    requires InStep(c, ends) && Enabled(c, e)
    requires e.AgentEnd? ==> e.line == ends < |c.prompts|
    ensures InStep(Deliver(c, e), if e.AgentEnd? then ends + 1 else ends)
    ensures AllResolved(c) ==> AllResolved(Deliver(c, e))
    ensures |Deliver(c, e).prompts| == |c.prompts|
  {
    hide ClientInv, Deliver, Enabled;
    DeliverKeepsInv(c, e);
    forall i | 0 <= i < |c.prompts|
      ensures SettledBy(e, c.prompts[i].settled, Deliver(c, e).prompts[i].settled)
    {
      DeliverSettles(c, e, i);
    }
  }

  /** A settlement stays; an `agent_end` line settles what is unsettled, resolving it with that line if at all. */
  predicate SettledBy(e: Event, before: Option<Settlement>, after: Option<Settlement>) {
    match before
    case Some(_) => after == before
    case None =>
      if e.AgentEnd? then after == Some(Resolved(e.line)) || after == Some(Rejected)
      else after == None || after == Some(Rejected)
  }

  lemma {:induction false} DeliverSettles(c: Client, e: Event, i: nat)
    requires ClientInv(c) && i < |c.prompts|
    ensures |Deliver(c, e).prompts| == |c.prompts|
    ensures SettledBy(e, c.prompts[i].settled, Deliver(c, e).prompts[i].settled)
  {
  }

  lemma {:induction false} ResetKeepsInv(s: System)
    requires SystemInv(s)
    ensures SystemInv(Reset(s))
  {
    hide InStep, AllResolved, Deliver;
    if s.current.Some? {
      DeliverKeepsStep(s.clients[s.current.value], s.ends[s.current.value], Close);
    }
  }

  lemma {:induction false} SendKeepsStep(c: Client, ends: nat)
    requires InStep(c, ends) && AllResolved(c)
    ensures InStep(Send(c), ends)
  {
  }

  lemma {:induction false} PromptedKeepsInv(s: System)
    requires SystemInv(s) && CanStep(s, Prompted)
    ensures SystemInv(Apply(s, Prompted))
  {
    hide InStep, AllResolved;
    SendKeepsStep(s.clients[s.current.value], s.ends[s.current.value]);
  }

  lemma {:induction false} AcceptKeepsInv(s: System)
    requires SystemInv(s) && CanStep(s, Accept)
    ensures SystemInv(Apply(s, Accept))
  {
    assert InStep(s.clients[s.current.value], s.ends[s.current.value]);
  }

  lemma {:induction false} NewClientInStep()
    ensures InStep(NEW_CLIENT, 0) && AllResolved(NEW_CLIENT)
  {
  }

  lemma {:induction false} HappensKeepsInv(s: System, c: nat, e: Event)
    requires SystemInv(s) && CanStep(s, Happens(c, e))
    ensures SystemInv(Apply(s, Happens(c, e)))
  {
    hide InStep, AllResolved, Deliver;
    DeliverKeepsStep(s.clients[c], s.ends[c], e);
  }

  lemma {:induction false} StepKeepsInv(s: System, step: Step)
    requires SystemInv(s) && CanStep(s, step)
    ensures SystemInv(Apply(s, step))
  {
    hide InStep, AllResolved, Deliver;
    match step
    case Happens(c, e) => HappensKeepsInv(s, c, e);
    case Create => NewClientInStep();
    case Prompted => PromptedKeepsInv(s);
    case Accept => AcceptKeepsInv(s);
    case _ => ResetKeepsInv(s);
  }

  lemma {:induction false} RunInvariant(states: seq<System>, steps: seq<Step>, k: nat)
    requires IsRun(states, steps) && k < |states|
    ensures SystemInv(states[k])
  {
    if k > 0 {
      RunInvariant(states, steps, k - 1);
      StepKeepsInv(states[k - 1], steps[k - 1]);
    }
  }

  /**
   In every reachable state: one unsettled prompt per client at most, and no answer reaches a prompt it was
   not for.
   */
  lemma {:induction false} NoMixedAnswers(states: seq<System>, steps: seq<Step>, k: nat, c: nat, i: nat)
    requires IsRun(states, steps) && k < |states| && c < |states[k].clients| && i < |states[k].clients[c].prompts|
    ensures var client := states[k].clients[c];
            var p := client.prompts[i];
            match p.settled
            case None => client.pending == Some(i) && i == |client.prompts| - 1 && p.timer && p.heartbeat
            case Some(Resolved(line)) => line == i && !p.timer && !p.heartbeat
            case Some(Rejected) => i == |client.prompts| - 1 && !p.timer && !p.heartbeat
  {
    RunInvariant(states, steps, k);
    assert InStep(states[k].clients[c], states[k].ends[c]);
  }

  /**
   A settlement is never revised, and a client with a rejected prompt is never sent another, for the rest of
   the run.
   */
  lemma {:induction false} SettledForGood(states: seq<System>, steps: seq<Step>, k: nat, later: nat, c: nat, i: nat)
    requires IsRun(states, steps) && k <= later < |states| && c < |states[k].clients|
        && i < |states[k].clients[c].prompts|
    requires states[k].clients[c].prompts[i].settled.Some?
    ensures c < |states[later].clients| && i < |states[later].clients[c].prompts|
    ensures states[later].clients[c].prompts[i].settled == states[k].clients[c].prompts[i].settled
    ensures states[k].clients[c].prompts[i].settled.value == Rejected ==> |states[later].clients[c].prompts| == i + 1
    decreases later - k
  {
    RunInvariant(states, steps, k);
    assert InStep(states[k].clients[c], states[k].ends[c]);
    if k < later {
      RunInvariant(states, steps, k + 1);
      StepKeepsSettlements(states[k], steps[k], c, i);
      SettledForGood(states, steps, k + 1, later, c, i);
    }
  }

  lemma {:induction false} StepKeepsSettlements(s: System, step: Step, c: nat, i: nat)
    requires SystemInv(s) && CanStep(s, step) && c < |s.clients| && i < |s.clients[c].prompts|
    requires s.clients[c].prompts[i].settled.Some?
    ensures var t := Apply(s, step);
            c < |t.clients| && i < |t.clients[c].prompts|
                && t.clients[c].prompts[i].settled == s.clients[c].prompts[i].settled
  {
    hide Deliver, InStep, AllResolved;
    match step
    case Happens(_, e) => SettlementsStay(s.clients[c], e, i);
    case _ => SettlementsStay(s.clients[c], Close, i);
  }

  /** The events after which a client is of no more use: its end, and the timeout of its pending prompt. */
  predicate Ends(c: Client, e: Event) {
    e.ProcessClose? || e.Close? || (e.TimerFires? && c.pending == Some(e.id))
  }

  lemma {:induction false} StepKeepsClosed(s: System, step: Step, c: nat)
    requires SystemInv(s) && CanStep(s, step) && c < |s.clients| && s.clients[c].closed
    ensures var t := Apply(s, step);
            c < |t.clients| && t.clients[c].closed && |t.clients[c].prompts| == |s.clients[c].prompts|
  {
    hide InStep, AllResolved;
  }

  /**
   After such an event the client stays closed and is sent no prompt, for the rest of the run; what was
   pending is rejected.
   */
  lemma {:induction false} EndedForGood(states: seq<System>, steps: seq<Step>, k: nat, later: nat, c: nat, e: Event)
    requires IsRun(states, steps) && k < later < |states| && steps[k] == Happens(c, e)
    requires c < |states[k].clients| && Ends(states[k].clients[c], e)
    ensures c < |states[later].clients| && states[later].clients[c].closed
    ensures |states[later].clients[c].prompts| == |states[k].clients[c].prompts|
    ensures var before := states[k].clients[c];
            !e.Close? && before.pending.Some? ==>
              before.pending.value < |before.prompts|
              && states[later].clients[c].prompts[before.pending.value].settled == Some(Rejected)
    decreases later - k
  {
    hide Deliver, InStep, AllResolved;
    RunInvariant(states, steps, k);
    if later == k + 1 {
      EndRejects(states[k].clients[c], states[k].ends[c], e);
    } else {
      EndedForGood(states, steps, k, later - 1, c, e);
      RunInvariant(states, steps, later - 1);
      StepKeepsClosed(states[later - 1], steps[later - 1], c);
      var before := states[k].clients[c];
      if !e.Close? && before.pending.Some? {
        StepKeepsSettlements(states[later - 1], steps[later - 1], c, before.pending.value);
      }
    }
  }

  lemma {:induction false} EndRejects(c: Client, ends: nat, e: Event)
    requires InStep(c, ends) && Ends(c, e)
    ensures var d := Deliver(c, e);
            && d.closed && |d.prompts| == |c.prompts|
            && (!e.Close? && c.pending.Some? ==>
                  c.pending.value < |c.prompts| && d.prompts[c.pending.value].settled == Some(Rejected))
  {
  }
}
