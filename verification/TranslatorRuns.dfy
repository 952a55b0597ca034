/**
 The exchanges of the retry-and-split translator as steps of the prompt clients: whatever it has
 logged is the history of a run of their state machine, so what holds in every run holds in these.
 */
module TranslatorRuns {
  import opened Wrappers
  import opened PiRpcClient
  import TranslateBatch

  type Log = seq<TranslateBatch.Exchange>

  /** How an exchange comes to its end; `Gone` is a client whose process ended before it was prompted. */
  datatype Ending = Answer | NoText | FailureResponse | Timeout | ProcessFailed | ProcessEnded | WriteFailed | Gone

  // ---------- paths ----------

  /**
   The exchanges that the driver has finished along the way: prompts accepted, failed, or refused by a closed
   client.
   */
  function Finished(s: System, step: Step): Log {
    if s.current.None? then []
    else if step == Accept then [TranslateBatch.Exchange(s.current.value, true)]
    else if step == Fail || step == Unavailable then [TranslateBatch.Exchange(s.current.value, false)]
    else []
  }

  ghost predicate History(s: System, steps: seq<Step>, t: System, log: Log)
    decreases |steps|
  {
    if steps == [] then s == t && log == []
    else
      && CanStep(s, steps[0])
      && Finished(s, steps[0]) <= log
      && History(Apply(s, steps[0]), steps[1..], t, log[|Finished(s, steps[0])|..])
  }

  lemma {:induction false} OneStep(s: System, step: Step)
    requires CanStep(s, step)
    ensures History(s, [step], Apply(s, step), Finished(s, step))
  {
    assert [step][1..] == [];
  }

  lemma {:induction false} Then(s: System, a: seq<Step>, t: System, log: Log, b: seq<Step>, u: System, more: Log)
    requires History(s, a, t, log) && History(t, b, u, more)
    ensures History(s, a + b, u, log + more)
    decreases |a|
  {
    hide Apply, CanStep, Finished, History;
    HistoryUnfolds(s, a, t, log);
    HistoryUnfolds(s, a + b, u, log + more);
    if a == [] {
      assert a + b == b && log + more == more;
    } else {
      var done := Finished(s, a[0]);
      Then(Apply(s, a[0]), a[1..], t, log[|done|..], b, u, more);
      assert (a + b)[0] == a[0] && (a + b)[1..] == a[1..] + b;
      assert done <= log + more;
      assert (log + more)[|done|..] == log[|done|..] + more;
    }
  }

  lemma {:induction false} HistoryUnfolds(s: System, steps: seq<Step>, t: System, log: Log)
    ensures History(s, steps, t, log) <==>
      if steps == [] then s == t && log == []
      else
        && CanStep(s, steps[0])
        && Finished(s, steps[0]) <= log
        && History(Apply(s, steps[0]), steps[1..], t, log[|Finished(s, steps[0])|..])
  {
  }

  /** The states along a path make a run of the state machine. */
  lemma {:induction false} HistoryIsRun(s: System, steps: seq<Step>, t: System, log: Log) returns (states: seq<System>)
    requires History(s, steps, t, log)
    ensures |states| == |steps| + 1 && states[0] == s && states[|steps|] == t
    ensures forall k | 0 <= k < |steps| :: CanStep(states[k], steps[k]) && states[k + 1] == Apply(states[k], steps[k])
    decreases |steps|
  {
    if steps == [] {
      states := [s];
    } else {
      var rest := HistoryIsRun(Apply(s, steps[0]), steps[1..], t, log[|Finished(s, steps[0])|..]);
      states := [s] + rest;
      forall k | 0 <= k < |steps|
        ensures CanStep(states[k], steps[k]) && states[k + 1] == Apply(states[k], steps[k])
      {
        if k > 0 {
          assert states[k] == rest[k - 1] && steps[k] == steps[1..][k - 1];
        }
      }
    }
  }

  // ---------- between two exchanges ----------

  /** The driver awaits nothing, and its client, if it has one, is open. */
  ghost predicate AtRest(s: System) {
    SystemInv(s) && s.awaiting.None? && (s.current.Some? ==> !s.clients[s.current.value].closed)
  }

  /** Releasing the client there is and making new ones until the next is number `id`. */
  lemma {:induction false} NewClients(s: System, id: nat) returns (steps: seq<Step>, t: System)
    requires AtRest(s) && |s.clients| <= id
    ensures History(s, steps, t, []) && AtRest(t) && t.current == Some(id) && |t.clients| == id + 1
    decreases id - |s.clients|
  {
    hide InStep, AllResolved, Deliver;
    StepKeepsInv(s, Release);
    var r := Apply(s, Release);
    assert |r.clients| == |s.clients|;
    OneStep(s, Release);
    StepKeepsInv(r, Create);
    var c := Apply(r, Create);
    OneStep(r, Create);
    Then(s, [Release], r, [], [Create], c, []);
    if |s.clients| == id {
      steps, t := [Release, Create], c;
      assert [Release] + [Create] == steps;
    } else {
      var rest, u := NewClients(c, id);
      Then(s, [Release] + [Create], c, [], rest, u, []);
      steps, t := [Release] + [Create] + rest, u;
    }
  }

  /** The callback by which a prompt that was just sent to client `c` comes to its end. */
  function Callback(c: Client, ends: nat, how: Ending): Event {
    var id := if |c.prompts| > 0 then |c.prompts| - 1 else 0;
    match how
    case Answer => AgentEnd(ends, true)
    case NoText => AgentEnd(ends, false)
    case FailureResponse => Response(id, false)
    case Timeout => TimerFires(id)
    case ProcessFailed => ProcessError
    case WriteFailed => WriteError(id)
    case _ => ProcessClose
  }

  /** The steps of one exchange with the current client. */
  function ExchangeSteps(s: System, accepted: bool, how: Ending): seq<Step>
    requires CanStep(s, Prompted) && s.current.value < |s.ends|
  {
    var id := s.current.value;
    if how == Gone then [Happens(id, ProcessClose), Unavailable]
    else
      [Prompted, Happens(id, Callback(Send(s.clients[id]), s.ends[id], how)), if accepted then Accept else Fail]
  }

  lemma {:induction false} CallbackSettles(c: Client, ends: nat, how: Ending)
    requires InStep(c, ends) && AllResolved(c) && !c.closed
    ensures var p := Send(c); var e := Callback(p, ends, how); var n := |c.prompts|;
            && Enabled(p, e) && (e.AgentEnd? ==> e.line == ends < |p.prompts|)
            && |Deliver(p, e).prompts| == n + 1 && Deliver(p, e).prompts[n].settled.Some?
            && (how == Answer ==> Deliver(p, e).prompts[n].settled.value.Resolved? && !Deliver(p, e).closed)
  {
  }

  /** One exchange: the client is prompted, the prompt settles, and its answer is accepted or the client dropped. */
  lemma {:induction false} ExchangeHappens(s: System, accepted: bool, how: Ending) returns (t: System)
    requires AtRest(s) && s.current.Some? && (accepted ==> how == Answer)
    ensures CanStep(s, Prompted) && s.current.value < |s.ends|
    ensures History(s, ExchangeSteps(s, accepted, how), t, [TranslateBatch.Exchange(s.current.value, accepted)])
    ensures AtRest(t) && |t.clients| == |s.clients| && t.current == if accepted then s.current else None
  {
    hide InStep, AllResolved, Deliver;
    var id := s.current.value;
    if how == Gone {
      var close := Happens(id, ProcessClose);
      StepKeepsInv(s, close);
      OneStep(s, close);
      var u := Apply(s, close);
      Closes(s.clients[id]);
      StepKeepsInv(u, Unavailable);
      OneStep(u, Unavailable);
      t := Apply(u, Unavailable);
      Then(s, [close], u, [], [Unavailable], t, Finished(u, Unavailable));
      assert [close] + [Unavailable] == ExchangeSteps(s, accepted, how);
    } else {
      t := PromptHappens(s, accepted, how);
    }
  }

  lemma {:induction false} Closes(c: Client)
    ensures Deliver(c, ProcessClose).closed
  {
  }

  lemma {:induction false} PromptHappens(s: System, accepted: bool, how: Ending) returns (t: System)
    requires AtRest(s) && s.current.Some? && how != Gone && (accepted ==> how == Answer)
    ensures CanStep(s, Prompted) && s.current.value < |s.ends|
    ensures History(s, ExchangeSteps(s, accepted, how), t, [TranslateBatch.Exchange(s.current.value, accepted)])
    ensures AtRest(t) && |t.clients| == |s.clients| && t.current == if accepted then s.current else None
  {
    hide InStep, AllResolved, Deliver;
    var id := s.current.value;
    CallbackSettles(s.clients[id], s.ends[id], how);
    StepKeepsInv(s, Prompted);
    OneStep(s, Prompted);
    var u := Apply(s, Prompted);
    var settle := Happens(id, Callback(Send(s.clients[id]), s.ends[id], how));
    StepKeepsInv(u, settle);
    OneStep(u, settle);
    var v := Apply(u, settle);
    assert v.clients[id] == Deliver(Send(s.clients[id]), settle.e) && v.awaiting == Some(|s.clients[id].prompts|);
    var end := if accepted then Accept else Fail;
    StepKeepsInv(v, end);
    OneStep(v, end);
    t := Apply(v, end);
    Then(u, [settle], v, [], [end], t, Finished(v, end));
    Then(s, [Prompted], u, [], [settle] + [end], t, [] + Finished(v, end));
    assert [Prompted] + ([settle] + [end]) == ExchangeSteps(s, accepted, how);
    assert [] + ([] + Finished(v, end)) == [TranslateBatch.Exchange(id, accepted)];
  }

  // ---------- whole logs ----------

  /** After a log: its last client is still there if its last answer was accepted. */
  ghost predicate After(s: System, log: Log) {
    && AtRest(s)
    && if log == [] then s == INITIAL
       else
         var last := log[|log| - 1];
         |s.clients| == last.client + 1 && s.current == if last.accepted then Some(last.client) else None
  }

  lemma {:induction false} NothingSent()
    ensures After(INITIAL, []) && History(INITIAL, [], INITIAL, [])
  {
  }

  /**
   Every log of the translator, with any endings that fit it, is the history of a run of the prompt
   clients: every exchange in turn, and no other.
   */
  lemma {:induction false} LogIsHistory(log: Log, endings: seq<Ending>) returns (steps: seq<Step>, t: System)
    requires TranslateBatch.Sequential(log) && |endings| == |log|
    requires forall i | 0 <= i < |log| && log[i].accepted :: endings[i] == Answer
    ensures History(INITIAL, steps, t, log) && After(t, log)
  {
    hide AtRest, History, ExchangeSteps, CanStep, Apply;
    if log == [] {
      NothingSent();
      steps, t := [], INITIAL;
    } else {
      var n := |log| - 1;
      var x := log[n];
      var before, s := LogIsHistory(log[..n], endings[..n]);
      var get, u := ClientFor(s, log[..n], x.client) by {
        if n > 0 {
          assert log[n - 1].client < log[n].client || (log[n - 1].accepted && log[n - 1].client == log[n].client);
        }
      }
      t := ExchangeHappens(u, x.accepted, endings[n]);
      var exchange := ExchangeSteps(u, x.accepted, endings[n]);
      Then(INITIAL, before, s, log[..n], get, u, []);
      Then(INITIAL, before + get, u, log[..n] + [], exchange, t, [x]);
      steps := before + get + exchange;
      assert log[..n] + [] + [x] == log;
    }
  }

  /** `getClient`: the client that is there, or a new one. */
  lemma {:induction false} ClientFor(s: System, log: Log, id: nat) returns (steps: seq<Step>, t: System)
    requires After(s, log)
    requires log == [] || log[|log| - 1].client < id || (log[|log| - 1].accepted && log[|log| - 1].client == id)
    ensures History(s, steps, t, []) && AtRest(t) && t.current == Some(id) && |t.clients| == id + 1
  {
    if log != [] && log[|log| - 1].client == id {
      steps, t := [], s;
    } else {
      steps, t := NewClients(s, id);
    }
  }

  /** So in every run of the translator no prompt gets the answer of another one. */
  lemma {:induction false} TranslatorRunsAreSafe(log: Log, endings: seq<Ending>) returns (states: seq<System>,
                                                 steps: seq<Step>)
    requires TranslateBatch.Sequential(log) && |endings| == |log|
    requires forall i | 0 <= i < |log| && log[i].accepted :: endings[i] == Answer
    ensures IsRun(states, steps) && History(INITIAL, steps, states[|steps|], log)
    ensures forall c, i | 0 <= c < |states[|steps|].clients| && 0 <= i < |states[|steps|].clients[c].prompts| ::
              AnswersItself(states[|steps|].clients[c], i)
  {
    var path, t := LogIsHistory(log, endings);
    steps := path;
    states := HistoryIsRun(INITIAL, steps, t, log);
    forall c, i | 0 <= c < |t.clients| && 0 <= i < |t.clients[c].prompts|
      ensures AnswersItself(t.clients[c], i)
    {
      NoMixedAnswers(states, steps, |steps|, c, i);
    }
  }

  /** A resolved prompt has the text of its own `agent_end` line, and only a client's last prompt may have failed. */
  predicate AnswersItself(c: Client, i: nat)
    requires i < |c.prompts|
  {
    match c.prompts[i].settled
    case None => i == |c.prompts| - 1
    case Some(Resolved(line)) => line == i
    case Some(Rejected) => i == |c.prompts| - 1
  }
}
