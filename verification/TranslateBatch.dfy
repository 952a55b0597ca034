/**
 The retry-and-split translator: each batch is prompted at most twice, and a batch whose prompt
 timed out is halved.  The replies are an oracle, indexed by the number of the prompt.
 */
module TranslateBatch {
  import opened Wrappers
  import opened TranslationBatches
  import Text

  const TRANSLATE_MAX_ATTEMPTS: nat := 2

  /** What awaiting one prompt and parsing its text ends in: the string members of the object, or a thrown error. */
  datatype Outcome = Reply(answers: map<string, string>) | Failed(message: string)

  type Oracle = nat -> Outcome

  type Translations = map<string, string>

  /** The outcome of a whole call, and how many prompts it sent. */
  datatype Run = Run(result: Result<Translations, string>, prompts: nat)

  function Lower(s: string): string {
    seq(|s|, i requires 0 <= i < |s| => if 'A' <= s[i] <= 'Z' then ((s[i] as int) + 32) as char else s[i])
  }

  /** `isPromptTimeoutError` */
  predicate TimedOut(message: string) {
    Contains(Lower(message), "timed out")
  }

  predicate Contains(s: string, part: string) {
    part <= s || (s != "" && Contains(s[1..], part))
  }

  predicate Answered(answers: map<string, string>, key: string) {
    key in answers && !Text.Blank(answers[key])
  }

  /** Every item must have a non-blank answer; the first that has none is the error. */
  function Accept(items: Batch, answers: map<string, string>): Result<Translations, string> {
    if items == [] then Ok(map[])
    else
      var last := items[|items| - 1];
      match Accept(items[..|items| - 1], answers)
      case Err(e) => Err(e)
      case Ok(m) =>
        if Answered(answers, last.key) then Ok(m[last.key := answers[last.key]])
        else Err("missing translation for " + last.key)
  }

  function Attempt(items: Batch, outcome: Outcome): Result<Translations, string> {
    match outcome
    case Reply(answers) => Accept(items, answers)
    case Failed(message) => Err(message)
  }

  /** The loop over the items of a reply. */
  method ReadAnswers(items: Batch, answers: map<string, string>) returns (r: Result<Translations, string>)
    ensures r == Accept(items, answers)
  {
    var translated: Translations := map[];
    for i := 0 to |items|
      invariant Accept(items[..i], answers) == Ok(translated)
    {
      var item := items[i];
      assert items[..i + 1][..i] == items[..i];
      if item.key !in answers || Text.Blank(answers[item.key]) {
        var e := "missing translation for " + item.key;
        AcceptStops(items, answers, i + 1, e);
        return Err(e);
      }
      translated := translated[item.key := answers[item.key]];
    }
    assert items[..|items|] == items;
    return Ok(translated);
  }

  lemma {:induction false} AcceptStops(items: Batch, answers: map<string, string>, i: nat, e: string)
    requires i <= |items| && Accept(items[..i], answers) == Err(e)
    ensures Accept(items, answers) == Err(e)
    decreases |items| - i
  {
    if i == |items| {
      assert items[..i] == items;
    } else {
      assert items[..i + 1][..i] == items[..i];
      AcceptStops(items, answers, i + 1, e);
    }
  }

  function Midpoint(n: nat): nat {
    (n + 1) / 2
  }

  /** The call from attempt `attempt` on; `at` numbers the next prompt. */
  function Translate(items: Batch, attempt: nat, lastError: string, oracle: Oracle, at: nat): Run
    requires attempt <= TRANSLATE_MAX_ATTEMPTS
    decreases |items|, 1, TRANSLATE_MAX_ATTEMPTS - attempt
  {
    if attempt == TRANSLATE_MAX_ATTEMPTS then Run(Err(lastError), 0)
    else
      match Attempt(items, oracle(at))
      case Ok(m) => Run(Ok(m), 1)
      case Err(e) =>
        if TimedOut(e) && |items| > 1 then
          var halves := Halves(items, oracle, at + 1);
          Run(halves.result, 1 + halves.prompts)
        else if TimedOut(e) then Run(Err(e), 1)
        else
          var again := Translate(items, attempt + 1, e, oracle, at + 1);
          Run(again.result, 1 + again.prompts)
  }

  function Halves(items: Batch, oracle: Oracle, at: nat): Run
    requires |items| > 1
    decreases |items|, 0
  {
    var mid := Midpoint(|items|);
    var left := Translate(items[..mid], 0, "", oracle, at);
    if left.result.Err? then left
    else
      var right := Translate(items[mid..], 0, "", oracle, at + left.prompts);
      Run(if right.result.Err? then right.result else Ok(left.result.value + right.result.value),
          left.prompts + right.prompts)
  }

  // ---------- the client behind the prompts ----------

  /** One prompt: the client it went to, and whether its answer was used. */
  datatype Exchange = Exchange(client: nat, accepted: bool)

  /** No client is prompted again after a prompt of its was rejected or its answer refused. */
  ghost predicate Disciplined(log: seq<Exchange>) {
    forall i, j | 0 <= i < j < |log| && log[i].client == log[j].client :: log[i].accepted
  }

  /** Clients are used in the order they were made, and one is used again only right after an accepted answer. */
  ghost predicate Sequential(log: seq<Exchange>) {
    forall i | 0 <= i < |log| - 1 ::
      log[i].client < log[i + 1].client || (log[i].accepted && log[i].client == log[i + 1].client)
  }

  /** `getClient` and `resetClient`, over clients numbered in creation order. */
  class ClientAccess {
    var client: Option<nat>
    var created: nat
    var log: seq<Exchange>

    constructor ()
      ensures Valid() && log == []
    {
      client := None;
      created := 0;
      log := [];
    }

    ghost predicate Valid()
      reads this
    {
      && Settled()
      && (client.Some? ==> forall i | 0 <= i < |log| && log[i].client == client.value :: log[i].accepted)
    }

    /** `Valid` up to a current client that still has to be dropped. */
    ghost predicate Settled()
      reads this
    {
      && Disciplined(log) && Sequential(log)
      && (forall i | 0 <= i < |log| :: log[i].client < created)
      && (client.Some? ==> client.value < created && forall i | 0 <= i < |log| :: log[i].client <= client.value)
    }

    method GetClient() returns (id: nat)
      requires Valid()
      modifies this`client, this`created
      ensures Valid() && client == Some(id) && log == old(log)
      ensures old(client).Some? ==> id == old(client).value && created == old(created)
      ensures old(client).None? ==> id == old(created) && created == old(created) + 1
    {
      if client == None {
        client := Some(created);
        created := created + 1;
      }
      id := client.value;
    }

    method ResetClient()
      requires Settled()
      modifies this`client
      ensures Valid() && client == None
    {
      client := None;
    }

    /** The bookkeeping of one prompt to the current client. */
    method Record(accepted: bool)
      requires Valid() && client.Some?
      modifies this`log
      ensures log == old(log) + [Exchange(client.value, accepted)]
      ensures Settled() && (accepted ==> Valid())
    {
      log := log + [Exchange(client.value, accepted)];
    }
  }

  lemma {:induction false} TranslateStep(items: Batch, attempt: nat, lastError: string, oracle: Oracle, at: nat)
    requires attempt <= TRANSLATE_MAX_ATTEMPTS
    ensures Translate(items, attempt, lastError, oracle, at) ==
      if attempt == TRANSLATE_MAX_ATTEMPTS then Run(Err(lastError), 0)
      else match Attempt(items, oracle(at))
           case Ok(m) => Run(Ok(m), 1)
           case Err(e) =>
             if TimedOut(e) && |items| > 1
                 then Run(Halves(items, oracle, at + 1).result, 1 + Halves(items, oracle, at + 1).prompts)
             else if TimedOut(e) then Run(Err(e), 1)
             else Run(Translate(items, attempt + 1, e, oracle, at + 1).result, 1
                 + Translate(items, attempt + 1, e, oracle, at + 1).prompts)
  {
  }

  /** The `try` of one attempt: a prompt to the current client, which is dropped if the prompt or its answer fails. */
  method PromptOnce(access: ClientAccess, items: Batch, outcome: Outcome) returns (r: Result<Translations, string>)
    requires access.Valid()
    modifies access
    ensures r == Attempt(items, outcome)
    ensures access.Valid() && Sequential(access.log) && (r.Err? ==> access.client == None)
    ensures old(access.log) < access.log && |access.log| == |old(access.log)| + 1
    ensures var client := if old(access.client).Some? then old(access.client.value) else old(access.created);
            access.log[|old(access.log)|] == Exchange(client, r.Ok?)
  {
    hide Accept, Disciplined, Sequential;
    var _ := access.GetClient();
    match outcome {
      case Reply(answers) => r := ReadAnswers(items, answers);
      case Failed(message) => r := Err(message);
    }
    access.Record(r.Ok?);
    if r.Err? {
      access.ResetClient();
    }
  }

  method TranslateBatch(access: ClientAccess, items: Batch, oracle: Oracle) returns (r: Result<Translations, string>)
    requires access.Valid()
    modifies access
    ensures access.Valid() && old(access.log) <= access.log && Sequential(access.log)
    ensures var run := Translate(items, 0, "", oracle, |old(access.log)|);
            r == run.result && |access.log| == |old(access.log)| + run.prompts
    decreases |items|
  {
    hide TimedOut, Attempt, Disciplined, Sequential, Translate, ClientAccess.Valid, ClientAccess.Settled;
    ghost var start := |access.log|;
    var lastError := "";
    for attempt := 0 to TRANSLATE_MAX_ATTEMPTS
      invariant access.Valid() && old(access.log) <= access.log && (attempt > 0 ==> Sequential(access.log))
      invariant var rest := Translate(items, attempt, lastError, oracle, |access.log|);
                Translate(items, 0, "", oracle, start) == Run(rest.result, |access.log| - start + rest.prompts)
    {
      TranslateStep(items, attempt, lastError, oracle, |access.log|);
      var translated := PromptOnce(access, items, oracle(|access.log|));
      if translated.Ok? {
        return translated;
      }
      lastError := translated.error;
      if TimedOut(lastError) && |items| > 1 {
        var mid := Midpoint(|items|);
        var left :- TranslateBatch(access, items[..mid], oracle);
        var right :- TranslateBatch(access, items[mid..], oracle);
        return Ok(left + right);
      }
      if TimedOut(lastError) {
        break;
      }
    }
    TranslateStep(items, TRANSLATE_MAX_ATTEMPTS, lastError, oracle, |access.log|);
    return Err(lastError);
  }

  // ---------- what a run guarantees ----------

  function KeysOf(items: Batch): set<string> {
    set item | item in items :: item.key
  }

  lemma {:induction false} KeysOfAppend(items: Batch, item: Item)
    ensures KeysOf(items + [item]) == KeysOf(items) + {item.key}
  {
    assert forall x | x in items + [item] :: x in items || x == item;
    assert (items + [item])[|items|] == item;
    assert forall x | x in items :: x in items + [item];
  }

  lemma {:induction false} KeysOfConcat(a: Batch, b: Batch)
    ensures KeysOf(a + b) == KeysOf(a) + KeysOf(b)
  {
    if b == [] {
      assert a + b == a;
    } else {
      var n := |b| - 1;
      KeysOfConcat(a, b[..n]);
      KeysOfAppend(a + b[..n], b[n]);
      KeysOfAppend(b[..n], b[n]);
      assert a + b == a + b[..n] + [b[n]] && b == b[..n] + [b[n]];
    }
  }

  lemma {:induction false} AcceptKeys(items: Batch, answers: map<string, string>)
    requires Accept(items, answers).Ok?
    ensures var m := Accept(items, answers).value;
            m.Keys == KeysOf(items) && forall key | key in m :: Answered(answers, key) && m[key] == answers[key]
  {
    hide Answered, KeysOf;
    if items == [] {
      NoKeys();
    } else {
      var n := |items| - 1;
      AcceptKeys(items[..n], answers);
      KeysOfAppend(items[..n], items[n]);
      assert items == items[..n] + [items[n]];
    }
  }

  lemma {:induction false} NoKeys()
    ensures KeysOf([]) == {}
  {
  }

  /** The value of `key` was given in the reply to one of the prompts `from` to `to`, and is not blank. */
  ghost predicate Given(oracle: Oracle, from: nat, to: nat, key: string, value: string) {
    exists j | from <= j < to :: Gives(oracle(j), key, value)
  }

  ghost predicate Gives(outcome: Outcome, key: string, value: string) {
    outcome.Reply? && Answered(outcome.answers, key) && outcome.answers[key] == value
  }

  lemma {:induction false} GivenWider(oracle: Oracle, from: nat, to: nat, from': nat, to': nat, key: string,
                                      value: string)
    requires from' <= from && to <= to' && Given(oracle, from, to, key, value)
    ensures Given(oracle, from', to', key, value)
  {
    var j :| from <= j < to && Gives(oracle(j), key, value);
    assert from' <= j < to' && Gives(oracle(j), key, value);
  }

  /** A successful result has exactly the items' keys, each with an answer given to one of the run's prompts. */
  ghost predicate Sound(items: Batch, run: Run, oracle: Oracle, at: nat) {
    run.result.Ok? ==>
      && run.result.value.Keys == KeysOf(items)
      && forall key | key in run.result.value :: Given(oracle, at, at + run.prompts, key, run.result.value[key])
  }

  /** Prompt bound and meaning of the result, from any attempt on. */
  lemma {:induction false} RunGuarantees(items: Batch, attempt: nat, lastError: string, oracle: Oracle, at: nat)
    requires items != [] && attempt <= TRANSLATE_MAX_ATTEMPTS
    ensures var run := Translate(items, attempt, lastError, oracle, at);
            run.prompts <= 4 * |items| - 2 - attempt && Sound(items, run, oracle, at)
    decreases |items|, 1, TRANSLATE_MAX_ATTEMPTS - attempt
  {
    hide TimedOut, Accept, KeysOf, Given;
    if attempt < TRANSLATE_MAX_ATTEMPTS {
      var run := Translate(items, attempt, lastError, oracle, at);
      match Attempt(items, oracle(at))
      case Ok(m) =>
        AcceptSound(items, oracle, at);
      case Err(e) =>
        if TimedOut(e) && |items| > 1 {
          HalvesGuarantee(items, oracle, at + 1);
          SoundLater(items, Halves(items, oracle, at + 1), oracle, at);
        } else if !TimedOut(e) {
          RunGuarantees(items, attempt + 1, e, oracle, at + 1);
          SoundLater(items, Translate(items, attempt + 1, e, oracle, at + 1), oracle, at);
        }
    }
  }

  lemma {:induction false} AcceptSound(items: Batch, oracle: Oracle, at: nat)
    requires Attempt(items, oracle(at)).Ok?
    ensures Sound(items, Run(Attempt(items, oracle(at)), 1), oracle, at)
  {
    AcceptKeys(items, oracle(at).answers);
    var m := Attempt(items, oracle(at)).value;
    assert forall key | key in m :: Gives(oracle(at), key, m[key]);
  }

  lemma {:induction false} SoundLater(items: Batch, run: Run, oracle: Oracle, at: nat)
    requires Sound(items, run, oracle, at + 1)
    ensures Sound(items, Run(run.result, 1 + run.prompts), oracle, at)
  {
    if run.result.Ok? {
      forall key | key in run.result.value
        ensures Given(oracle, at, at + 1 + run.prompts, key, run.result.value[key])
      {
        GivenWider(oracle, at + 1, at + 1 + run.prompts, at, at + 1 + run.prompts, key, run.result.value[key]);
      }
    }
  }

  lemma {:induction false} HalvesGuarantee(items: Batch, oracle: Oracle, at: nat)
    requires |items| > 1
    ensures var run := Halves(items, oracle, at);
            run.prompts <= 4 * |items| - 4 && Sound(items, run, oracle, at)
    decreases |items|, 0
  {
    hide Translate, KeysOf, Given;
    var mid := Midpoint(|items|);
    var a, b := items[..mid], items[mid..];
    var left := Translate(a, 0, "", oracle, at);
    var right := Translate(b, 0, "", oracle, at + left.prompts);
    RunGuarantees(a, 0, "", oracle, at);
    RunGuarantees(b, 0, "", oracle, at + left.prompts);
    if left.result.Ok? && right.result.Ok? {
      assert items == a + b;
      KeysOfConcat(a, b);
      var end := at + left.prompts + right.prompts;
      var merged := left.result.value + right.result.value;
      forall key | key in merged
        ensures Given(oracle, at, end, key, merged[key])
      {
        if key in right.result.value {
          GivenWider(oracle, at + left.prompts, end, at, end, key, merged[key]);
        } else {
          GivenWider(oracle, at, at + left.prompts, at, end, key, merged[key]);
        }
      }
    }
  }

  /** At most 4n - 2 prompts for n items, in every run; and a returned map is exactly a translation of the items. */
  lemma {:induction false} TranslateBatchGuarantees(items: Batch, oracle: Oracle, at: nat)
    requires items != []
    ensures var run := Translate(items, 0, "", oracle, at);
            run.prompts <= 4 * |items| - 2 && Sound(items, run, oracle, at)
  {
    RunGuarantees(items, 0, "", oracle, at);
  }

  // ---------- the bound is reached ----------

  /** Every batch fails once and then times out, down to single items, which answer at the second attempt. */
  function WorstCase(items: Batch, reply: Outcome): (outcomes: seq<Outcome>)
    requires items != []
    ensures |outcomes| == 4 * |items| - 2
    decreases |items|
  {
    if |items| == 1 then [Failed(""), reply]
    else
      var mid := Midpoint(|items|);
      [Failed(""), Failed("timed out")] + WorstCase(items[..mid], reply) + WorstCase(items[mid..], reply)
  }

  ghost predicate Follows(oracle: Oracle, at: nat, outcomes: seq<Outcome>) {
    forall j | at <= j < at + |outcomes| :: oracle(j) == outcomes[j - at]
  }

  lemma {:induction false} TimeoutMessages()
    ensures TimedOut("timed out") && !TimedOut("")
  {
    assert Lower("timed out") == "timed out";
  }

  lemma {:induction false} WorstCaseRun(items: Batch, answers: map<string, string>, oracle: Oracle, at: nat)
    requires items != [] && (forall item | item in items :: Answered(answers, item.key))
    requires Follows(oracle, at, WorstCase(items, Reply(answers)))
    ensures var run := Translate(items, 0, "", oracle, at);
            run.result.Ok? && run.prompts == 4 * |items| - 2
    decreases |items|, 1
  {
    hide TimedOut, Answered, Accept, WorstCase, Translate, Halves, Follows;
    var outcomes := WorstCase(items, Reply(answers));
    WorstCaseShape(items, Reply(answers));
    FollowsAt(oracle, at, outcomes, 0);
    FollowsAt(oracle, at, outcomes, 1);
    TimeoutMessages();
    TranslateStep(items, 0, "", oracle, at);
    TranslateStep(items, 1, "", oracle, at + 1);
    if |items| == 1 {
      AcceptAll(items, answers);
    } else {
      var mid := Midpoint(|items|);
      var left, right := WorstCase(items[..mid], Reply(answers)), WorstCase(items[mid..], Reply(answers));
      FollowsParts(oracle, at, [Failed(""), Failed("timed out")], left + right);
      FollowsParts(oracle, at + 2, left, right);
      WorstCaseHalves(items, answers, oracle, at + 2);
    }
  }

  lemma {:induction false} WorstCaseHalves(items: Batch, answers: map<string, string>, oracle: Oracle, at: nat)
    requires |items| > 1 && (forall item | item in items :: Answered(answers, item.key))
    requires var mid := Midpoint(|items|);
             var left, right := WorstCase(items[..mid], Reply(answers)), WorstCase(items[mid..], Reply(answers));
             Follows(oracle, at, left) && Follows(oracle, at + |left|, right)
    ensures Halves(items, oracle, at).result.Ok? && Halves(items, oracle, at).prompts == 4 * |items| - 4
    decreases |items|, 0
  {
    hide Answered, WorstCase, Translate, Follows;
    var mid := Midpoint(|items|);
    var a, b := items[..mid], items[mid..];
    WorstCaseRun(a, answers, oracle, at);
    WorstCaseRun(b, answers, oracle, at + |WorstCase(a, Reply(answers))|);
  }

  lemma {:induction false} FollowsAt(oracle: Oracle, at: nat, outcomes: seq<Outcome>, j: nat)
    requires Follows(oracle, at, outcomes) && j < |outcomes|
    ensures oracle(at + j) == outcomes[j]
  {
  }

  /** An oracle that follows two lists in turn follows each from its own place. */
  lemma {:induction false} FollowsParts(oracle: Oracle, at: nat, a: seq<Outcome>, b: seq<Outcome>)
    requires Follows(oracle, at, a + b)
    ensures Follows(oracle, at, a) && Follows(oracle, at + |a|, b)
  {
    forall j | at <= j < at + |a| ensures oracle(j) == a[j - at] {
      FollowsAt(oracle, at, a + b, j - at);
    }
    forall j | at + |a| <= j < at + |a| + |b| ensures oracle(j) == b[j - at - |a|] {
      FollowsAt(oracle, at, a + b, j - at);
    }
  }

  lemma {:induction false} WorstCaseShape(items: Batch, reply: Outcome)
    requires items != []
    ensures WorstCase(items, reply) ==
      if |items| == 1 then [Failed(""), reply]
      else [Failed(""), Failed("timed out")]
           + (WorstCase(items[..Midpoint(|items|)], reply) + WorstCase(items[Midpoint(|items|)..], reply))
  {
  }

  lemma {:induction false} AcceptAll(items: Batch, answers: map<string, string>)
    requires forall item | item in items :: Answered(answers, item.key)
    ensures Accept(items, answers).Ok?
  {
    if items != [] {
      AcceptAll(items[..|items| - 1], answers);
      assert items[|items| - 1] in items;
    }
  }

  /** For every batch there is a run that sends exactly 4n - 2 prompts and still succeeds. */
  lemma {:induction false} PromptBoundIsTight(items: Batch)
    requires items != []
    ensures exists oracle: Oracle :: var run := Translate(items, 0, "", oracle, 0);
                                     run.result.Ok? && run.prompts == 4 * |items| - 2
  {
    hide Translate, WorstCase;
    var answers := map item | item in items :: item.key := "x";
    var outcomes := WorstCase(items, Reply(answers));
    var oracle: Oracle := (j: nat) => if j < |outcomes| then outcomes[j] else Failed("");
    WorstCaseRun(items, answers, oracle, 0);
  }
}
