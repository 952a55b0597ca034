/** The prompts of a whole sync: its batches are translated one after another over one client access. */
module SyncPrompts {
  import opened Wrappers
  import opened TranslationBatches
  import opened TranslateBatch

  /** The translations of the batches done, the error that ended the run, and the prompts sent. */
  datatype SyncRun = SyncRun(results: seq<Translations>, error: Option<string>, prompts: nat)

  function TranslateEach(batches: seq<Batch>, oracle: Oracle, at: nat): SyncRun
    decreases |batches|
  {
    if batches == [] then SyncRun([], None, 0)
    else
      var first := Translate(batches[0], 0, "", oracle, at);
      match first.result
      case Err(e) => SyncRun([], Some(e), first.prompts)
      case Ok(m) =>
        var rest := TranslateEach(batches[1..], oracle, at + first.prompts);
        SyncRun([m] + rest.results, rest.error, first.prompts + rest.prompts)
  }

  /** The run of all batches, when those before `k` gave `done` with `sent` prompts. */
  ghost predicate Along(whole: SyncRun, batches: seq<Batch>, k: nat, oracle: Oracle, start: nat,
                        done: seq<Translations>, sent: nat)
    requires k <= |batches|
  {
    var rest := TranslateEach(batches[k..], oracle, start + sent);
    whole == SyncRun(done + rest.results, rest.error, sent + rest.prompts)
  }

  lemma {:induction false} AlongStarts(batches: seq<Batch>, oracle: Oracle, start: nat)
    ensures Along(TranslateEach(batches, oracle, start), batches, 0, oracle, start, [], 0)
  {
    var whole := TranslateEach(batches, oracle, start);
    assert batches[0..] == batches && [] + whole.results == whole.results;
  }

  lemma {:induction false} AlongStep(whole: SyncRun, batches: seq<Batch>, k: nat, oracle: Oracle, start: nat,
                                     done: seq<Translations>, sent: nat)
    requires k < |batches| && Along(whole, batches, k, oracle, start, done, sent)
    ensures var first := Translate(batches[k], 0, "", oracle, start + sent);
            if first.result.Err? then whole == SyncRun(done, Some(first.result.error), sent + first.prompts)
            else Along(whole, batches, k + 1, oracle, start, done + [first.result.value], sent + first.prompts)
  {
    hide Translate;
    assert batches[k..][1..] == batches[k + 1..];
    var first := Translate(batches[k], 0, "", oracle, start + sent);
    if first.result.Ok? {
      var rest := TranslateEach(batches[k + 1..], oracle, start + sent + first.prompts);
      assert done + ([first.result.value] + rest.results) == done + [first.result.value] + rest.results;
    } else {
      assert done + [] == done;
    }
  }

  lemma {:induction false} AlongEnds(whole: SyncRun, batches: seq<Batch>, oracle: Oracle, start: nat,
                                     done: seq<Translations>, sent: nat)
    requires Along(whole, batches, |batches|, oracle, start, done, sent)
    ensures whole == SyncRun(done, None, sent)
  {
    assert done + [] == done;
  }

  /** The loop over the batches. */
  method TranslateInTurn(access: ClientAccess, batches: seq<Batch>, oracle: Oracle) returns (r: SyncRun)
    requires access.Valid()
    modifies access
    ensures access.Valid() && old(access.log) <= access.log
    ensures r == TranslateEach(batches, oracle, |old(access.log)|)
    ensures |access.log| == |old(access.log)| + r.prompts
  {
    hide TranslateEach, Translate, Sequential, Disciplined, Along, ClientAccess.Valid, ClientAccess.Settled;
    var start := |access.log|;
    var results: seq<Translations> := [];
    ghost var whole := TranslateEach(batches, oracle, start);
    AlongStarts(batches, oracle, start);
    for k := 0 to |batches|
      invariant access.Valid() && old(access.log) <= access.log
      invariant Along(whole, batches, k, oracle, start, results, |access.log| - start)
    {
      AlongStep(whole, batches, k, oracle, start, results, |access.log| - start);
      var translated := TranslateBatch.TranslateBatch(access, batches[k], oracle);
      if translated.Err? {
        return SyncRun(results, Some(translated.error), |access.log| - start);
      }
      results := results + [translated.value];
    }
    AlongEnds(whole, batches, oracle, start, results, |access.log| - start);
    return SyncRun(results, None, |access.log| - start);
  }

  /** The loop with its `finally`, which drops the client. */
  method TranslateBatches(access: ClientAccess, pending: Batch, budget: real, oracle: Oracle) returns (r: SyncRun)
    requires access.Valid()
    modifies access
    ensures access.Valid() && access.client == None
    ensures old(access.log) <= access.log && Sequential(access.log)
    ensures r == TranslateEach(Batches(pending, budget), oracle, |old(access.log)|)
    ensures |access.log| == |old(access.log)| + r.prompts
    ensures r.prompts <= 4 * |pending| - 2 * |Batches(pending, budget)|
  {
    hide TranslateEach, Batches, Sequential, Disciplined, Partition, Optimal;
    var batches := BuildTranslationBatches(pending, budget);
    SyncBound(pending, budget, oracle, |access.log|);
    r := TranslateInTurn(access, batches, oracle);
    access.ResetClient();
  }

  // ---------- the bound ----------

  /** What a run over non-empty batches sends and returns. */
  lemma {:induction false} EachGuarantees(batches: seq<Batch>, oracle: Oracle, at: nat)
    requires forall b | b in batches :: b != []
    ensures var run := TranslateEach(batches, oracle, at);
            && run.prompts <= 4 * |Concat(batches)| - 2 * |batches|
            && 2 * |batches| <= 2 * |Concat(batches)|
            && |run.results| <= |batches| && (run.error == None <==> |run.results| == |batches|)
            && forall i | 0 <= i < |run.results| :: run.results[i].Keys == KeysOf(batches[i])
    decreases |batches|
  {
    hide Translate, KeysOf, Given;
    if batches != [] {
      assert batches[0] in batches && forall b | b in batches[1..] :: b in batches;
      TranslateBatchGuarantees(batches[0], oracle, at);
      EachGuarantees(batches[1..], oracle, at + Translate(batches[0], 0, "", oracle, at).prompts);
    }
  }

  lemma {:induction false} NoEmptyBatches(pending: Batch, budget: real)
    ensures Concat(Batches(pending, budget)) == pending
    ensures forall b | b in Batches(pending, budget) :: b != []
  {
    hide Chars, Greedy;
    GreedyPartitions(LOOP_EXTRA, [], pending, budget);
    assert [] + pending == pending;
    forall b | b in Batches(pending, budget)
      ensures b != []
    {
      assert Fits(LOOP_EXTRA, b, budget);
    }
  }

  /** A whole sync sends at most four prompts for every pending key, less two for every batch. */
  lemma {:induction false} SyncBound(pending: Batch, budget: real, oracle: Oracle, at: nat)
    ensures var run := TranslateEach(Batches(pending, budget), oracle, at);
            && run.prompts <= 4 * |pending| - 2 * |Batches(pending, budget)|
            && |run.results| <= |Batches(pending, budget)|
            && (run.error == None ==> |run.results| == |Batches(pending, budget)|)
            && forall i | 0 <= i < |run.results| :: run.results[i].Keys == KeysOf(Batches(pending, budget)[i])
  {
    hide TranslateEach, Batches, KeysOf;
    NoEmptyBatches(pending, budget);
    EachGuarantees(Batches(pending, budget), oracle, at);
  }

  // ---------- the bound is reached ----------

  function WorstCases(batches: seq<Batch>, reply: Outcome): (outcomes: seq<Outcome>)
    requires forall b | b in batches :: b != []
    ensures |outcomes| == 4 * |Concat(batches)| - 2 * |batches|
    decreases |batches|
  {
    if batches == [] then []
    else
      assert batches[0] in batches && forall b | b in batches[1..] :: b in batches;
      WorstCase(batches[0], reply) + WorstCases(batches[1..], reply)
  }

  lemma {:induction false} WorstCasesRun(batches: seq<Batch>, answers: map<string, string>, oracle: Oracle, at: nat)
    requires forall b | b in batches :: b != []
    requires forall item | item in Concat(batches) :: Answered(answers, item.key)
    requires Follows(oracle, at, WorstCases(batches, Reply(answers)))
    ensures var run := TranslateEach(batches, oracle, at);
            run.error == None && run.prompts == 4 * |Concat(batches)| - 2 * |batches|
    decreases |batches|
  {
    hide Translate, Answered, WorstCase;
    if batches != [] {
      assert batches[0] in batches && forall b | b in batches[1..] :: b in batches;
      assert forall item | item in batches[0] :: item in Concat(batches);
      assert forall item | item in Concat(batches[1..]) :: item in Concat(batches);
      var first, rest := WorstCase(batches[0], Reply(answers)), WorstCases(batches[1..], Reply(answers));
      assert WorstCases(batches, Reply(answers)) == first + rest;
      FollowsParts(oracle, at, first, rest);
      WorstCaseRun(batches[0], answers, oracle, at);
      WorstCasesRun(batches[1..], answers, oracle, at + |first|);
    }
  }

  /** For all pending items and every budget some sync sends exactly that many prompts and still succeeds. */
  lemma {:induction false} SyncBoundIsTight(pending: Batch, budget: real)
    ensures exists oracle: Oracle ::
      var run := TranslateEach(Batches(pending, budget), oracle, 0);
      run.error == None && run.prompts == 4 * |pending| - 2 * |Batches(pending, budget)|
  {
    hide Batches, WorstCases, TranslateEach, Concat;
    NoEmptyBatches(pending, budget);
    var answers := map item | item in pending :: item.key := "x";
    var outcomes := WorstCases(Batches(pending, budget), Reply(answers));
    var oracle: Oracle := (j: nat) => if j < |outcomes| then outcomes[j] else Failed("");
    WorstCasesRun(Batches(pending, budget), answers, oracle, 0);
  }
}
