/** How a sync ends: when it writes, what it reports, which errors end it, and what its files then hold. */
module LocaleSyncOutcome {
  import opened Wrappers
  import opened TranslationTree
  import opened TranslationBatches
  import opened LocaleSync
  import opened LocaleSyncLaws
  import LocaleSyncTexts
  import Sorting
  import Text

  // ---------- writing and reporting ----------

  /**
   The files are written exactly if something changed, writing was asked for and it was not a check.  Otherwise they are
   left alone; written ones are all four as generated.
   */
  lemma {:induction false} WritesIff(env: Env, clock: string, options: Options, source: Entries, sourceHash: string,
                                     files: Files, translate: Translator)
    requires Sync(env, clock, options, source, sourceHash, files, translate).Ok?
    ensures var r := Sync(env, clock, options, source, sourceHash, files, translate).value;
            && (r.wrote <==> r.changed && options.write && !options.checkOnly)
            && (!r.wrote ==> r.files == files)
            && (r.wrote ==>
                  && r.files != files && r.files.locale.Generated? && r.files.meta.Generated?
                  && r.files.tm.Generated? && r.files.glossary.Generated?)
  {
    hide Flatten, Settle, Replay, RenderTm, NextMeta;
  }

  /**
   A run that may write and does not fail leaves the files it works out, as generated, whether it had to write them or
   not; an absent memory file counts as an empty one.
   */
  lemma {:induction false} LeavesGenerated(env: Env, clock: string, options: Options, source: Entries,
                                           sourceHash: string, files: Files, translate: Translator, done: Work)
    requires Sync(env, clock, options, source, sourceHash, files, translate).Ok? && options.write && !options.checkOnly
    requires var (b, tm) := LoadAll(env, files);
             Settle(env, clock, b, options.force, tm, Flatten(source), translate) == Ok(done)
    ensures var r := Sync(env, clock, options, source, sourceHash, files, translate).value;
            var next := NextFiles(env, clock, files, Flatten(source), sourceHash, done);
            && r.files.locale.Generated? && r.files.meta.Generated? && r.files.glossary.Generated?
            && r.files.locale == next.locale && r.files.meta == next.meta && r.files.glossary == next.glossary
            && (r.files.tm.Generated? || r.files.tm.Missing?) && r.files.tm.Load([]) == next.tm.Load([])
            && r.fallbackCount == |r.files.meta.value.fallbackKeys|
  {
    hide Flatten, Settle, Replay, RenderTm, NextMeta, LoadAll;
  }

  /** A check, and any other run, foretells what a writing run would do: its error, what it counts, and if it writes. */
  lemma {:induction false} CheckForetellsWrite(env: Env, clock: string, check: Options, write: Options, source: Entries,
                                               sourceHash: string, files: Files, translate: Translator)
    requires EnvOk(env) && TranslatorOk(translate) && write.write && !write.checkOnly
    ensures var said := Sync(env, clock, check, source, sourceHash, files, translate);
            var done := Sync(env, clock, write, source, sourceHash, files, translate);
            if said.Err? then done == said
            else && done.Ok? && done.value.changed == said.value.changed
                 && done.value.fallbackCount == said.value.fallbackCount
                 && (done.value.wrote <==> said.value.changed)
  {
    hide EnvOk, TranslatorOk, Flatten, Settle, LoadAll, NextFiles, Same;
    LocaleSyncTexts.ForceIsIdle(env, clock, check, write.force, source, sourceHash, files, translate);
  }

  // ---------- errors ----------

  /** The first batch that fails ends the translation with its error. */
  lemma {:induction false} FirstFailureEnds(env: Env, clock: string, translate: Translator, w: Work,
                                            batches: seq<Batch>, k: nat, e: string)
    requires k < |batches| && translate(batches[k]) == Err(e)
    requires forall j | 0 <= j < k :: translate(batches[j]).Ok?
    ensures TranslateAll(env, clock, translate, w, batches) == Err(e)
    decreases k
  {
    hide StoreAll;
    if k > 0 {
      var next := StoreAll(env, clock, translate(batches[0]).value, w, batches[0]);
      FirstFailureEnds(env, clock, translate, next, batches[1..], k - 1, e);
    }
  }

  lemma {:induction false} NoFailureEnds(env: Env, clock: string, translate: Translator, w: Work, batches: seq<Batch>)
    ensures TranslateAll(env, clock, translate, w, batches).Ok? <==>
      forall k | 0 <= k < |batches| :: translate(batches[k]).Ok?
    decreases |batches|
  {
    hide StoreAll;
    if batches != [] && translate(batches[0]).Ok? {
      NoFailureEnds(env, clock, translate, StoreAll(env, clock, translate(batches[0]).value, w, batches[0]),
                    batches[1..]);
      assert forall k | 1 <= k < |batches| :: batches[k] == batches[1..][k - 1];
    }
  }

  /**
   What a failing batch makes of the sync: an authentication error that may be skipped leaves the files alone and counts
   the fallback keys on record; any other error is thrown.
   */
  lemma {:induction false} FailureIsReported(env: Env, clock: string, options: Options, source: Entries,
                                             sourceHash: string, files: Files, translate: Translator, k: nat, e: string)
    requires env.allowTranslate
    requires var (b, tm) := LoadAll(env, files);
             var batches := LocaleSyncTexts.AskedFor(env, b, tm, Flatten(source));
             k < |batches| && translate(batches[k]) == Err(e) && forall j | 0 <= j < k :: translate(batches[j]).Ok?
    ensures Sync(env, clock, options, source, sourceHash, files, translate) ==
      if env.authSkips(e)
      then Ok(Outcome(files, false, if files.meta.Missing? then 0 else |files.meta.value.fallbackKeys|, false))
      else Err(e)
  {
    hide Flatten, DecideAll, TranslateAll, Batches;
    var (b, tm) := LoadAll(env, files);
    var decided := DecideAll(env, b, Work(map[], [], [], tm), Flatten(source));
    NothingToBatch(env.batchBudget);
    FirstFailureEnds(env, clock, translate, decided, Batches(decided.pending, env.batchBudget), k, e);
  }

  lemma {:induction false} NothingToBatch(budget: real)
    ensures Batches([], budget) == []
  {
  }

  /** Texts whose placeholders do not match those of the source are an error whatever was asked for. */
  lemma {:induction false} MismatchIsReported(env: Env, clock: string, options: Options, source: Entries,
                                              sourceHash: string, files: Files, translate: Translator)
    requires var (b, tm) := LoadAll(env, files);
             var done := Settle(env, clock, b, options.force, tm, Flatten(source), translate);
             done.Ok? && !env.parity(Flatten(source), done.value.next)
    ensures Sync(env, clock, options, source, sourceHash, files, translate) == Err("placeholder mismatch")
  {
  }

  // ---------- items without an answer ----------

  /** An item that is given no text, or an empty one, is passed over. */
  lemma {:induction false} UnansweredIsPassedOver(env: Env, clock: string, translated: map<string, string>, w: Work,
                                                  items: Batch)
    requires forall item | item in items :: item.key in translated ==> translated[item.key] == ""
    ensures StoreAll(env, clock, translated, w, items) == w
    decreases |items|
  {
    if items != [] {
      assert items[0] in items && forall item | item in items[1..] :: item in items;
      UnansweredIsPassedOver(env, clock, translated, w, items[1..]);
    }
  }

  /** It then keeps the text the locale has, and its mark, unless `force` is set; else it gets the source text. */
  lemma {:induction false} PassedOverFallsBack(b: Loaded, force: bool, w: Work, item: Item)
    ensures var v := FallBack(b, force, w, item);
            var kept := Get(b.existing, item.key).Some? && !force;
            && v.tm == w.tm && v.pending == w.pending && item.key in v.next
            && (forall key | key != item.key :: (key in v.next <==> key in w.next)
                                                && (key in w.next ==> v.next[key] == w.next[key]))
            && (if item.key in w.next then v == w
                else && v.next[item.key] == (if kept then Get(b.existing, item.key).value else item.text)
                     && v.fallback == w.fallback + (if !kept || item.key in b.previous then [item.key] else []))
  {
    hide Get;
  }

  // ---------- the memory ----------

  predicate Remembers(e: TmEntry, key: string) {
    e.cacheKey == key && key != "" && Text.Trim(e.translated) != ""
  }

  /** Loading keeps, under each cache key, the last entry that has a text. */
  lemma {:induction false} LastEntryIsKept(lines: seq<TmEntry>, key: string, i: nat)
    requires i < |lines| && Remembers(lines[i], key) && forall j | i < j < |lines| :: !Remembers(lines[j], key)
    ensures Get(LoadTm(lines), key) == Some(lines[i])
  {
    hide Get, Set, Text.Trim;
    var n := |lines| - 1;
    GetAfterSet(LoadTm(lines[..n]), lines[n].cacheKey, lines[n], key);
    if i < n {
      LastEntryIsKept(lines[..n], key, i);
    }
  }

  /** Under a key for which there is none it keeps nothing. */
  lemma {:induction false} NothingElseIsKept(lines: seq<TmEntry>, key: string)
    requires forall i | 0 <= i < |lines| :: !Remembers(lines[i], key)
    ensures Get(LoadTm(lines), key) == None
  {
    if lines != [] {
      hide Get, Set, Text.Trim;
      var n := |lines| - 1;
      NothingElseIsKept(lines[..n], key);
      GetAfterSet(LoadTm(lines[..n]), lines[n].cacheKey, lines[n], key);
    }
  }

  /** The memory is written with every entry once, in the order of the cache keys. */
  lemma {:induction false} RenderedInOrder(tm: Tm, leq: (string, string) -> bool)
    requires Sorting.TotalOrder(leq)
    ensures |RenderTm(tm, leq)| == |tm|
    ensures multiset(RenderTm(tm, leq)) == multiset(seq(|tm|, i requires 0 <= i < |tm| => tm[i].1))
    ensures forall i, j | 0 <= i < j < |tm| :: leq(RenderTm(tm, leq)[i].cacheKey, RenderTm(tm, leq)[j].cacheKey)
  {
    hide Sorting.TotalOrder, Sorting.Sort;
    var values := ValuesOf(tm);
    Sorting.SortSorts(values, KeyOfEntry, leq);
    assert |multiset(values)| == |values|;
    assert |multiset(RenderTm(tm, leq))| == |RenderTm(tm, leq)|;
  }

  /** `e` offers a text for the locale and this text hash. */
  predicate Offers(e: TmEntry, locale: string, hash: string) {
    e.tgtLang == locale && e.textHash == hash && hash != "" && Text.Trim(e.translated) != ""
  }

  /** A text hash finds the last entry of the memory that offers a text for it. */
  lemma {:induction false} LastOfferIsFound(tm: Tm, locale: string, hash: string, i: nat)
    requires i < |tm| && Offers(tm[i].1, locale, hash) && forall j | i < j < |tm| :: !Offers(tm[j].1, locale, hash)
    ensures hash in ByTextHash(tm, locale) && ByTextHash(tm, locale)[hash] == tm[i].1
  {
    hide Text.Trim;
    if i < |tm| - 1 {
      LastOfferIsFound(tm[..|tm| - 1], locale, hash, i);
    }
  }

  /** A text hash for which there is no offer finds nothing. */
  lemma {:induction false} NoOfferIsFound(tm: Tm, locale: string, hash: string)
    requires forall i | 0 <= i < |tm| :: !Offers(tm[i].1, locale, hash)
    ensures hash !in ByTextHash(tm, locale)
  {
    hide Text.Trim;
    if tm != [] {
      NoOfferIsFound(tm[..|tm| - 1], locale, hash);
    }
  }

  // ---------- the meta file and the glossary ----------

  /**
   The meta file names the locale, the source text and the present provider, or the one on record when there is
   none now; it is dated anew exactly if it would say anything else than the one on record.
   */
  lemma {:induction false} MetaSays(env: Env, clock: string, files: Files, source: Flat, sourceHash: string, done: Work)
    ensures var next := NextFiles(env, clock, files, source, sourceHash, done).meta.value;
            && next.locale == env.locale && next.sourceHash == sourceHash && next.workflow == 1
            && next.totalKeys == |source| && next.translatedKeys == |source| - |next.fallbackKeys|
            && (env.allowTranslate ==> next.provider == env.provider && next.model == env.model)
            && (!env.allowTranslate && files.meta.Missing? ==> next.provider == "" && next.model == "")
            && (!env.allowTranslate && !files.meta.Missing? ==>
                  next.provider == files.meta.value.provider && next.model == files.meta.value.model)
            && (if !files.meta.Missing? && files.meta.value.(generatedAt := clock) == next.(generatedAt := clock)
                then next == files.meta.value
                else next.generatedAt == clock)
  {
    hide SortedKeys, Replay, WithTexts, RenderTm;
  }

  /** A glossary with entries is kept as it is; an absent or empty one is replaced by the default. */
  lemma {:induction false} GlossaryIsKept(env: Env, clock: string, files: Files, source: Flat, sourceHash: string,
                                          done: Work)
    ensures var next := NextFiles(env, clock, files, source, sourceHash, done).glossary;
            next == Generated(if files.glossary.Missing? || files.glossary.value == [] then env.defaultGlossary
                              else files.glossary.value)
  {
    hide NextMeta, Replay, WithTexts, RenderTm;
  }
}
