/**
 Exactly when a later sync, under another configuration, leaves the files of an earlier one alone: a
 provider may have come or gone, and with it the cache keys may have changed.
 */
module LocaleSyncRuns {
  import opened Wrappers
  import opened TranslationTree
  import opened TranslationBatches
  import opened LocaleSync
  import opened LocaleSyncLaws
  import opened LocaleSyncTexts
  import Text

  ghost predicate AllStay(env: Env, files: Files, source: Flat) {
    var (b, tm) := LoadAll(env, files);
    forall p | p in source :: Stays(env, b, tm, p)
  }

  lemma {:induction false} SameTextsRead(source: Entries, a: map<string, string>, b: map<string, string>, p: Pair)
    requires Proper(source) && p in Flatten(source) && p.0 in a && p.0 in b
    requires Replay([], WithTexts(Flatten(source), TextFor(a))) == Replay([], WithTexts(Flatten(source), TextFor(b)))
    ensures a[p.0] == b[p.0]
  {
    hide Flatten, Replay, Get, DistinctKeys, WithTexts;
    RebuildWithTexts(source, TextFor(a));
    RebuildWithTexts(source, TextFor(b));
    FlattenIsDistinct(source);
    ExistingTexts(Flatten(source), a, p);
    ExistingTexts(Flatten(source), b, p);
  }

  /** The end state of the pair is the one that was loaded, so the pair had no reason to change. */
  lemma {:induction false} PlacedWhereItWas(env: Env, clock: string, b: Loaded, tm: Tm, translate: Translator,
                                            batches: seq<Batch>, p: Pair, v: View)
    requires Placed(env, clock, b, tm, translate, batches, p, v)
    requires Get(b.existing, p.0).Some? && v.text == Get(b.existing, p.0)
    requires v.falls <==> p.0 in b.previous
    requires env.allowTranslate ==> !v.falls
    ensures Stays(env, b, tm, p)
  {
    hide Get, TranslatedIn;
  }

  /** What the files say when a later run has changed nothing. */
  lemma {:induction false} SameFilesSay(env: Env, clock: string, files: Files, source: Entries, sourceHash: string,
                                        done: Work, next: Files)
    requires EnvOk(env) && next.meta.Generated?
        && Same(next, NextFiles(env, clock, next, Flatten(source), sourceHash, done))
    ensures next.locale == Generated(Replay([], WithTexts(Flatten(source), TextFor(done.next))))
    ensures forall key :: key in next.meta.value.fallbackKeys <==> key in done.fallback
    ensures SameProvider(env, next)
  {
    hide SortedKeys, Replay, WithTexts, RenderTm, Flatten;
    SortedKeysMembers(done.fallback, env.localeLeq);
  }

  /** A later run that changes nothing found every pair to stay, and its provider on record. */
  lemma {:induction false} AllStayIfUnchanged(env: Env, clock: string, source: Entries, sourceHash: string,
                                              files: Files, force: bool, translate: Translator, done: Work,
                                              next: Files, env': Env, clock': string, options: Options,
                                              translate': Translator)
    requires Synced(env, clock, source, sourceHash, files, force, translate, done, next)
    requires SameProject(env, env') && EnvOk(env') && TranslatorOk(translate')
    requires var (b2, tm2) := LoadAll(env', next);
             Settle(env', clock', b2, options.force, tm2, Flatten(source), translate').Ok?
    requires Sync(env', clock', options, source, sourceHash, next, translate') == Unchanged(next)
    ensures AllStay(env', next, Flatten(source)) && SameProvider(env', next)
  {
    hide Flatten, Proper, Settle, LoadAll, DistinctKeys, NextFiles, TranslatorOk, Stays, Done, MemoryOk, Placed, Same,
      EnvOk,
      Get, SourceKeys, TextFor, WithTexts, Replay;
    var flat := Flatten(source);
    var (b, tm) := LoadAll(env, files);
    SyncedMeans(env, clock, source, sourceHash, files, force, translate, done, next);
    Reloaded(env, source, sourceHash, clock, files, b, done);
    LoadsAlike(env, env', next);
    var (b2, tm2) := LoadAll(env', next);
    var again := Settle(env', clock', b2, options.force, tm2, flat, translate').value;
    LoadedMemoryOk(env', next);
    SettleEstablishes(env', clock', b2, options.force, tm2, flat, translate');
    InvIsSettled(env', b2, again, flat);
    SameFilesSay(env', clock', files, source, sourceHash, again, next);
    NextLocale(env, clock, files, flat, sourceHash, done);
    PreviousAre(env', next);
    forall p | p in flat
      ensures Stays(env', b2, tm2, p)
    {
      InSourceKeys(flat, p);
      TextOrigins(env', clock', b2, options.force, tm2, flat, translate', p);
      SameTextsRead(source, done.next, again.next, p);
      ExistingTexts(flat, done.next, p);
      PlacedWhereItWas(env', clock', b2, tm2, translate', AskedFor(env', b2, tm2, flat), p, ViewOf(env', again, p));
    }
  }

  lemma {:induction false} InSourceKeys(source: Flat, p: Pair)
    requires p in source
    ensures p.0 in SourceKeys(source)
  {
  }

  lemma {:induction false} NextLocale(env: Env, clock: string, files: Files, source: Flat, sourceHash: string,
                                      done: Work)
    ensures NextFiles(env, clock, files, source, sourceHash, done).locale
         == Generated(Replay([], WithTexts(source, TextFor(done.next))))
  {
    hide Replay, WithTexts, RenderTm;
  }

  lemma {:induction false} PreviousAre(env: Env, files: Files)
    requires files.meta.Generated?
    ensures LoadAll(env, files).0.previous == files.meta.value.fallbackKeys
  {
  }

  /**
   Exactly when a later successful run under another configuration changes nothing: every pair stays,
   and a provider, if there is one, is the one on record.
   */
  lemma {:induction false} UnchangedIff(env: Env, clock: string, source: Entries, sourceHash: string, files: Files,
                                        force: bool, translate: Translator, done: Work, next: Files, env': Env,
                                        clock': string, options: Options, translate': Translator)
    requires Synced(env, clock, source, sourceHash, files, force, translate, done, next)
    requires SameProject(env, env') && EnvOk(env') && TranslatorOk(translate')
    requires var (b2, tm2) := LoadAll(env', next);
             Settle(env', clock', b2, options.force, tm2, Flatten(source), translate').Ok?
    ensures Sync(env', clock', options, source, sourceHash, next, translate') == Unchanged(next)
       <==> AllStay(env', next, Flatten(source)) && SameProvider(env', next)
  {
    hide Sync, LoadAll, Settle, EnvOk, TranslatorOk, Flatten, Stays;
    if AllStay(env', next, Flatten(source)) && SameProvider(env', next) {
      UnchangedIfAllStay(env, clock, source, sourceHash, files, force, translate, done, next, env', clock', options,
          translate');
    }
    if Sync(env', clock', options, source, sourceHash, next, translate') == Unchanged(next) {
      AllStayIfUnchanged(env, clock, source, sourceHash, files, force, translate, done, next, env', clock', options,
          translate');
    }
  }

  // ---------- the provider comes ----------

  lemma {:induction false} StaysWithProviderIff(env: Env, clock: string, source: Entries, sourceHash: string,
                                                files: Files, force: bool, translate: Translator, done: Work,
                                                next: Files)
    requires Synced(env, clock, source, sourceHash, files, force, translate, done, next)
    ensures AllStay(env.(allowTranslate := true), next, Flatten(source)) <==> next.meta.value.fallbackKeys == []
  {
    hide Flatten, Proper, Settle, LoadAll, DistinctKeys, NextFiles, TranslatorOk, MemoryOk, EnvOk, Get, WithTexts,
      TextFor;
    var flat := Flatten(source);
    var (b, tm) := LoadAll(env, files);
    SyncedMeans(env, clock, source, sourceHash, files, force, translate, done, next);
    Reloaded(env, source, sourceHash, clock, files, b, done);
    var env' := env.(allowTranslate := true);
    LoadsAlike(env, env', next);
    var (b2, tm2) := LoadAll(env', next);
    PreviousAre(env', next);
    KeysHavePairs(flat);
    if next.meta.value.fallbackKeys != [] {
      var key := next.meta.value.fallbackKeys[0];
      assert key in b2.previous && key in done.fallback;
      var p :| p in flat && p.0 == key;
      assert !Stays(env', b2, tm2, p);
    } else {
      forall p | p in flat
        ensures Stays(env', b2, tm2, p)
      {
        ExistingTexts(flat, done.next, p);
      }
    }
  }

  /**
   After a sync, a run of the same configuration with its provider changes nothing if and only if no
   key had fallen back and the provider and model are those on record.
   */
  lemma {:induction false} ProviderComesIff(env: Env, clock: string, source: Entries, sourceHash: string,
                                            files: Files, force: bool, translate: Translator, done: Work, next: Files,
                                            clock': string, options: Options, translate': Translator)
    requires Synced(env, clock, source, sourceHash, files, force, translate, done, next) && TranslatorOk(translate')
    requires var env' := env.(allowTranslate := true);
             var (b2, tm2) := LoadAll(env', next);
             Settle(env', clock', b2, options.force, tm2, Flatten(source), translate').Ok?
    ensures Sync(env.(allowTranslate := true), clock', options, source, sourceHash, next, translate') == Unchanged(next)
       <==> next.meta.value.fallbackKeys == []
            && next.meta.value.provider == env.provider && next.meta.value.model == env.model
  {
    hide Sync, Settle, LoadAll, Flatten, AllStay, TranslatorOk, Proper;
    var env' := env.(allowTranslate := true);
    StaysWithProviderIff(env, clock, source, sourceHash, files, force, translate, done, next);
    UnchangedIff(env, clock, source, sourceHash, files, force, translate, done, next, env', clock', options,
        translate');
  }

  // ---------- the provider goes, and the cache keys change with it ----------

  /** Under the cache keys of `env` the memory holds no text but the one in the locale file. */
  ghost predicate MemoryAgrees(env: Env, files: Files, source: Flat) {
    var (b, tm) := LoadAll(env, files);
    forall p | p in source && Get(tm, CacheKeyOf(env, p)).Some? ::
      Get(b.existing, p.0) == Some(Get(tm, CacheKeyOf(env, p)).value.translated)
  }

  /**
   After a sync that left no fallbacks, as every sync with a provider does, a run without a provider
   under other cache keys changes nothing if and only if the memory holds no other text under these.
   */
  lemma {:induction false} OtherCacheKeysIff(env: Env, clock: string, source: Entries, sourceHash: string,
                                             files: Files, force: bool, translate: Translator, done: Work,
                                             next: Files, env': Env, clock': string, options: Options,
                                             translate': Translator)
    requires Synced(env, clock, source, sourceHash, files, force, translate, done, next) && TranslatorOk(translate')
    requires SameProject(env, env') && EnvOk(env') && !env'.allowTranslate && next.meta.value.fallbackKeys == []
    ensures Sync(env', clock', options, source, sourceHash, next, translate') == Unchanged(next)
       <==> MemoryAgrees(env', next, Flatten(source))
  {
    hide Sync, LoadAll, Flatten, TranslatorOk, Proper, DecideAll, FallBackAll, Get, EnvOk, DistinctKeys, Done, MemoryOk,
      NextFiles, WithTexts, Settled;
    var flat := Flatten(source);
    var (b, tm) := LoadAll(env, files);
    SyncedMeans(env, clock, source, sourceHash, files, force, translate, done, next);
    Reloaded(env, source, sourceHash, clock, files, b, done);
    LoadsAlike(env, env', next);
    PreviousAre(env', next);
    forall p | p in flat
      ensures Get(LoadAll(env', next).0.existing, p.0).Some?
    {
      ExistingTexts(flat, done.next, p);
    }
    UnchangedIff(env, clock, source, sourceHash, files, force, translate, done, next, env', clock', options,
        translate');
  }

  /** A sync with a provider leaves no fallbacks. */
  lemma {:induction false} ProviderLeavesNoFallbacks(env: Env, clock: string, source: Entries, sourceHash: string,
                                                     files: Files, force: bool, translate: Translator, done: Work,
                                                     next: Files)
    requires Synced(env, clock, source, sourceHash, files, force, translate, done, next) && env.allowTranslate
    ensures next.meta.value.fallbackKeys == []
  {
    hide Flatten, Proper, Settle, LoadAll, DistinctKeys, TranslatorOk, MemoryOk, Done, EnvOk, Replay, WithTexts,
      RenderTm;
    SyncedMeans(env, clock, source, sourceHash, files, force, translate, done, next);
    assert done.fallback == [];
    assert Dedupe([]) == [];
  }

  // ---------- inputs on which the second run does change the files ----------

  const ONE_KEY: Entries := [("k", Leaf("new"))]
  const NO_FILES := Files(Missing, Missing, Missing, Missing)

  lemma {:induction false} OneKey()
    ensures Flatten(ONE_KEY) == [("k", "new")] && Proper(ONE_KEY)
  {
    OneText("new");
    assert KeyOk("k") && ProperEntry(ONE_KEY[0]);
  }

  /** One key, no files, no provider: the key falls back.  A later run with a provider, if it succeeds, changes that. */
  lemma {:induction false} FallbackIsRefreshed(env: Env, clock: string, sourceHash: string, translate: Translator,
                                               clock': string, options: Options, translate': Translator)
    requires EnvOk(env) && !env.allowTranslate && TranslatorOk(translate) && TranslatorOk(translate')
    requires env.parity([("k", "new")], map["k" := "new"])
    ensures var done := Work(map["k" := "new"], [ItemOf(env, ("k", "new"))], ["k"], []);
            var next := NextFiles(env, clock, NO_FILES, Flatten(ONE_KEY), sourceHash, done);
            var env' := env.(allowTranslate := true);
            var (b2, tm2) := LoadAll(env', next);
            && Synced(env, clock, ONE_KEY, sourceHash, NO_FILES, false, translate, done, next)
            && next.meta.value.fallbackKeys == ["k"]
            && (Settle(env', clock', b2, options.force, tm2, Flatten(ONE_KEY), translate').Ok? ==>
                  Sync(env', clock', options, ONE_KEY, sourceHash, next, translate') != Unchanged(next))
  {
    hide EnvOk, TranslatorOk, Proper, Flatten, Sync, Settle, LoadAll, SortedKeys, Replay, RenderTm;
    OneKey();
    OneKeyFallsBack(env, clock, translate);
    OneKeySorted(env);
    var done := Work(map["k" := "new"], [ItemOf(env, ("k", "new"))], ["k"], []);
    var next := NextFiles(env, clock, NO_FILES, Flatten(ONE_KEY), sourceHash, done);
    var env' := env.(allowTranslate := true);
    var (b2, tm2) := LoadAll(env', next);
    if Settle(env', clock', b2, options.force, tm2, Flatten(ONE_KEY), translate').Ok? {
      ProviderComesIff(env, clock, ONE_KEY, sourceHash, NO_FILES, false, translate, done, next, clock', options,
        translate');
    }
  }

  /** The loops of a first run without provider or files. */
  lemma {:induction false} OneKeyFallsBack(env: Env, clock: string, translate: Translator)
    requires !env.allowTranslate
    ensures var (b, tm) := LoadAll(env, NO_FILES);
            Settle(env, clock, b, false, tm, [("k", "new")], translate)
              == Ok(Work(map["k" := "new"], [ItemOf(env, ("k", "new"))], ["k"], []))
  {
    hide LoadAll, Decide, FallBack;
    var (b, tm) := LoadAll(env, NO_FILES);
    var flat := [("k", "new")];
    var item := ItemOf(env, ("k", "new"));
    var start, decided := Work(map[], [], [], tm), Work(map[], [item], [], tm);
    NothingLoaded(env);
    assert start.pending + [item] == [item] && decided.fallback + ["k"] == ["k"];
    UnknownIsPending(env, b, start, ("k", "new"));
    assert flat[1..] == [] && DecideAll(env, b, decided, []) == decided;
    UnknownIsEnglish(b, decided, item);
    var done := FallBack(b, false, decided, item);
    assert [item][1..] == [] && FallBackAll(b, false, done, []) == done;
  }

  lemma {:induction false} UnknownIsPending(env: Env, b: Loaded, w: Work, p: Pair)
    requires !env.allowTranslate && b.existing == [] && b.byHash == map[] && w.tm == []
    ensures Decide(env, b, w, p.0, p.1) == w.(pending := w.pending + [ItemOf(env, p)])
  {
  }

  lemma {:induction false} UnknownIsEnglish(b: Loaded, w: Work, item: Item)
    requires b.existing == [] && item.key !in w.next
    ensures FallBack(b, false, w, item) == Keep(w, item.key, item.text, true)
  {
  }

  lemma {:induction false} NothingLoaded(env: Env)
    ensures var (b, tm) := LoadAll(env, NO_FILES);
            b.existing == [] && b.previous == [] && b.byHash == map[] && tm == []
  {
  }

  lemma {:induction false} OneKeySorted(env: Env)
    ensures SortedKeys(["k"], env.localeLeq) == ["k"]
  {
    assert ["k"][..0] == [];
    assert Dedupe(["k"]) == ["k"];
  }

  /**
   One key with a text in the locale file, and in the memory an entry of an earlier sync with another
   text, under the cache keys of another namespace: a sync without a provider leaves both, but one in
   that namespace does not.
   */
  lemma {:induction false} StaleEntryComesBack(env: Env, env': Env, clock: string, sourceHash: string, stale: TmEntry,
                                               translate: Translator, clock': string, options: Options,
                                               translate': Translator)
    requires EnvOk(env) && EnvOk(env') && SameProject(env, env') && !env.allowTranslate && !env'.allowTranslate
    requires TranslatorOk(translate) && TranslatorOk(translate') && env.parity([("k", "new")], map["k" := "neu"])
    requires stale.cacheKey == CacheKeyOf(env', ("k", "new")) != CacheKeyOf(env, ("k", "new"))
    requires stale.translated == "alt"
    ensures var files := Files(Generated([("k", Leaf("neu"))]), Missing, Generated([stale]), Missing);
            var done := Work(map["k" := "neu"], [], [], [(stale.cacheKey, stale)]);
            var next := NextFiles(env, clock, files, Flatten(ONE_KEY), sourceHash, done);
            && Synced(env, clock, ONE_KEY, sourceHash, files, false, translate, done, next)
            && Sync(env', clock', options, ONE_KEY, sourceHash, next, translate') != Unchanged(next)
  {
    hide EnvOk, TranslatorOk, Proper, Flatten, MemoryAgrees, LoadAll, Get, Sync;
    OneKey();
    var flat := [("k", "new")];
    var p := ("k", "new");
    var files := Files(Generated([("k", Leaf("neu"))]), Missing, Generated([stale]), Missing);
    var (b, tm) := LoadAll(env, files);
    assert stale.cacheKey != "" by {
      NotEmptyKey(env', p);
    }
    StaleLoaded(env, files, stale);
    var start := Work(map[], [], [], tm);
    var done := Work(map["k" := "neu"], [], [], [(stale.cacheKey, stale)]);
    GetOnly("k", "neu", "k");
    GetOnly(stale.cacheKey, stale, CacheKeyOf(env, p));
    assert Get(tm, CacheKeyOf(env, p)) == None && Get(b.existing, "k") == Some("neu");
    assert Decide(env, b, start, "k", "new") == done;
    assert flat[1..] == [];
    assert DecideAll(env, b, start, flat) == done;
    assert FallBackAll(b, false, done, []) == done;
    var next := NextFiles(env, clock, files, flat, sourceHash, done);
    StaleDisagrees(env, env', clock, sourceHash, files, stale, translate, done, next);
    assert next.meta.value.fallbackKeys == [] by {
      NoKeysSorted(env);
    }
    OtherCacheKeysIff(env, clock, ONE_KEY, sourceHash, files, false, translate, done, next, env', clock', options,
      translate');
  }

  lemma {:induction false} NoKeysSorted(env: Env)
    ensures SortedKeys([], env.localeLeq) == []
  {
  }

  lemma {:induction false} GetOnly<V>(key: string, value: V, other: string)
    ensures Get([(key, value)], other) == if other == key then Some(value) else None
  {
    assert [(key, value)][1..] == [];
  }

  lemma {:induction false} NotEmptyKey(env: Env, p: Pair)
    requires EnvOk(env)
    ensures CacheKeyOf(env, p) != ""
  {
  }

  lemma {:induction false} StaleLoaded(env: Env, files: Files, stale: TmEntry)
    requires files == Files(Generated([("k", Leaf("neu"))]), Missing, Generated([stale]), Missing)
    requires stale.cacheKey != "" && stale.translated == "alt"
    ensures var (b, tm) := LoadAll(env, files);
            b.existing == [("k", "neu")] && b.previous == [] && tm == [(stale.cacheKey, stale)]
  {
    hide Flatten, LoadTm, ByTextHash;
    OneText("neu");
    StaleMemory(stale);
  }

  lemma {:induction false} OneText(text: string)
    ensures Flatten([("k", Leaf(text))]) == [("k", text)]
  {
    var locale: Entries := [("k", Leaf(text))];
    var out: Flat := [];
    assert FullKey("", "k") == "k" && Set(out, "k", text) == [("k", text)];
    assert FlattenEntry(locale[0], "", out) == [("k", text)];
    assert locale[1..] == [] && FlattenInto([], "", [("k", text)]) == [("k", text)];
    assert FlattenInto(locale, "", out) == FlattenInto(locale[1..], "", FlattenEntry(locale[0], "", out));
  }

  lemma {:induction false} NotBlank()
    ensures !Text.Blank("alt")
  {
    assert Text.TrimStart("alt") == "alt" && Text.TrimEnd("alt") == "alt";
  }

  lemma {:induction false} StaleMemory(stale: TmEntry)
    requires stale.cacheKey != "" && stale.translated == "alt"
    ensures LoadTm([stale]) == [(stale.cacheKey, stale)]
  {
    hide Text.Blank;
    NotBlank();
    assert [stale][..0] == [] && LoadTm([]) == [];
    assert LoadTm([stale]) == Set([], stale.cacheKey, stale);
  }

  lemma {:induction false} StaleDisagrees(env: Env, env': Env, clock: string, sourceHash: string, files: Files,
                                          stale: TmEntry, translate: Translator, done: Work, next: Files)
    requires Synced(env, clock, ONE_KEY, sourceHash, files, false, translate, done, next) && SameProject(env, env')
    requires done == Work(map["k" := "neu"], [], [], [(stale.cacheKey, stale)])
    requires stale.cacheKey == CacheKeyOf(env', ("k", "new")) && stale.translated == "alt"
    ensures !MemoryAgrees(env', next, Flatten(ONE_KEY))
  {
    hide EnvOk, TranslatorOk, Proper, Flatten, LoadAll, Settle, NextFiles, DistinctKeys, MemoryOk;
    OneKey();
    var p := ("k", "new");
    var flat := Flatten(ONE_KEY);
    var (b, tm) := LoadAll(env, files);
    SyncedMeans(env, clock, ONE_KEY, sourceHash, files, false, translate, done, next);
    Reloaded(env, ONE_KEY, sourceHash, clock, files, b, done);
    LoadsAlike(env, env', next);
    ExistingTexts(flat, done.next, p);
    assert p in flat;
    assert Get(done.tm, stale.cacheKey) == Some(stale);
  }
}
