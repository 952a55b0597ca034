/** Where every text of a synced locale comes from, and what the written files say about it. */
module LocaleSyncTexts {
  import opened Wrappers
  import opened TranslationTree
  import opened TranslationBatches
  import opened LocaleSync
  import opened LocaleSyncLaws
  import Sorting
  import Text
  import TranslateBatch

  /** What the loops hold for one source pair: its text, whether it falls back, and its memory entry. */
  datatype View = View(text: Option<string>, falls: bool, entry: Option<TmEntry>)

  function ViewOf(env: Env, w: Work, p: Pair): View {
    View(if p.0 in w.next then Some(w.next[p.0]) else None, p.0 in w.fallback, Get(w.tm, CacheKeyOf(env, p)))
  }

  function Untouched(env: Env, tm: Tm, p: Pair): View {
    View(None, false, Get(tm, CacheKeyOf(env, p)))
  }

  /** What is known of a pair before anything is translated, judged by the loaded files alone. */
  datatype Origin = Remembered(entry: TmEntry) | SameText(entry: TmEntry) | InLocale(text: string) | Nowhere

  function OriginOf(env: Env, b: Loaded, tm: Tm, p: Pair): Origin {
    var remembered := Get(tm, CacheKeyOf(env, p));
    var existing := Get(b.existing, p.0);
    var fellBack := p.0 in b.previous;
    var h := env.hashText(p.1);
    if remembered.Some? && !(env.allowTranslate && fellBack) then Remembered(remembered.value)
    else if h in b.byHash && (fellBack || existing.None?) then SameText(b.byHash[h])
    else if existing.Some? && !(env.allowTranslate && fellBack) then InLocale(existing.value)
    else Nowhere
  }

  /** The end state of a pair that needs no translation: a fallback stays one unless an equal text was found. */
  function KnownView(env: Env, b: Loaded, tm: Tm, p: Pair): View {
    match OriginOf(env, b, tm, p)
    case Remembered(e) => View(Some(e.translated), p.0 in b.previous, Some(e))
    case SameText(e) => View(Some(e.translated), false,
      Some(e.(cacheKey := CacheKeyOf(env, p), segmentId := p.0, sourcePath := env.sourcePath)))
    case InLocale(text) => View(Some(text), p.0 in b.previous, None)
    case Nowhere => Untouched(env, tm, p)
  }

  function StoredEntry(env: Env, clock: string, p: Pair, value: string): TmEntry {
    TmEntry(CacheKeyOf(env, p), p.0, env.sourcePath, env.hashText(p.1), env.locale, value, p.1,
            env.model, env.provider, SOURCE_LOCALE, clock)
  }

  /** The pair was in one of the batches, and has the answer given for it there. */
  ghost predicate TranslatedIn(env: Env, clock: string, translate: Translator, batches: seq<Batch>, p: Pair, v: View) {
    exists batch ::
      && batch in batches && ItemOf(env, p) in batch && translate(batch).Ok? && p.0 in translate(batch).value
      && var value := translate(batch).value[p.0];
         v == View(Some(value), false, Some(StoredEntry(env, clock, p, value)))
  }

  // ---------- the first loop ----------

  lemma {:induction false} OthersView(env: Env, w: Work, v: Work, p: Pair, q: Pair)
    requires EnvOk(env) && OnlyAbout(env, w, v, p) && p.0 != q.0
    ensures ViewOf(env, v, q) == ViewOf(env, w, q)
  {
    assert CacheKeyOf(env, p) != CacheKeyOf(env, q);
  }

  /** After the first loop: the pair is settled and not pending, or pending and untouched. */
  ghost predicate Decided(env: Env, b: Loaded, tm: Tm, w: Work, p: Pair) {
    && ViewOf(env, w, p) == KnownView(env, b, tm, p)
    && if OriginOf(env, b, tm, p).Nowhere? then ItemOf(env, p) in w.pending
       else forall item | item in w.pending :: item.key != p.0
  }

  lemma {:induction false} DecideView(env: Env, b: Loaded, tm: Tm, w: Work, p: Pair)
    requires ViewOf(env, w, p) == Untouched(env, tm, p)
    requires forall item | item in w.pending :: item.key != p.0
    ensures Decided(env, b, tm, Decide(env, b, w, p.0, p.1), p)
  {
    hide Get, Set;
    var ck, h := CacheKeyOf(env, p), env.hashText(p.1);
    if h in b.byHash {
      LookupsAfterSet(w.tm, ck, b.byHash[h].(cacheKey := ck, segmentId := p.0, sourcePath := env.sourcePath));
    }
    assert ItemOf(env, p) in w.pending + [ItemOf(env, p)];
  }

  lemma {:induction false} DecideOther(env: Env, b: Loaded, tm: Tm, w: Work, p: Pair, q: Pair)
    requires EnvOk(env) && Decided(env, b, tm, w, q) && p.0 != q.0
    requires OnlyAbout(env, w, Decide(env, b, w, p.0, p.1), p)
    ensures Decided(env, b, tm, Decide(env, b, w, p.0, p.1), q)
  {
    hide OnlyAbout, ViewOf, KnownView, OriginOf, EnvOk;
    OthersView(env, w, Decide(env, b, w, p.0, p.1), p, q);
  }

  ghost predicate Tracked(env: Env, b: Loaded, tm: Tm, w: Work, done: seq<Pair>, p: Pair) {
    if p in done then Decided(env, b, tm, w, p) else ViewOf(env, w, p) == Untouched(env, tm, p)
  }

  lemma {:induction false} DecideTracks(env: Env, b: Loaded, tm: Tm, w: Work, done: seq<Pair>, q: Pair, p: Pair)
    requires EnvOk(env) && Inv(env, b, w, done, w.pending) && (forall r | r in done :: r.0 != q.0)
    requires Tracked(env, b, tm, w, done, p) && (p.0 == q.0 ==> p == q)
    ensures Tracked(env, b, tm, Decide(env, b, w, q.0, q.1), done + [q], p)
  {
    hide Decide, Decided, MemoryOk, EnvOk, ViewOf, Untouched, OnlyAbout;
    DecideOne(env, b, w, q);
    if p == q {
      DecideView(env, b, tm, w, p);
      assert p in done + [q];
    } else if p in done {
      DecideOther(env, b, tm, w, q, p);
    } else {
      OthersView(env, w, Decide(env, b, w, q.0, q.1), q, p);
    }
  }

  lemma {:induction false} DecideAllTracks(env: Env, b: Loaded, tm: Tm, w: Work, done: seq<Pair>, source: Flat, p: Pair)
    requires EnvOk(env) && Inv(env, b, w, done, w.pending) && DistinctKeys(done + source) && p in done + source
    requires Tracked(env, b, tm, w, done, p)
    ensures Decided(env, b, tm, DecideAll(env, b, w, source), p)
    decreases |source|
  {
    hide Decide, Decided, Inv, EnvOk, ViewOf, Untouched;
    if source == [] {
      assert done + source == done;
    } else {
      var q := source[0];
      assert forall i | 0 <= i < |done| :: (done + source)[i] == done[i];
      assert (done + source)[|done|] == q;
      DecideTracks(env, b, tm, w, done, q, p);
      DecideKeepsInv(env, b, w, done, q);
      assert done + [q] + source[1..] == done + source;
      DecideAllTracks(env, b, tm, Decide(env, b, w, q.0, q.1), done + [q], source[1..], p);
    }
  }

  // ---------- the batches ----------

  /** Items carry their own cache key, and only the pair's item has its key. */
  ghost predicate ItemsOk(env: Env, items: Batch, p: Pair) {
    forall item | item in items :: item.cacheKey == env.cacheKey(item.key, item.textHash)
                                   && (item.key == p.0 ==> item == ItemOf(env, p))
  }

  lemma {:induction false} PendingItemsOk(env: Env, b: Loaded, w: Work, source: Flat, p: Pair)
    requires Inv(env, b, w, source, w.pending) && DistinctKeys(source) && p in source
    ensures ItemsOk(env, w.pending, p)
  {
    hide MemoryOk, Done, Waiting;
    forall item | item in w.pending
      ensures item.cacheKey == env.cacheKey(item.key, item.textHash) && (item.key == p.0 ==> item == ItemOf(env, p))
    {
      var q :| q in source && item == ItemOf(env, q);
    }
  }

  function StoredView(env: Env, clock: string, translated: map<string, string>, p: Pair, before: View): View
    requires p.0 in translated
  {
    View(Some(translated[p.0]), before.falls, Some(StoredEntry(env, clock, p, translated[p.0])))
  }

  lemma {:induction false} StoreView(env: Env, clock: string, translated: map<string, string>, w: Work, item: Item,
                                     p: Pair)
    requires EnvOk(env) && ItemsOk(env, [item], p) && AnswersAll([item], translated)
    ensures ViewOf(env, Store(env, clock, translated, w, item), p) ==
      if item == ItemOf(env, p) then StoredView(env, clock, translated, p, ViewOf(env, w, p)) else ViewOf(env, w, p)
  {
    hide Get, Set, Text.Blank;
    BlankEmpty();
    assert item in [item];
    var e := TmEntry(item.cacheKey, item.key, env.sourcePath, item.textHash, env.locale, translated[item.key],
        item.text,
                     env.model, env.provider, SOURCE_LOCALE, clock);
    LookupsAfterSet(w.tm, item.cacheKey, e);
  }

  lemma {:induction false} StoreAllView(env: Env, clock: string, translated: map<string, string>, w: Work,
                                        items: Batch, p: Pair)
    requires EnvOk(env) && ItemsOk(env, items, p) && AnswersAll(items, translated)
    ensures ItemOf(env, p) in items ==> p.0 in translated
    ensures ViewOf(env, StoreAll(env, clock, translated, w, items), p) ==
      if ItemOf(env, p) in items then StoredView(env, clock, translated, p, ViewOf(env, w, p)) else ViewOf(env, w, p)
    decreases |items|
  {
    hide EnvOk, Store, Text.Blank, ViewOf;
    if items != [] {
      assert items[0] in items && forall item | item in items[1..] :: item in items;
      assert items == [items[0]] + items[1..];
      StoreView(env, clock, translated, w, items[0], p);
      StoreAllView(env, clock, translated, Store(env, clock, translated, w, items[0]), items[1..], p);
    }
  }

  lemma {:induction false} TranslateAllView(env: Env, clock: string, translate: Translator, w: Work,
                                            batches: seq<Batch>, p: Pair)
    requires EnvOk(env) && ItemsOk(env, Concat(batches), p) && TranslatorOk(translate) && !ViewOf(env, w, p).falls
    requires TranslateAll(env, clock, translate, w, batches).Ok?
    ensures var v := ViewOf(env, TranslateAll(env, clock, translate, w, batches).value, p);
            if ItemOf(env, p) in Concat(batches) then TranslatedIn(env, clock, translate, batches, p, v)
            else v == ViewOf(env, w, p)
    decreases |batches|
  {
    hide EnvOk, StoreAll, ViewOf, AnswersAll, ItemOf, CacheKeyOf;
    if batches != [] {
      var batch, rest := batches[0], batches[1..];
      var translated := translate(batch).value;
      StoreAllView(env, clock, translated, w, batch, p);
      var w' := StoreAll(env, clock, translated, w, batch);
      TranslateAllView(env, clock, translate, w', rest, p);
      var v := ViewOf(env, TranslateAll(env, clock, translate, w', rest).value, p);
      if ItemOf(env, p) in Concat(rest) {
        TranslatedInMore(env, clock, translate, batches, p, v);
      } else if ItemOf(env, p) in batch {
        assert batch in batches;
      }
    }
  }

  lemma {:induction false} TranslatedInMore(env: Env, clock: string, translate: Translator, batches: seq<Batch>,
                                            p: Pair, v: View)
    requires batches != [] && TranslatedIn(env, clock, translate, batches[1..], p, v)
    ensures TranslatedIn(env, clock, translate, batches, p, v)
  {
    assert forall batch | batch in batches[1..] :: batch in batches;
  }

  lemma {:induction false} TranslatedHasText(env: Env, clock: string, translate: Translator, batches: seq<Batch>,
                                             p: Pair, v: View)
    requires TranslatedIn(env, clock, translate, batches, p, v)
    ensures v.text.Some?
  {
  }

  // ---------- the last loop ----------

  lemma {:induction false} FallBackOne(env: Env, b: Loaded, force: bool, w: Work, item: Item, p: Pair)
    requires item.key == p.0 ==> item == ItemOf(env, p)
    requires ViewOf(env, w, p).text.None? ==> Get(b.existing, p.0).None?
    ensures var before := ViewOf(env, w, p);
            ViewOf(env, FallBack(b, force, w, item), p) ==
              if before.text.None? && item == ItemOf(env, p) then before.(text := Some(p.1), falls := true)
              else before
  {
    hide Get;
  }

  lemma {:induction false} FallBackView(env: Env, b: Loaded, force: bool, w: Work, items: Batch, p: Pair)
    requires ItemsOk(env, items, p)
    requires ViewOf(env, w, p).text.None? ==> Get(b.existing, p.0).None?
    ensures var before, after := ViewOf(env, w, p), ViewOf(env, FallBackAll(b, force, w, items), p);
            after ==
              if before.text.None? && ItemOf(env, p) in items then before.(text := Some(p.1), falls := true)
              else before
    decreases |items|
  {
    hide Get, FallBack, ViewOf;
    if items != [] {
      assert items[0] in items && forall item | item in items[1..] :: item in items;
      assert items == [items[0]] + items[1..];
      FallBackOne(env, b, force, w, items[0], p);
      FallBackView(env, b, force, FallBack(b, force, w, items[0]), items[1..], p);
    }
  }

  // ---------- the result ----------

  /** The state a successful run leaves every source pair in. */
  ghost predicate Placed(env: Env, clock: string, b: Loaded, tm: Tm, translate: Translator, batches: seq<Batch>,
                         p: Pair, v: View) {
    if !OriginOf(env, b, tm, p).Nowhere? then v == KnownView(env, b, tm, p)
    else if env.allowTranslate then TranslatedIn(env, clock, translate, batches, p, v)
    else v == View(Some(p.1), true, None)
  }

  lemma {:induction false} PlacedByTranslation(env: Env, clock: string, b: Loaded, tm: Tm, translate: Translator,
                                               decided: Work, p: Pair)
    requires EnvOk(env) && env.allowTranslate && TranslatorOk(translate)
    requires Decided(env, b, tm, decided, p) && ItemsOk(env, decided.pending, p)
    requires Translated(env, clock, translate, decided).Ok?
    ensures Placed(env, clock, b, tm, translate, Batches(decided.pending, env.batchBudget), p,
                   ViewOf(env, Translated(env, clock, translate, decided).value, p))
  {
    hide EnvOk, TranslateAll, TranslatedIn, Batches, Get, ViewOf, ItemsOk;
    if decided.pending != [] {
      BatchesConcat(decided.pending, env.batchBudget);
      TranslateAllView(env, clock, translate, decided, Batches(decided.pending, env.batchBudget), p);
    }
  }

  lemma {:induction false} PlacedByFallBack(env: Env, clock: string, b: Loaded, force: bool, tm: Tm,
                                            translate: Translator, decided: Work, w: Work, p: Pair)
    requires Decided(env, b, tm, decided, p) && ItemsOk(env, decided.pending, p)
    requires if env.allowTranslate
      then Placed(env, clock, b, tm, translate, Batches(decided.pending, env.batchBudget), p, ViewOf(env, w, p))
      else w == decided
    ensures Placed(env, clock, b, tm, translate, Batches(decided.pending, env.batchBudget), p,
                   ViewOf(env, FallBackAll(b, force, w, decided.pending), p))
  {
    hide TranslatedIn, Batches, Get, ViewOf, ItemsOk, FallBackAll;
    if env.allowTranslate && OriginOf(env, b, tm, p).Nowhere? {
      TranslatedHasText(env, clock, translate, Batches(decided.pending, env.batchBudget), p, ViewOf(env, w, p));
    }
    FallBackView(env, b, force, w, decided.pending, p);
  }

  /**
   Every text is placed by the loaded files alone: what the loops add for one key never decides
   about another.  Known texts are kept, unknown ones translated, and only without a provider does a
   key fall back to the source text.
   */
  lemma {:induction false} TextOrigins(env: Env, clock: string, b: Loaded, force: bool, tm: Tm, source: Flat,
                                       translate: Translator, p: Pair)
    requires EnvOk(env) && MemoryOk(env, b, tm) && DistinctKeys(source) && TranslatorOk(translate) && p in source
    requires Settle(env, clock, b, force, tm, source, translate).Ok?
    ensures var decided := DecideAll(env, b, Work(map[], [], [], tm), source);
            Placed(env, clock, b, tm, translate, Batches(decided.pending, env.batchBudget), p,
                   ViewOf(env, Settle(env, clock, b, force, tm, source, translate).value, p))
  {
    hide EnvOk, MemoryOk, DistinctKeys, DecideAll, Decided, TranslateAll, Batches, FallBackAll, Placed, ViewOf,
      TranslatorOk, ItemsOk;
    var start := Work(map[], [], [], tm);
    var decided := DecideAll(env, b, start, source);
    assert [] + source == source;
    DecideAllKeepsInv(env, b, start, [], source) by {
      NothingDecided(env, b, tm);
    }
    DecideAllTracks(env, b, tm, start, [], source, p) by {
      NothingDecided(env, b, tm);
      NothingTracked(env, b, tm, p);
    }
    PendingItemsOk(env, b, decided, source, p);
    if env.allowTranslate {
      PlacedByTranslation(env, clock, b, tm, translate, decided, p);
    }
    PlacedByFallBack(env, clock, b, force, tm, translate, decided, Translated(env, clock, translate, decided).value, p);
  }

  lemma {:induction false} NothingDecided(env: Env, b: Loaded, tm: Tm)
    requires MemoryOk(env, b, tm)
    ensures Inv(env, b, Work(map[], [], [], tm), [], [])
  {
    hide MemoryOk;
  }

  lemma {:induction false} NothingTracked(env: Env, b: Loaded, tm: Tm, p: Pair)
    ensures Tracked(env, b, tm, Work(map[], [], [], tm), [], p)
  {
    hide Get;
  }

  function AskedFor(env: Env, b: Loaded, tm: Tm, source: Flat): seq<Batch> {
    Batches(DecideAll(env, b, Work(map[], [], [], tm), source).pending, env.batchBudget)
  }

  /** What a later load of `files` says about a source pair. */
  function ReadBack(env: Env, files: Files, p: Pair): View {
    var (b, tm) := LoadAll(env, files);
    View(Get(b.existing, p.0), p.0 in b.previous, Get(tm, CacheKeyOf(env, p)))
  }

  /** The written files, read back, hold for every source key the text and the fallback mark it was placed with. */
  lemma {:induction false} WrittenFilesHoldEveryText(env: Env, clock: string, options: Options, source: Entries,
                                                     sourceHash: string, files: Files, translate: Translator, p: Pair)
    requires EnvOk(env) && Proper(source) && TranslatorOk(translate) && p in Flatten(source)
    requires var r := Sync(env, clock, options, source, sourceHash, files, translate); r.Ok? && r.value.wrote
    ensures var (b, tm) := LoadAll(env, files);
            var written := Sync(env, clock, options, source, sourceHash, files, translate).value.files;
            Placed(env, clock, b, tm, translate, AskedFor(env, b, tm, Flatten(source)), p, ReadBack(env, written, p))
  {
    hide EnvOk, TranslatorOk, Settle, LoadAll, Flatten, NextFiles, Same, Proper, Placed, DistinctKeys, MemoryOk, Inv,
      Get, Batches;
    var flat := Flatten(source);
    var (b, tm) := LoadAll(env, files);
    var done := Settle(env, clock, b, options.force, tm, flat, translate).value;
    LoadedMemoryOk(env, files);
    FlattenIsDistinct(source);
    TextOrigins(env, clock, b, options.force, tm, flat, translate, p);
    SettleEstablishes(env, clock, b, options.force, tm, flat, translate);
    InvIsSettled(env, b, done, flat);
    Reloaded(env, source, sourceHash, clock, files, b, done);
    assert p.0 in SourceKeys(flat);
    ExistingTexts(flat, done.next, p);
  }

  // ---------- the counts in the meta file ----------

  function KeptKeys(source: Flat, fallback: seq<string>): seq<string> {
    if source == [] then []
    else (if source[0].0 in fallback then [] else [source[0].0]) + KeptKeys(source[1..], fallback)
  }

  lemma {:induction false} FallenCounts(source: Flat, fallback: seq<string>)
    requires DistinctKeys(source)
    ensures |FallenKeys(source, fallback)| + |KeptKeys(source, fallback)| == |source|
    ensures forall key :: multiset(FallenKeys(source, fallback))[key]
                          == if key in fallback && key in SourceKeys(source) then 1 else 0
  {
    hide DistinctKeys;
    if source != [] {
      TailDistinct(source);
      FallenCounts(source[1..], fallback);
      SourceKeysCons(source);
    }
  }

  lemma {:induction false} TailDistinct(source: Flat)
    requires source != [] && DistinctKeys(source)
    ensures DistinctKeys(source[1..]) && source[0].0 !in SourceKeys(source[1..])
  {
    assert forall i | 0 <= i < |source[1..]| :: source[1..][i] == source[i + 1];
  }

  /** The sorted, deduplicated fallback keys are the fallen source keys. */
  lemma {:induction false} SortedFallback(source: Flat, fallback: seq<string>, leq: (string, string) -> bool)
    requires Sorting.TotalOrder(leq) && DistinctKeys(source)
        && forall key | key in fallback :: key in SourceKeys(source)
    ensures var sorted := SortedKeys(fallback, leq);
            && multiset(sorted) == multiset(FallenKeys(source, fallback))
            && Sorting.Sorted(sorted, Self, leq) && Sorting.KeysDistinct(sorted, Self)
  {
    hide Sorting.TotalOrder, Sorting.Sort, Sorting.Sorted, Sorting.KeysDistinct, Dedupe, SourceKeys, DistinctKeys;
    DedupeSame(fallback);
    Sorting.SortSorts(Dedupe(fallback), Self, leq);
    Sorting.PermutedDistinct(Dedupe(fallback), SortedKeys(fallback, leq), Self);
    FallenCounts(source, fallback);
  }

  /** Every source key is counted once, as translated or as fallback; the latter are listed in order, each once. */
  ghost predicate CountsRight(env: Env, source: Flat, meta: Meta) {
    && meta.totalKeys == |source|
    && meta.translatedKeys == |KeptKeys(source, meta.fallbackKeys)|
    && multiset(meta.fallbackKeys) == multiset(FallenKeys(source, meta.fallbackKeys))
    && Sorting.Sorted(meta.fallbackKeys, Self, env.localeLeq) && Sorting.KeysDistinct(meta.fallbackKeys, Self)
  }

  lemma {:induction false} NextMetaCounts(env: Env, clock: string, previous: Option<Meta>, source: Flat,
                                          sourceHash: string, fallback: seq<string>)
    requires Sorting.TotalOrder(env.localeLeq) && DistinctKeys(source)
        && forall key | key in fallback :: key in SourceKeys(source)
    ensures CountsRight(env, source, NextMeta(env, clock, previous, sourceHash, |source|, fallback))
  {
    hide Sorting.TotalOrder, Sorting.Sorted, Sorting.KeysDistinct, DistinctKeys, SourceKeys, SortedKeys;
    var sorted := SortedKeys(fallback, env.localeLeq);
    SortedKeysMembers(fallback, env.localeLeq);
    SortedFallback(source, fallback, env.localeLeq);
    SameMembers(source, fallback, sorted);
    FallenCounts(source, fallback);
    assert |multiset(sorted)| == |multiset(FallenKeys(source, fallback))|;
  }

  lemma {:induction false} MetaCounts(env: Env, clock: string, options: Options, source: Entries, sourceHash: string,
                                      files: Files, translate: Translator)
    requires EnvOk(env) && Proper(source) && TranslatorOk(translate)
    requires var r := Sync(env, clock, options, source, sourceHash, files, translate); r.Ok? && r.value.wrote
    ensures CountsRight(env, Flatten(source),
        Sync(env, clock, options, source, sourceHash, files, translate).value.files.meta.Load(NO_META))
  {
    hide TranslatorOk, Settle, LoadAll, Flatten, Same, Proper, DistinctKeys, MemoryOk, Inv, SourceKeys, NextMeta,
      CountsRight,
      Sorting.TotalOrder, Replay, RenderTm;
    var flat := Flatten(source);
    var (b, tm) := LoadAll(env, files);
    var done := Settle(env, clock, b, options.force, tm, flat, translate).value;
    LoadedMemoryOk(env, files);
    FlattenIsDistinct(source);
    SettleEstablishes(env, clock, b, options.force, tm, flat, translate);
    InvIsSettled(env, b, done, flat);
    SourceKeysHold(flat);
    NextMetaCounts(env, clock, if files.meta.Missing?
        then None else Some(files.meta.value), flat, sourceHash, done.fallback);
  }

  lemma {:induction false} SourceKeysHold(source: Flat)
    ensures forall p | p in source :: p.0 in SourceKeys(source)
  {
  }

  const NO_META := Meta([], "", "", "", "", "", 0, 0, 0)

  lemma {:induction false} SameMembers(source: Flat, a: seq<string>, b: seq<string>)
    requires forall key :: key in a <==> key in b
    ensures FallenKeys(source, a) == FallenKeys(source, b) && KeptKeys(source, a) == KeptKeys(source, b)
  {
    if source != [] {
      SameMembers(source[1..], a, b);
    }
  }

  // ---------- consequences ----------

  /** Without a provider only keys that the locale does not have are left for the fallback. */
  lemma {:induction false} PendingIsUnknown(env: Env, b: Loaded, w: Work, source: Flat)
    requires !env.allowTranslate && forall item | item in w.pending :: Get(b.existing, item.key).None?
    ensures forall item | item in DecideAll(env, b, w, source).pending :: Get(b.existing, item.key).None?
    decreases |source|
  {
    hide Get, Set;
    if source != [] {
      PendingIsUnknown(env, b, Decide(env, b, w, source[0].0, source[0].1), source[1..]);
    }
  }

  lemma {:induction false} UnknownFallsBack(b: Loaded, force: bool, force': bool, w: Work, items: Batch)
    requires forall item | item in items :: Get(b.existing, item.key).None?
    ensures FallBackAll(b, force, w, items) == FallBackAll(b, force', w, items)
    decreases |items|
  {
    hide Get;
    if items != [] {
      assert items[0] in items && forall item | item in items[1..] :: item in items;
      UnknownFallsBack(b, force, force', FallBack(b, force, w, items[0]), items[1..]);
    }
  }

  lemma {:induction false} AllTranslated(env: Env, clock: string, b: Loaded, tm: Tm, source: Flat,
                                         translate: Translator)
    requires EnvOk(env) && MemoryOk(env, b, tm) && DistinctKeys(source) && TranslatorOk(translate) && env.allowTranslate
    requires Translated(env, clock, translate, DecideAll(env, b, Work(map[], [], [], tm), source)).Ok?
    ensures var decided := DecideAll(env, b, Work(map[], [], [], tm), source);
            forall item | item in decided.pending :: item.key in Translated(env, clock, translate, decided).value.next
  {
    hide EnvOk, MemoryOk, DistinctKeys, DecideAll, TranslateAll, Batches, Done, TranslatorOk;
    var start := Work(map[], [], [], tm);
    var decided := DecideAll(env, b, start, source);
    assert [] + source == source;
    DecideAllKeepsInv(env, b, start, [], source);
    if decided.pending != [] {
      var batches := Batches(decided.pending, env.batchBudget);
      BatchesConcat(decided.pending, env.batchBudget);
      TranslateAllKeepsInv(env, b, clock, translate, decided, source, batches);
      PendingHandled(env, b, decided, TranslateAll(env, clock, translate, decided, batches).value, source);
    }
  }

  /**
   The `--force` option has no effect on a sync at all: the branch of the last loop that reads it is
   never taken, and the early return that reads it returns what would be returned anyway.
   */
  lemma {:induction false} ForceIsIdle(env: Env, clock: string, options: Options, force: bool, source: Entries,
                                       sourceHash: string, files: Files, translate: Translator)
    requires EnvOk(env) && TranslatorOk(translate)
    ensures Sync(env, clock, options.(force := force), source, sourceHash, files, translate)
         == Sync(env, clock, options, source, sourceHash, files, translate)
  {
    hide EnvOk, TranslatorOk, DecideAll, Translated, FallBackAll, Flatten, NextFiles, Same, DistinctKeys, MemoryOk,
      LoadAll;
    var flat := Flatten(source);
    var (b, tm) := LoadAll(env, files);
    var decided := DecideAll(env, b, Work(map[], [], [], tm), flat);
    if Translated(env, clock, translate, decided).Ok? {
      var w := Translated(env, clock, translate, decided).value;
      if env.allowTranslate {
        LoadedMemoryOk(env, files);
        FlattenIsDistinct(source);
        AllTranslated(env, clock, b, tm, flat, translate);
        FallBackIdle(b, force, w, decided.pending);
        FallBackIdle(b, options.force, w, decided.pending);
      } else {
        PendingIsUnknown(env, b, Work(map[], [], [], tm), flat);
        UnknownFallsBack(b, force, options.force, w, decided.pending);
      }
    }
  }

  /** What the batch translator guarantees is what the sync relies on. */
  lemma {:induction false} BatchTranslatorIsOk(replies: Batch -> TranslateBatch.Oracle)
    ensures TranslatorOk(items => TranslateBatch.Translate(items, 0, "", replies(items), 0).result)
  {
    hide Text.Blank, TranslateBatch.Translate;
    var translate: Translator := items => TranslateBatch.Translate(items, 0, "", replies(items), 0).result;
    forall items: Batch | translate(items).Ok?
      ensures AnswersAll(items, translate(items).value)
    {
      if items != [] {
        TranslateBatch.TranslateBatchGuarantees(items, replies(items), 0);
        forall item | item in items
          ensures item.key in translate(items).value && !Text.Blank(translate(items).value[item.key])
        {
          assert item.key in TranslateBatch.KeysOf(items);
        }
      }
    }
  }
}
