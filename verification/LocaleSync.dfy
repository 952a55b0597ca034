/**
 One locale's sync: decide for every source key where its text comes from, translate what is left
 when a provider is configured, fall back otherwise, and work out the files to write.
 */
module LocaleSync {
  import opened Wrappers
  import opened TranslationTree
  import opened TranslationBatches
  import Sorting
  import Text

  datatype TmEntry = TmEntry(
    cacheKey: string, segmentId: string, sourcePath: string, textHash: string, tgtLang: string,
    translated: string, text: string, model: string, provider: string, srcLang: string, updatedAt: string)

  /** The translation memory: a Map from cache key to entry, in insertion order. */
  type Tm = seq<(string, TmEntry)>

  datatype Meta = Meta(
    fallbackKeys: seq<string>, generatedAt: string, locale: string, model: string, provider: string,
    sourceHash: string, totalKeys: nat, translatedKeys: int, workflow: nat)

  type Glossary = seq<(string, string)>

  /** A file that is absent, that holds exactly the generated rendering of a value, or that parses to it otherwise. */
  datatype File<+T> = Missing | Generated(value: T) | Foreign(value: T) {
    function Load(default: T): T {
      match this
      case Missing => default
      case Generated(v) => v
      case Foreign(v) => v
    }
  }

  datatype Files = Files(locale: File<Entries>, meta: File<Meta>, tm: File<seq<TmEntry>>, glossary: File<Glossary>)

  datatype Options = Options(checkOnly: bool, force: bool, write: bool)

  /** Configuration and library functions; the two hashes are arbitrary functions here. */
  datatype Env = Env(
    locale: string, sourcePath: string, provider: string, model: string, allowTranslate: bool,
    hashText: string -> string,
    cacheKey: (string, string) -> string,
    localeLeq: (string, string) -> bool,
    parity: (Flat, map<string, string>) -> bool,
    defaultGlossary: Glossary,
    authSkips: string -> bool,
    batchBudget: real)

  /** The answer to one batch, or the error that ends the run. */
  type Translator = Batch -> Result<map<string, string>, string>

  const WORKFLOW: nat := 1
  const SOURCE_LOCALE := "en"

  // ---------- the translation memory ----------

  /** `loadTranslationMemory` on the parsed lines. */
  function LoadTm(lines: seq<TmEntry>): Tm {
    if lines == [] then []
    else
      var e := lines[|lines| - 1];
      var before := LoadTm(lines[..|lines| - 1]);
      if e.cacheKey != "" && !Text.Blank(e.translated) then Set(before, e.cacheKey, e) else before
  }

  function ValuesOf(tm: Tm): seq<TmEntry> {
    seq(|tm|, i requires 0 <= i < |tm| => tm[i].1)
  }

  function KeyOfEntry(e: TmEntry): string {
    e.cacheKey
  }

  /** `renderTranslationMemory` */
  function RenderTm(tm: Tm, leq: (string, string) -> bool): seq<TmEntry> {
    Sorting.Sort(ValuesOf(tm), KeyOfEntry, leq)
  }

  predicate Indexed(e: TmEntry, locale: string) {
    e.tgtLang == locale && e.textHash != "" && !Text.Blank(e.translated)
  }

  /** `buildTranslationMemoryByTextHash`: the last entry of each hash wins. */
  function ByTextHash(tm: Tm, locale: string): map<string, TmEntry> {
    if tm == [] then map[]
    else
      var e := tm[|tm| - 1].1;
      var before := ByTextHash(tm[..|tm| - 1], locale);
      if Indexed(e, locale) then before[e.textHash := e] else before
  }

  method LoadTranslationMemory(lines: seq<TmEntry>) returns (entries: Tm)
    ensures entries == LoadTm(lines)
  {
    entries := [];
    for i := 0 to |lines|
      invariant entries == LoadTm(lines[..i])
    {
      assert lines[..i + 1][..i] == lines[..i];
      var parsed := lines[i];
      if parsed.cacheKey != "" && !Text.Blank(parsed.translated) {
        entries := Set(entries, parsed.cacheKey, parsed);
      }
    }
    assert lines[..|lines|] == lines;
  }

  method BuildTranslationMemoryByTextHash(entries: Tm, locale: string) returns (byTextHash: map<string, TmEntry>)
    ensures byTextHash == ByTextHash(entries, locale)
  {
    byTextHash := map[];
    for i := 0 to |entries|
      invariant byTextHash == ByTextHash(entries[..i], locale)
    {
      assert entries[..i + 1][..i] == entries[..i];
      var entry := entries[i].1;
      if entry.tgtLang != locale || entry.textHash == "" || Text.Blank(entry.translated) {
        continue;
      }
      byTextHash := byTextHash[entry.textHash := entry];
    }
    assert entries[..|entries|] == entries;
  }

  // ---------- the decision loops ----------

  /** What was loaded before the loops. */
  datatype Loaded = Loaded(existing: Flat, previous: seq<string>, byHash: map<string, TmEntry>)

  datatype Work = Work(next: map<string, string>, pending: Batch, fallback: seq<string>, tm: Tm)

  function Keep(w: Work, key: string, value: string, falls: bool): Work {
    w.(next := w.next[key := value], fallback := if falls then w.fallback + [key] else w.fallback)
  }

  /** One iteration of the loop over the source keys. */
  function Decide(env: Env, b: Loaded, w: Work, key: string, text: string): Work {
    var textHash := env.hashText(text);
    var ck := env.cacheKey(key, textHash);
    var cached := Get(w.tm, ck);
    var existing := Get(b.existing, key);
    var refresh := key in b.previous;
    if cached.Some? && !(env.allowTranslate && refresh) then
      Keep(w, key, cached.value.translated, refresh)
    else if textHash in b.byHash && (refresh || existing.None?) then
      var found := b.byHash[textHash];
      Keep(w, key, found.translated, false).(tm := Set(w.tm, ck,
        found.(cacheKey := ck, segmentId := key, sourcePath := env.sourcePath)))
    else if existing.Some? && !(env.allowTranslate && refresh) then
      Keep(w, key, existing.value, refresh)
    else
      w.(pending := w.pending + [Item(ck, key, text, textHash)])
  }

  function DecideAll(env: Env, b: Loaded, w: Work, source: Flat): Work
    decreases |source|
  {
    if source == [] then w
    else DecideAll(env, b, Decide(env, b, w, source[0].0, source[0].1), source[1..])
  }

  /** One translated item; a missing or empty text is passed over. */
  function Store(env: Env, clock: string, translated: map<string, string>, w: Work, item: Item): Work {
    if item.key !in translated || translated[item.key] == "" then w
    else
      var value := translated[item.key];
      Keep(w, item.key, value, false).(tm := Set(w.tm, item.cacheKey,
        TmEntry(item.cacheKey, item.key, env.sourcePath, item.textHash, env.locale, value, item.text,
                env.model, env.provider, SOURCE_LOCALE, clock)))
  }

  function StoreAll(env: Env, clock: string, translated: map<string, string>, w: Work, items: Batch): Work
    decreases |items|
  {
    if items == [] then w
    else StoreAll(env, clock, translated, Store(env, clock, translated, w, items[0]), items[1..])
  }

  /** The batches are asked for one after another; the first error ends the run. */
  function TranslateAll(env: Env, clock: string, translate: Translator, w: Work, batches: seq<Batch>)
    : Result<Work, string>
    decreases |batches|
  {
    if batches == [] then Ok(w)
    else match translate(batches[0])
         case Err(e) => Err(e)
         case Ok(translated) =>
           TranslateAll(env, clock, translate, StoreAll(env, clock, translated, w, batches[0]), batches[1..])
  }

  /** One pending item that is still without a text. */
  function FallBack(b: Loaded, force: bool, w: Work, item: Item): Work {
    if item.key in w.next then w
    else if Get(b.existing, item.key).Some? && !force then
      Keep(w, item.key, Get(b.existing, item.key).value, item.key in b.previous)
    else Keep(w, item.key, item.text, true)
  }

  function FallBackAll(b: Loaded, force: bool, w: Work, items: Batch): Work
    decreases |items|
  {
    if items == [] then w
    else FallBackAll(b, force, FallBack(b, force, w, items[0]), items[1..])
  }

  /** The translator is asked only when there is a provider and something to ask. */
  function Translated(env: Env, clock: string, translate: Translator, decided: Work): Result<Work, string> {
    if env.allowTranslate && decided.pending != []
    then TranslateAll(env, clock, translate, decided, Batches(decided.pending, env.batchBudget))
    else Ok(decided)
  }

  /** All loops. */
  function Settle(env: Env, clock: string, b: Loaded, force: bool, tm: Tm, source: Flat,
                  translate: Translator): Result<Work, string> {
    var decided := DecideAll(env, b, Work(map[], [], [], tm), source);
    var translated :- Translated(env, clock, translate, decided);
    Ok(FallBackAll(b, force, translated, decided.pending))
  }

  // ---------- the files ----------

  function Dedupe(keys: seq<string>): seq<string> {
    if keys == [] then []
    else
      var before := Dedupe(keys[..|keys| - 1]);
      var last := keys[|keys| - 1];
      if last in before then before else before + [last]
  }

  function Self(key: string): string {
    key
  }

  function SortedKeys(keys: seq<string>, leq: (string, string) -> bool): seq<string> {
    Sorting.Sort(Dedupe(keys), Self, leq)
  }

  function TextFor(next: map<string, string>): (string, string) -> string {
    (key, text) => if key in next then next[key] else text
  }

  function NextMeta(env: Env, clock: string, previous: Option<Meta>, sourceHash: string, total: nat,
                    fallback: seq<string>): Meta {
    var sorted := SortedKeys(fallback, env.localeLeq);
    var provider := if env.allowTranslate then env.provider else if previous.Some? then previous.value.provider else "";
    var model := if env.allowTranslate then env.model else if previous.Some? then previous.value.model else "";
    var translatedKeys := total - |sorted|;
    var semanticChange :=
      || previous.None?
      || previous.value.locale != env.locale
      || previous.value.sourceHash != sourceHash
      || previous.value.provider != provider
      || previous.value.model != model
      || previous.value.totalKeys != total
      || previous.value.translatedKeys != translatedKeys
      || previous.value.workflow != WORKFLOW
      || previous.value.fallbackKeys != sorted;
    Meta(sorted, if semanticChange then clock else previous.value.generatedAt,
         env.locale, model, provider, sourceHash, total, translatedKeys, WORKFLOW)
  }

  function LoadAll(env: Env, files: Files): (Loaded, Tm) {
    var tm := LoadTm(files.tm.Load([]));
    (Loaded(Flatten(files.locale.Load([])),
            if files.meta.Missing? then [] else files.meta.value.fallbackKeys,
            ByTextHash(tm, env.locale)), tm)
  }

  function NextFiles(env: Env, clock: string, files: Files, source: Flat, sourceHash: string, done: Work): (r: Files)
    ensures r.meta.Generated?
  {
    var previous := if files.meta.Missing? then None else Some(files.meta.value);
    var glossary := files.glossary.Load([]);
    Files(
      Generated(Replay([], WithTexts(source, TextFor(done.next)))),
      Generated(NextMeta(env, clock, previous, sourceHash, |source|, done.fallback)),
      Generated(RenderTm(done.tm, env.localeLeq)),
      Generated(if glossary == [] then env.defaultGlossary else glossary))
  }

  /** An absent memory file reads as the empty text, which is the rendering of an empty memory. */
  predicate Same(files: Files, next: Files) {
    && files.locale == next.locale && files.meta == next.meta && files.glossary == next.glossary
    && (files.tm == next.tm || (files.tm.Missing? && next.tm == Generated([])))
  }

  datatype Outcome = Outcome(files: Files, changed: bool, fallbackCount: nat, wrote: bool)

  /** The source text is the one of the last sync, and neither a check nor a write nor force is asked for. */
  predicate NothingAsked(files: Files, sourceHash: string, options: Options) {
    && !files.meta.Missing? && files.meta.value.sourceHash == sourceHash
    && !options.force && !options.checkOnly && !options.write
  }

  /** The whole sync: an error is a thrown exception, and nothing is written. */
  function Sync(env: Env, clock: string, options: Options, source: Entries, sourceHash: string, files: Files,
                translate: Translator)
    : Result<Outcome, string>
  {
    var sourceFlat := Flatten(source);
    var (b, tm) := LoadAll(env, files);
    match Settle(env, clock, b, options.force, tm, sourceFlat, translate)
    case Err(e) => if env.authSkips(e) then Ok(Outcome(files, false, |b.previous|, false)) else Err(e)
    case Ok(done) =>
      if !env.parity(sourceFlat, done.next) then Err("placeholder mismatch")
      else
        var next := NextFiles(env, clock, files, sourceFlat, sourceHash, done);
        var changed := !Same(files, next);
        var count := |next.meta.value.fallbackKeys|;
        if !changed || NothingAsked(files, sourceHash, options) then Ok(Outcome(files, changed, count, false))
        else
          var writes := !options.checkOnly && options.write;
          Ok(Outcome(if writes then next else files, changed, count, writes && changed))
  }

  method LoadState(env: Env, files: Files) returns (b: Loaded, tm: Tm)
    ensures (b, tm) == LoadAll(env, files)
  {
    hide FlattenInto, LoadTm, ByTextHash;
    var existing := FlattenTranslations(files.locale.Load([]), "", []);
    tm := LoadTranslationMemory(files.tm.Load([]));
    var byHash := BuildTranslationMemoryByTextHash(tm, env.locale);
    b := Loaded(existing, if files.meta.Missing? then [] else files.meta.value.fallbackKeys, byHash);
  }

  /** The next locale map: every source key in order, with its text. */
  method RebuildMap(source: Flat, next: map<string, string>) returns (nextMap: Entries)
    ensures nextMap == Replay([], WithTexts(source, TextFor(next)))
  {
    hide SetNested, Split;
    nextMap := [];
    ghost var texts := WithTexts(source, TextFor(next));
    for i := 0 to |source|
      invariant Replay([], texts) == Replay(nextMap, texts[i..])
    {
      assert texts[i..][1..] == texts[i + 1..];
      nextMap := SetNestedValue(nextMap, source[i].0, if source[i].0 in next then next[source[i].0] else source[i].1);
    }
  }

  method WorkOutFiles(env: Env, clock: string, files: Files, source: Flat, sourceHash: string,
                      done: Work) returns (next: Files)
    ensures next == NextFiles(env, clock, files, source, sourceHash, done)
  {
    hide Replay, WithTexts, NextMeta, RenderTm;
    var nextMap := RebuildMap(source, done.next);
    var previous := if files.meta.Missing? then None else Some(files.meta.value);
    var glossary := files.glossary.Load([]);
    next := Files(Generated(nextMap), Generated(NextMeta(env, clock, previous, sourceHash, |source|, done.fallback)),
                  Generated(RenderTm(done.tm, env.localeLeq)),
                  Generated(if glossary == [] then env.defaultGlossary else glossary));
  }

  method StoreBatch(env: Env, clock: string, translated: map<string, string>, before: Work,
                    batch: Batch) returns (w: Work)
    ensures w == StoreAll(env, clock, translated, before, batch)
  {
    hide Store;
    w := before;
    for i := 0 to |batch|
      invariant StoreAll(env, clock, translated, before, batch) == StoreAll(env, clock, translated, w, batch[i..])
    {
      assert batch[i..][1..] == batch[i + 1..];
      w := Store(env, clock, translated, w, batch[i]);
    }
  }

  method TranslatePending(env: Env, clock: string, translate: Translator,
                          decided: Work) returns (r: Result<Work, string>)
    ensures r == TranslateAll(env, clock, translate, decided, Batches(decided.pending, env.batchBudget))
  {
    hide StoreAll, Batches, Partition;
    var batches := BuildTranslationBatches(decided.pending, env.batchBudget);
    var w := decided;
    for k := 0 to |batches|
      invariant TranslateAll(env, clock, translate, decided, batches)
          == TranslateAll(env, clock, translate, w, batches[k..])
    {
      assert batches[k..][1..] == batches[k + 1..];
      var translated :- translate(batches[k]);
      w := StoreBatch(env, clock, translated, w, batches[k]);
    }
    return Ok(w);
  }

  method SyncLocale(env: Env, clock: string, options: Options, source: Entries, sourceHash: string, files: Files,
                    translate: Translator)
    returns (r: Result<Outcome, string>)
    ensures r == Sync(env, clock, options, source, sourceHash, files, translate)
  {
    hide Decide, FallBack, FlattenInto, LoadAll, NextFiles, Same, TranslateAll, Batches;
    var sourceFlat := FlattenTranslations(source, "", []);
    assert sourceFlat == Flatten(source);
    var b, tm := LoadState(env, files);
    var w := Work(map[], [], [], tm);
    for i := 0 to |sourceFlat|
      invariant DecideAll(env, b, Work(map[], [], [], tm), sourceFlat) == DecideAll(env, b, w, sourceFlat[i..])
    {
      assert sourceFlat[i..][1..] == sourceFlat[i + 1..];
      w := Decide(env, b, w, sourceFlat[i].0, sourceFlat[i].1);
    }
    var pending := w.pending;
    if env.allowTranslate && |pending| > 0 {
      var answer := TranslatePending(env, clock, translate, w);
      if answer.Err? {
        if env.authSkips(answer.error) {
          return Ok(Outcome(files, false, |b.previous|, false));
        }
        return Err(answer.error);
      }
      w := answer.value;
    }
    ghost var stored := w;
    for i := 0 to |pending|
      invariant FallBackAll(b, options.force, stored, pending) == FallBackAll(b, options.force, w, pending[i..])
    {
      assert pending[i..][1..] == pending[i + 1..];
      w := FallBack(b, options.force, w, pending[i]);
    }
    if !env.parity(sourceFlat, w.next) {
      return Err("placeholder mismatch");
    }
    var next := WorkOutFiles(env, clock, files, sourceFlat, sourceHash, w);
    var changed := !Same(files, next);
    var count := |next.meta.value.fallbackKeys|;
    if !changed || NothingAsked(files, sourceHash, options) {
      return Ok(Outcome(files, changed, count, false));
    }
    var written := files;
    if !options.checkOnly && options.write {
      written := next;
    }
    return Ok(Outcome(written, changed, count, !options.checkOnly && options.write && changed));
  }
}
