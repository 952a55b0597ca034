/** After a sync has written its files, syncing again changes nothing. */
module LocaleSyncLaws {
  import opened Wrappers
  import opened TranslationTree
  import opened TranslationBatches
  import opened LocaleSync
  import Sorting
  import Text

  /** sha256 over distinct inputs, and a total order on keys. */
  ghost predicate EnvOk(env: Env) {
    && Sorting.TotalOrder(env.localeLeq)
    && (forall k, h :: env.cacheKey(k, h) != "")
    && forall k, h, k', h' :: env.cacheKey(k, h) == env.cacheKey(k', h') ==> k == k' && h == h'
  }

  // ---------- maps as entry lists ----------

  lemma {:induction false} SetContents<V>(m: seq<(string, V)>, key: string, value: V)
    requires DistinctKeys(m)
    ensures DistinctKeys(Set(m, key, value))
    ensures forall p | p in Set(m, key, value) :: p == (key, value) || (p in m && p.0 != key)
  {
    if m != [] {
      var rest := m[1..];
      assert forall p | p in rest :: p in m;
      if m[0].0 == key {
        assert forall i | 0 <= i < |rest| :: rest[i] == m[i + 1];
      } else {
        SetContents(rest, key, value);
        assert forall i | 0 <= i < |rest| :: rest[i] == m[i + 1];
      }
    }
  }

  lemma {:induction false} GetIsIn<V>(m: seq<(string, V)>, key: string)
    requires Get(m, key).Some?
    ensures (key, Get(m, key).value) in m
  {
    if m[0].0 != key {
      GetIsIn(m[1..], key);
    }
  }

  lemma {:induction false} GetAt<V>(m: seq<(string, V)>, i: nat)
    requires DistinctKeys(m) && i < |m|
    ensures Get(m, m[i].0) == Some(m[i].1)
  {
    if i > 0 {
      assert m[0].0 != m[i].0;
      GetAt(m[1..], i - 1);
    }
  }

  // ---------- the memory: load and render ----------

  predicate EntryOk(p: (string, TmEntry)) {
    p.0 == p.1.cacheKey && p.0 != "" && !Text.Blank(p.1.translated)
  }

  ghost predicate TmOk(tm: Tm) {
    DistinctKeys(tm) && forall p | p in tm :: EntryOk(p)
  }

  lemma {:induction false} TmOkAfterSet(tm: Tm, key: string, e: TmEntry)
    requires TmOk(tm) && EntryOk((key, e))
    ensures TmOk(Set(tm, key, e))
  {
    SetContents(tm, key, e);
  }

  lemma {:induction false} LoadTmOk(lines: seq<TmEntry>)
    ensures TmOk(LoadTm(lines))
  {
    if lines != [] {
      var e := lines[|lines| - 1];
      LoadTmOk(lines[..|lines| - 1]);
      if e.cacheKey != "" && !Text.Blank(e.translated) {
        TmOkAfterSet(LoadTm(lines[..|lines| - 1]), e.cacheKey, e);
      }
    }
  }

  /** Loading lines with distinct, acceptable keys keeps all of them in order. */
  lemma {:induction false} LoadTmKeepsAll(lines: seq<TmEntry>)
    requires Sorting.KeysDistinct(lines, KeyOfEntry)
    requires forall e | e in lines :: EntryOk((e.cacheKey, e))
    ensures ValuesOf(LoadTm(lines)) == lines && TmOk(LoadTm(lines))
  {
    hide Text.Blank, Set;
    LoadTmOk(lines);
    if lines != [] {
      var n := |lines| - 1;
      var before := LoadTm(lines[..n]);
      LoadTmKeepsAll(lines[..n]);
      assert lines[n] in lines;
      forall i | 0 <= i < |before|
        ensures before[i].0 != lines[n].cacheKey
      {
        assert before[i] in before && EntryOk(before[i]);
        assert ValuesOf(before)[i] == lines[..n][i] == lines[i];
        assert KeyOfEntry(lines[i]) != KeyOfEntry(lines[n]);
      }
      SetAbsent(before, lines[n].cacheKey, lines[n]);
      assert lines == lines[..n] + [lines[n]];
    }
  }

  lemma {:induction false} ValuesDistinct(tm: Tm)
    requires TmOk(tm)
    ensures Sorting.KeysDistinct(ValuesOf(tm), KeyOfEntry)
    ensures forall e | e in ValuesOf(tm) :: EntryOk((e.cacheKey, e)) && (e.cacheKey, e) in tm
  {
    forall i, j | 0 <= i < j < |tm|
      ensures KeyOfEntry(ValuesOf(tm)[i]) != KeyOfEntry(ValuesOf(tm)[j])
    {
      assert EntryOk(tm[i]) && EntryOk(tm[j]);
    }
    forall e | e in ValuesOf(tm)
      ensures EntryOk((e.cacheKey, e)) && (e.cacheKey, e) in tm
    {
      var i :| 0 <= i < |tm| && ValuesOf(tm)[i] == e;
      assert EntryOk(tm[i]) && tm[i] == (e.cacheKey, e);
    }
  }

  /** What a rendered memory loads back to: the same entries under the same keys, and the same rendering. */
  lemma {:induction false} RenderThenLoad(tm: Tm, leq: (string, string) -> bool)
    requires TmOk(tm) && Sorting.TotalOrder(leq)
    ensures var again := LoadTm(RenderTm(tm, leq));
            && TmOk(again)
            && (forall key :: Get(again, key) == Get(tm, key))
            && (forall p | p in again :: p in tm)
            && RenderTm(again, leq) == RenderTm(tm, leq)
  {
    hide Sorting.Sort, Sorting.Sorted, Sorting.KeysDistinct, Sorting.TotalOrder, LoadTm, Get, EntryOk;
    var values := ValuesOf(tm);
    var lines := RenderTm(tm, leq);
    var again := LoadTm(lines);
    Sorting.SortSorts(values, KeyOfEntry, leq);
    ValuesDistinct(tm);
    Sorting.PermutedDistinct(values, lines, KeyOfEntry);
    forall e | e in lines
      ensures e in values
    {
      assert e in multiset(lines) && e in multiset(values);
    }
    LoadTmKeepsAll(lines);
    ValuesDistinct(again);
    SamePairs(tm, again);
    forall key
      ensures Get(again, key) == Get(tm, key)
    {
      SameLookup(tm, again, key);
    }
    Sorting.SortSorts(lines, KeyOfEntry, leq);
    Sorting.SortedUnique(lines, RenderTm(again, leq), KeyOfEntry, leq) by {
      Sorting.PermutedDistinct(lines, RenderTm(again, leq), KeyOfEntry);
    }
  }

  lemma {:induction false} SamePairs(a: Tm, b: Tm)
    requires TmOk(a) && TmOk(b) && multiset(ValuesOf(a)) == multiset(ValuesOf(b))
    ensures forall p :: p in a <==> p in b
  {
    InOther(a, b);
    InOther(b, a);
  }

  lemma {:induction false} InOther(a: Tm, b: Tm)
    requires TmOk(a) && TmOk(b) && multiset(ValuesOf(a)) == multiset(ValuesOf(b))
    ensures forall p | p in a :: p in b
  {
    ValuesDistinct(b);
    forall p | p in a
      ensures p in b
    {
      assert EntryOk(p);
      var i :| 0 <= i < |a| && a[i] == p;
      assert ValuesOf(a)[i] == p.1;
      assert p.1 in multiset(ValuesOf(b));
      assert p.1 in ValuesOf(b);
    }
  }

  lemma {:induction false} SameLookup(a: Tm, b: Tm, key: string)
    requires DistinctKeys(a) && DistinctKeys(b) && forall p :: p in a <==> p in b
    ensures Get(a, key) == Get(b, key)
  {
    FoundInOther(a, b, key);
    FoundInOther(b, a, key);
  }

  lemma {:induction false} FoundInOther(a: Tm, b: Tm, key: string)
    requires DistinctKeys(a) && DistinctKeys(b) && forall p :: p in a <==> p in b
    ensures Get(a, key).Some? ==> Get(b, key) == Get(a, key)
  {
    if Get(a, key).Some? {
      GetIsIn(a, key);
      var p := (key, Get(a, key).value);
      var i :| 0 <= i < |b| && b[i] == p;
      GetAt(b, i);
    }
  }

  // ---------- what the loops establish for every source key ----------

  type Pair = (string, string)  // source key and source text

  function CacheKeyOf(env: Env, p: Pair): string {
    env.cacheKey(p.0, env.hashText(p.1))
  }

  function ItemOf(env: Env, p: Pair): Item {
    Item(CacheKeyOf(env, p), p.0, p.1, env.hashText(p.1))
  }

  /** The key has its text, and a later run will find the same one where this predicate says. */
  ghost predicate Done(env: Env, b: Loaded, w: Work, p: Pair) {
    && p.0 in w.next
    && match Get(w.tm, CacheKeyOf(env, p))
       case Some(e) => e.translated == w.next[p.0]
       case None => p.0 in w.fallback ==> !env.allowTranslate && env.hashText(p.1) !in b.byHash
  }

  ghost predicate Waiting(env: Env, b: Loaded, w: Work, p: Pair, left: Batch) {
    && p.0 !in w.next && p.0 !in w.fallback && ItemOf(env, p) in left
    && (!env.allowTranslate ==> Get(w.tm, CacheKeyOf(env, p)).None? && env.hashText(p.1) !in b.byHash)
  }

  /** The entries found by text hash were loaded, and without a provider no new hash enters the memory. */
  ghost predicate MemoryOk(env: Env, b: Loaded, tm: Tm) {
    && TmOk(tm)
    && (forall h | h in b.byHash :: b.byHash[h].textHash == h && !Text.Blank(b.byHash[h].translated))
    && (!env.allowTranslate ==> forall p | p in tm && Indexed(p.1, env.locale) :: p.1.textHash in b.byHash)
  }

  /** Invariant of the loops: `done` are the source pairs seen, `left` the pending items not yet handled. */
  ghost predicate Inv(env: Env, b: Loaded, w: Work, done: seq<Pair>, left: Batch) {
    && MemoryOk(env, b, w.tm)
    && (forall p | p in done :: Done(env, b, w, p) || Waiting(env, b, w, p, left))
    && (forall key | key in w.next || key in w.fallback :: exists p :: p in done && p.0 == key)
    && (env.allowTranslate ==> w.fallback == [])
    && (forall item | item in left :: exists p :: p in done && item == ItemOf(env, p))
  }

  /** `v` differs from `w` only in what concerns pair `p`. */
  ghost predicate OnlyAbout(env: Env, w: Work, v: Work, p: Pair) {
    && (forall key | key != p.0 :: (key in v.next <==> key in w.next) && (key in w.next ==> v.next[key] == w.next[key]))
    && (forall key | key != p.0 :: key in v.fallback <==> key in w.fallback)
    && (forall c | c != CacheKeyOf(env, p) :: Get(v.tm, c) == Get(w.tm, c))
  }

  lemma {:induction false} OthersKept(env: Env, b: Loaded, w: Work, v: Work, p: Pair, q: Pair, left: Batch,
                                      left': Batch)
    requires EnvOk(env) && OnlyAbout(env, w, v, p) && p.0 != q.0
    requires Done(env, b, w, q) || Waiting(env, b, w, q, left)
    requires ItemOf(env, q) in left ==> ItemOf(env, q) in left'
    ensures Done(env, b, v, q) || Waiting(env, b, v, q, left')
    ensures Done(env, b, w, q) ==> Done(env, b, v, q)
  {
    assert CacheKeyOf(env, p) != CacheKeyOf(env, q);
  }

  lemma {:induction false} DecideOne(env: Env, b: Loaded, w: Work, p: Pair)
    requires EnvOk(env) && MemoryOk(env, b, w.tm)
    requires p.0 !in w.next && p.0 !in w.fallback && (env.allowTranslate ==> w.fallback == [])
    ensures var v := Decide(env, b, w, p.0, p.1);
            && OnlyAbout(env, w, v, p) && MemoryOk(env, b, v.tm)
            && (Done(env, b, v, p) || Waiting(env, b, v, p, v.pending))
            && (v.pending == w.pending || v.pending == w.pending + [ItemOf(env, p)])
            && (env.allowTranslate ==> v.fallback == [])
  {
    var h := env.hashText(p.1);
    var ck := CacheKeyOf(env, p);
    var refresh := p.0 in b.previous;
    if Get(w.tm, ck).Some? && !(env.allowTranslate && refresh) {
    } else if h in b.byHash && (refresh || Get(b.existing, p.0).None?) {
      var copy := b.byHash[h].(cacheKey := ck, segmentId := p.0, sourcePath := env.sourcePath);
      MemoryAfterSet(env, b, w.tm, ck, copy);
      LookupsAfterSet(w.tm, ck, copy);
    } else if Get(b.existing, p.0).Some? && !(env.allowTranslate && refresh) {
    } else {
      assert ItemOf(env, p) in w.pending + [ItemOf(env, p)];
    }
  }

  lemma {:induction false} LookupsAfterSet(tm: Tm, ck: string, e: TmEntry)
    ensures forall c :: Get(Set(tm, ck, e), c) == if c == ck then Some(e) else Get(tm, c)
  {
    forall c {
      GetAfterSet(tm, ck, e, c);
    }
  }

  lemma {:induction false} MemoryAfterSet(env: Env, b: Loaded, tm: Tm, ck: string, e: TmEntry)
    requires MemoryOk(env, b, tm) && EntryOk((ck, e))
    requires !env.allowTranslate ==> e.textHash in b.byHash
    ensures MemoryOk(env, b, Set(tm, ck, e))
  {
    TmOkAfterSet(tm, ck, e);
    SetContents(tm, ck, e);
  }

  lemma {:induction false} DecideKeepsInv(env: Env, b: Loaded, w: Work, done: seq<Pair>, p: Pair)
    requires EnvOk(env) && Inv(env, b, w, done, w.pending)
    requires forall q | q in done :: q.0 != p.0
    ensures var v := Decide(env, b, w, p.0, p.1);
            Inv(env, b, v, done + [p], v.pending)
  {
    hide Decide, MemoryOk, EnvOk, Done, Waiting, ItemOf;
    var v := Decide(env, b, w, p.0, p.1);
    DecideOne(env, b, w, p);
    forall q | q in done + [p]
      ensures Done(env, b, v, q) || Waiting(env, b, v, q, v.pending)
    {
      if q.0 != p.0 {
        OthersKept(env, b, w, v, p, q, w.pending, v.pending);
      } else {
        assert q == p;
      }
    }
    assert p in done + [p];
    assert forall q | q in done :: q in done + [p];
  }

  lemma {:induction false} DecideAllKeepsInv(env: Env, b: Loaded, w: Work, done: seq<Pair>, source: Flat)
    requires EnvOk(env) && Inv(env, b, w, done, w.pending) && DistinctKeys(done + source)
    ensures var v := DecideAll(env, b, w, source);
            Inv(env, b, v, done + source, v.pending)
    decreases |source|
  {
    hide Decide, Inv, EnvOk;
    if source == [] {
      assert done + source == done;
    } else {
      var p := source[0];
      assert forall i | 0 <= i < |done| :: (done + source)[i] == done[i];
      assert (done + source)[|done|] == p;
      DecideKeepsInv(env, b, w, done, p);
      assert done + [p] + source[1..] == done + source;
      DecideAllKeepsInv(env, b, Decide(env, b, w, p.0, p.1), done + [p], source[1..]);
    }
  }

  ghost predicate AnswersAll(items: Batch, translated: map<string, string>) {
    forall item | item in items :: item.key in translated && !Text.Blank(translated[item.key])
  }

  /** Handling one pending item, by either of the later loops. */
  lemma {:induction false} HandledKeepsInv(env: Env, b: Loaded, w: Work, v: Work, done: seq<Pair>, left: Batch, p: Pair)
    requires EnvOk(env) && Inv(env, b, w, done, left) && left != [] && p in done && left[0] == ItemOf(env, p)
    requires DistinctKeys(done)
    requires OnlyAbout(env, w, v, p) && MemoryOk(env, b, v.tm) && Done(env, b, v, p)
    requires env.allowTranslate ==> v.fallback == []
    ensures Inv(env, b, v, done, left[1..])
    ensures forall q | q in done && Done(env, b, w, q) :: Done(env, b, v, q)
  {
    hide MemoryOk, EnvOk, Done, CacheKeyOf;
    forall q | q in done
      ensures Done(env, b, v, q) || Waiting(env, b, v, q, left[1..])
      ensures Done(env, b, w, q) ==> Done(env, b, v, q)
    {
      if q.0 == p.0 {
        assert q == p;
      } else {
        assert ItemOf(env, q).key != left[0].key;
        assert left == [left[0]] + left[1..];
        OthersKept(env, b, w, v, p, q, left, left[1..]);
      }
    }
    assert forall item | item in left[1..] :: item in left;
  }

  lemma {:induction false} BlankEmpty()
    ensures Text.Blank("")
  {
  }

  lemma {:induction false} StoreOne(env: Env, b: Loaded, clock: string, translated: map<string, string>, w: Work,
                                    p: Pair)
    requires env.allowTranslate && MemoryOk(env, b, w.tm) && env.cacheKey(p.0, env.hashText(p.1)) != ""
    requires p.0 in translated && !Text.Blank(translated[p.0])
    ensures var v := Store(env, clock, translated, w, ItemOf(env, p));
            OnlyAbout(env, w, v, p) && MemoryOk(env, b, v.tm) && Done(env, b, v, p) && v.fallback == w.fallback
  {
    hide MemoryOk, Text.Blank;
    BlankEmpty();
    var item, value := ItemOf(env, p), translated[p.0];
    var entry := TmEntry(item.cacheKey, item.key, env.sourcePath, item.textHash, env.locale, value, item.text,
                         env.model, env.provider, SOURCE_LOCALE, clock);
    MemoryAfterSet(env, b, w.tm, item.cacheKey, entry);
    LookupsAfterSet(w.tm, item.cacheKey, entry);
  }

  lemma {:induction false} StoreKeepsInv(env: Env, b: Loaded, clock: string, translated: map<string, string>, w: Work,
                                         done: seq<Pair>, left: Batch)
    requires EnvOk(env) && env.allowTranslate && Inv(env, b, w, done, left) && left != [] && DistinctKeys(done)
    requires left[0].key in translated && !Text.Blank(translated[left[0].key])
    ensures Inv(env, b, Store(env, clock, translated, w, left[0]), done, left[1..])
  {
    hide MemoryOk, OnlyAbout, Done, Waiting, Store, Text.Blank, DistinctKeys;
    assert left[0] in left;
    var p :| p in done && left[0] == ItemOf(env, p);
    StoreOne(env, b, clock, translated, w, p);
    HandledKeepsInv(env, b, w, Store(env, clock, translated, w, left[0]), done, left, p);
  }

  /** Storing the first of the pending batches; `rest` is what is left after it. */
  lemma {:induction false} StoreAllKeepsInv(env: Env, b: Loaded, clock: string, translated: map<string, string>,
                                            w: Work, done: seq<Pair>, items: Batch, rest: Batch)
    requires EnvOk(env) && env.allowTranslate && Inv(env, b, w, done, items + rest) && DistinctKeys(done)
    requires AnswersAll(items, translated)
    ensures Inv(env, b, StoreAll(env, clock, translated, w, items), done, rest)
    decreases |items|
  {
    hide Inv, EnvOk, Store, DistinctKeys;
    if items == [] {
      assert items + rest == rest;
    } else {
      assert items[0] in items && (items + rest)[1..] == items[1..] + rest;
      StoreKeepsInv(env, b, clock, translated, w, done, items + rest);
      assert forall item | item in items[1..] :: item in items;
      StoreAllKeepsInv(env, b, clock, translated, Store(env, clock, translated, w, items[0]), done, items[1..], rest);
    }
  }

  lemma {:induction false} TranslateAllKeepsInv(env: Env, b: Loaded, clock: string, translate: Translator, w: Work,
                                                done: seq<Pair>, batches: seq<Batch>)
    requires EnvOk(env) && env.allowTranslate && Inv(env, b, w, done, Concat(batches)) && DistinctKeys(done)
    requires TranslatorOk(translate) && TranslateAll(env, clock, translate, w, batches).Ok?
    ensures Inv(env, b, TranslateAll(env, clock, translate, w, batches).value, done, [])
    decreases |batches|
  {
    hide Inv, EnvOk, StoreAll, DistinctKeys, AnswersAll;
    if batches != [] {
      var translated := translate(batches[0]).value;
      StoreAllKeepsInv(env, b, clock, translated, w, done, batches[0], Concat(batches[1..]));
      TranslateAllKeepsInv(env, b, clock, translate, StoreAll(env, clock, translated, w, batches[0]), done,
          batches[1..]);
    }
  }

  lemma {:induction false} BatchesConcat(pending: Batch, budget: real)
    ensures Concat(Batches(pending, budget)) == pending
  {
    GreedyPartitions(LOOP_EXTRA, [], pending, budget);
    assert [] + pending == pending;
  }

  /** With a provider everything pending has been stored, so the last loop finds nothing to do. */
  lemma {:induction false} FallBackIdle(b: Loaded, force: bool, w: Work, items: Batch)
    requires forall item | item in items :: item.key in w.next
    ensures FallBackAll(b, force, w, items) == w
  {
    if items != [] {
      assert items[0] in items;
      assert forall item | item in items[1..] :: item in items;
      FallBackIdle(b, force, w, items[1..]);
    }
  }

  lemma {:induction false} FallBackOne(env: Env, b: Loaded, force: bool, w: Work, p: Pair, left: Batch)
    requires !env.allowTranslate && (Done(env, b, w, p) || Waiting(env, b, w, p, left))
    ensures var v := FallBack(b, force, w, ItemOf(env, p));
            OnlyAbout(env, w, v, p) && v.tm == w.tm && Done(env, b, v, p)
  {
  }

  lemma {:induction false} FallBackKeepsInv(env: Env, b: Loaded, force: bool, w: Work, done: seq<Pair>, left: Batch)
    requires EnvOk(env) && !env.allowTranslate && Inv(env, b, w, done, left) && left != [] && DistinctKeys(done)
    ensures Inv(env, b, FallBack(b, force, w, left[0]), done, left[1..])
  {
    hide MemoryOk, OnlyAbout, Done, Waiting, FallBack, DistinctKeys, EnvOk;
    assert left[0] in left;
    var p :| p in done && left[0] == ItemOf(env, p);
    FallBackOne(env, b, force, w, p, left);
    HandledKeepsInv(env, b, w, FallBack(b, force, w, left[0]), done, left, p);
  }

  lemma {:induction false} FallBackAllKeepsInv(env: Env, b: Loaded, force: bool, w: Work, done: seq<Pair>, left: Batch)
    requires EnvOk(env) && !env.allowTranslate && Inv(env, b, w, done, left) && DistinctKeys(done)
    ensures Inv(env, b, FallBackAll(b, force, w, left), done, [])
    decreases |left|
  {
    hide Inv, EnvOk, FallBack, DistinctKeys;
    if left != [] {
      FallBackKeepsInv(env, b, force, w, done, left);
      FallBackAllKeepsInv(env, b, force, FallBack(b, force, w, left[0]), done, left[1..]);
    }
  }

  ghost predicate TranslatorOk(translate: Translator) {
    forall items :: translate(items).Ok? ==> AnswersAll(items, translate(items).value)
  }

  lemma {:induction false} SettleEstablishes(env: Env, clock: string, b: Loaded, force: bool, tm: Tm, source: Flat,
                                             translate: Translator)
    requires EnvOk(env) && MemoryOk(env, b, tm) && DistinctKeys(source) && TranslatorOk(translate)
    requires Settle(env, clock, b, force, tm, source, translate).Ok?
    ensures Inv(env, b, Settle(env, clock, b, force, tm, source, translate).value, source, [])
  {
    hide EnvOk, MemoryOk, DistinctKeys, DecideAll, TranslateAll, Batches, FallBackAll, Done;
    var start := Work(map[], [], [], tm);
    var decided := DecideAll(env, b, start, source);
    assert [] + source == source;
    DecideAllKeepsInv(env, b, start, [], source);
    if env.allowTranslate {
      var stored := decided;
      if decided.pending != [] {
        var batches := Batches(decided.pending, env.batchBudget);
        BatchesConcat(decided.pending, env.batchBudget);
        TranslateAllKeepsInv(env, b, clock, translate, decided, source, batches);
        stored := TranslateAll(env, clock, translate, decided, batches).value;
      }
      FallBackIdle(b, force, stored, decided.pending) by {
        PendingHandled(env, b, decided, stored, source);
      }
    } else {
      FallBackAllKeepsInv(env, b, force, decided, source, decided.pending);
    }
  }

  lemma {:induction false} PendingHandled(env: Env, b: Loaded, decided: Work, stored: Work, source: Flat)
    requires Inv(env, b, decided, source, decided.pending) && Inv(env, b, stored, source, [])
    ensures forall item | item in decided.pending :: item.key in stored.next
  {
    forall item | item in decided.pending
      ensures item.key in stored.next
    {
      var p :| p in source && item == ItemOf(env, p);
      assert Done(env, b, stored, p) || Waiting(env, b, stored, p, []);
    }
  }

  // ---------- the second run ----------

  lemma {:induction false} FlattenDistinct(entries: Entries, prefix: string, out: Flat)
    requires DistinctKeys(out)
    ensures DistinctKeys(FlattenInto(entries, prefix, out))
    decreases entries
  {
    if entries != [] {
      assert entries decreases to entries[0];
      FlattenEntryDistinct(entries[0], prefix, out);
      FlattenDistinct(entries[1..], prefix, FlattenEntry(entries[0], prefix, out));
    }
  }

  lemma {:induction false} FlattenEntryDistinct(entry: (string, Tree), prefix: string, out: Flat)
    requires DistinctKeys(out)
    ensures DistinctKeys(FlattenEntry(entry, prefix, out))
    decreases entry
  {
    match entry.1
    case Leaf(text) => SetContents(out, FullKey(prefix, entry.0), text);
    case Node(inner) => FlattenDistinct(inner, FullKey(prefix, entry.0), out);
  }

  lemma {:induction false} ByTextHashSound(tm: Tm, locale: string)
    ensures forall h | h in ByTextHash(tm, locale) ::
              var e := ByTextHash(tm, locale)[h];
              e.textHash == h && Indexed(e, locale) && exists p :: p in tm && p.1 == e
    ensures forall p | p in tm && Indexed(p.1, locale) :: p.1.textHash in ByTextHash(tm, locale)
  {
    if tm != [] {
      var n := |tm| - 1;
      ByTextHashSound(tm[..n], locale);
      assert tm == tm[..n] + [tm[n]];
      assert tm[n] in tm;
    }
  }

  /** Of the indexed entries with one text hash the last in the memory is found. */
  lemma {:induction false} LastOfHashWins(tm: Tm, locale: string, i: nat)
    requires i < |tm| && Indexed(tm[i].1, locale)
    requires forall j | i < j < |tm| && Indexed(tm[j].1, locale) :: tm[j].1.textHash != tm[i].1.textHash
    ensures var h := tm[i].1.textHash; h in ByTextHash(tm, locale) && ByTextHash(tm, locale)[h] == tm[i].1
  {
    hide Indexed;
    if i < |tm| - 1 {
      LastOfHashWins(tm[..|tm| - 1], locale, i);
    }
  }

  lemma {:induction false} LoadedMemoryOk(env: Env, files: Files)
    ensures var (b, tm) := LoadAll(env, files); MemoryOk(env, b, tm)
  {
    var (b, tm) := LoadAll(env, files);
    LoadTmOk(files.tm.Load([]));
    ByTextHashSound(tm, env.locale);
  }

  /** On memory `tm` the loop gives pair `p` the first run's text, and falls back if that run did. */
  ghost predicate Decides(env: Env, b: Loaded, tm: Tm, first: Work, p: Pair)
    requires p.0 in first.next
  {
    forall w: Work | w.tm == tm ::
      Decide(env, b, w, p.0, p.1) == Keep(w, p.0, first.next[p.0], p.0 in first.fallback)
  }

  /**
   What a later run, perhaps under another configuration, must find loaded to leave a pair alone: the
   memory does not hold another text for it, and a fallback is not refreshed.
   */
  ghost predicate Stays(env: Env, b: Loaded, tm: Tm, p: Pair) {
    var entry, existing := Get(tm, CacheKeyOf(env, p)), Get(b.existing, p.0);
    && existing.Some?
    && (entry.Some? ==> entry.value.translated == existing.value)
    && (p.0 in b.previous ==> !env.allowTranslate && (entry.Some? || env.hashText(p.1) !in b.byHash))
  }

  lemma {:induction false} DecidesKnown(env: Env, b: Loaded, w: Work, p: Pair)
    requires Stays(env, b, w.tm, p)
    ensures Decide(env, b, w, p.0, p.1) == Keep(w, p.0, Get(b.existing, p.0).value, p.0 in b.previous)
  {
    hide Get;
  }

  /** Under the configuration of the first run, or the same without its provider, every pair stays. */
  lemma {:induction false} StaysWithoutProvider(env: Env, b: Loaded, first: Work, provider: bool, b2: Loaded, tm2: Tm,
                                                p: Pair)
    requires Done(env, b, first, p) && MemoryOk(env, b, first.tm) && (env.allowTranslate ==> first.fallback == [])
    requires provider ==> env.allowTranslate
    requires forall c :: Get(tm2, c) == Get(first.tm, c)
    requires forall e | e in tm2 :: e in first.tm
    requires b2.byHash == ByTextHash(tm2, env.locale)
    requires p.0 in b2.previous <==> p.0 in first.fallback
    requires Get(b2.existing, p.0) == Some(first.next[p.0])
    ensures Stays(env.(allowTranslate := provider), b2, tm2, p)
  {
    hide Get, ByTextHash, TmOk;
    var h := env.hashText(p.1);
    if !env.allowTranslate && h in b2.byHash {
      HashWasKnown(env, b, first.tm, tm2, h);
    }
  }

  lemma {:induction false} HashWasKnown(env: Env, b: Loaded, tm: Tm, tm2: Tm, h: string)
    requires MemoryOk(env, b, tm) && !env.allowTranslate
    requires forall e | e in tm2 :: e in tm
    requires h in ByTextHash(tm2, env.locale)
    ensures h in b.byHash
  {
    hide TmOk, Indexed;
    ByTextHashSound(tm2, env.locale);
    var p :| p in tm2 && p.1 == ByTextHash(tm2, env.locale)[h];
    assert p in tm;
  }

  /** The source keys among the fallback keys, in source order. */
  function FallenKeys(source: Flat, fallback: seq<string>): seq<string> {
    if source == [] then []
    else (if source[0].0 in fallback then [source[0].0] else []) + FallenKeys(source[1..], fallback)
  }

  lemma {:induction false} FallenKeysSame(source: Flat, fallback: seq<string>)
    ensures forall key ::
      key in FallenKeys(source, fallback) <==> key in fallback && exists p :: p in source && p.0 == key
  {
    if source != [] {
      FallenKeysSame(source[1..], fallback);
      assert source == [source[0]] + source[1..];
      assert source[0] in source;
    }
  }

  ghost predicate RepeatsAll(env: Env, b: Loaded, tm: Tm, first: Work, source: Flat) {
    forall p | p in source :: p.0 in first.next && Decides(env, b, tm, first, p)
  }

  /** The loop when every pair repeats the first run. */
  function Repeat(w: Work, first: Work, source: Flat): Work
    requires forall p | p in source :: p.0 in first.next
    decreases |source|
  {
    if source == [] then w
    else
      assert source[0] in source && forall p | p in source[1..] :: p in source;
      Repeat(Keep(w, source[0].0, first.next[source[0].0], source[0].0 in first.fallback), first, source[1..])
  }

  lemma {:induction false} DecideAllRepeats(env: Env, b: Loaded, first: Work, w: Work, source: Flat)
    requires RepeatsAll(env, b, w.tm, first, source)
    ensures DecideAll(env, b, w, source) == Repeat(w, first, source)
    decreases |source|
  {
    hide Decide;
    if source != [] {
      var p := source[0];
      assert p in source && Decides(env, b, w.tm, first, p);
      assert forall q | q in source[1..] :: q in source;
      DecideAllRepeats(env, b, first, Keep(w, p.0, first.next[p.0], p.0 in first.fallback), source[1..]);
    }
  }

  ghost predicate Agrees(a: map<string, string>, b: map<string, string>) {
    forall key | key in a :: key in b && a[key] == b[key]
  }

  function SourceKeys(source: Flat): set<string> {
    set p | p in source :: p.0
  }

  lemma {:induction false} RepeatStep(w: Work, first: Work, source: Flat)
    requires source != [] && forall p | p in source :: p.0 in first.next
    ensures forall p | p in source[1..] :: p.0 in first.next
    ensures source[0].0 in first.next
    ensures Repeat(w, first, source)
         == Repeat(Keep(w, source[0].0, first.next[source[0].0], source[0].0 in first.fallback), first, source[1..])
  {
    assert source[0] in source && forall q | q in source[1..] :: q in source;
  }

  lemma {:induction false} FallenCons(source: Flat, fallback: seq<string>)
    requires source != []
    ensures FallenKeys(source, fallback)
         == (if source[0].0 in fallback then [source[0].0] else []) + FallenKeys(source[1..], fallback)
  {
  }

  lemma {:induction false} RepeatKeeps(w: Work, first: Work, source: Flat)
    requires forall p | p in source :: p.0 in first.next
    ensures Repeat(w, first, source).tm == w.tm && Repeat(w, first, source).pending == w.pending
    ensures Repeat(w, first, source).fallback == w.fallback + FallenKeys(source, first.fallback)
    decreases |source|
  {
    if source == [] {
      assert FallenKeys(source, first.fallback) == [];
    } else {
      hide Repeat, FallenKeys;
      RepeatStep(w, first, source);
      FallenCons(source, first.fallback);
      var key, rest := source[0].0, source[1..];
      RepeatKeeps(Keep(w, key, first.next[key], key in first.fallback), first, rest);
      var later := FallenKeys(rest, first.fallback);
      assert w.fallback + [key] + later == w.fallback + ([key] + later);
    }
  }

  lemma {:induction false} SourceKeysCons(source: Flat)
    requires source != []
    ensures SourceKeys(source) == {source[0].0} + SourceKeys(source[1..])
  {
    assert source == [source[0]] + source[1..];
  }

  lemma {:induction false} RepeatNext(w: Work, first: Work, source: Flat)
    requires (forall p | p in source :: p.0 in first.next) && Agrees(w.next, first.next)
    ensures var v := Repeat(w, first, source);
            Agrees(v.next, first.next) && v.next.Keys == w.next.Keys + SourceKeys(source)
    decreases |source|
  {
    hide SourceKeys;
    if source == [] {
      NoSourceKeys();
    } else {
      var p := source[0];
      assert p in source && forall q | q in source[1..] :: q in source;
      SourceKeysCons(source);
      RepeatNext(Keep(w, p.0, first.next[p.0], p.0 in first.fallback), first, source[1..]);
    }
  }

  lemma {:induction false} NoSourceKeys()
    ensures SourceKeys([]) == {}
  {
  }

  lemma {:induction false} AgreesIsEqual(a: map<string, string>, b: map<string, string>)
    requires Agrees(a, b) && a.Keys == b.Keys
    ensures a == b
  {
  }

  // ---------- the written files ----------

  lemma {:induction false} DedupeSame(keys: seq<string>)
    ensures (forall key :: key in Dedupe(keys) <==> key in keys) && Sorting.KeysDistinct(Dedupe(keys), Self)
    ensures forall key :: multiset(Dedupe(keys))[key] == if key in keys then 1 else 0
  {
    if keys != [] {
      var n := |keys| - 1;
      DedupeSame(keys[..n]);
      assert keys == keys[..n] + [keys[n]];
    }
  }

  lemma {:induction false} SortedKeysSame(a: seq<string>, b: seq<string>, leq: (string, string) -> bool)
    requires Sorting.TotalOrder(leq) && forall key :: key in a <==> key in b
    ensures SortedKeys(a, leq) == SortedKeys(b, leq)
  {
    hide Sorting.Sort, Sorting.Sorted, Sorting.KeysDistinct, Sorting.TotalOrder, Dedupe;
    var x, y := SortedKeys(a, leq), SortedKeys(b, leq);
    DedupeSame(a);
    DedupeSame(b);
    assert multiset(Dedupe(a)) == multiset(Dedupe(b));
    Sorting.SortSorts(Dedupe(a), Self, leq);
    Sorting.SortSorts(Dedupe(b), Self, leq);
    Sorting.PermutedDistinct(Dedupe(b), y, Self);
    Sorting.SortedUnique(x, y, Self, leq);
  }

  lemma {:induction false} SortedKeysMembers(a: seq<string>, leq: (string, string) -> bool)
    requires Sorting.TotalOrder(leq)
    ensures forall key :: key in SortedKeys(a, leq) <==> key in a
  {
    hide Sorting.Sort, Sorting.Sorted, Sorting.TotalOrder, Dedupe, Sorting.KeysDistinct;
    DedupeSame(a);
    Sorting.SortSorts(Dedupe(a), Self, leq);
    var x := SortedKeys(a, leq);
    assert forall key :: key in x <==> key in multiset(x);
  }

  /** Everything a later run needs to know of the first one. */
  ghost predicate Settled(env: Env, b: Loaded, done: Work, source: Flat) {
    Inv(env, b, done, source, []) && done.next.Keys == SourceKeys(source)
  }

  lemma {:induction false} InvIsSettled(env: Env, b: Loaded, done: Work, source: Flat)
    requires Inv(env, b, done, source, [])
    ensures Settled(env, b, done, source)
    ensures forall p | p in source :: Done(env, b, done, p)
    ensures forall key | key in done.fallback :: exists p :: p in source && p.0 == key
  {
    assert forall p | p in source :: Done(env, b, done, p) || Waiting(env, b, done, p, []);
  }

  /** What the second run loads from the files the first one wrote. */
  lemma {:induction false} Reloaded(env: Env, source: Entries, sourceHash: string, clock: string, files: Files,
                                    b: Loaded, done: Work)
    requires EnvOk(env) && Proper(source) && Settled(env, b, done, Flatten(source))
    ensures var (b2, tm2) := LoadAll(env, NextFiles(env, clock, files, Flatten(source), sourceHash, done));
            && (forall c :: Get(tm2, c) == Get(done.tm, c)) && (forall e | e in tm2 :: e in done.tm)
            && RenderTm(tm2, env.localeLeq) == RenderTm(done.tm, env.localeLeq)
            && b2.byHash == ByTextHash(tm2, env.locale)
            && (forall key :: key in b2.previous <==> key in done.fallback)
            && b2.existing == WithTexts(Flatten(source), TextFor(done.next))
  {
    hide Sorting.TotalOrder, SortedKeys, RenderTm, ByTextHash, Flatten, Replay, TmOk, Proper;
    RenderThenLoad(done.tm, env.localeLeq);
    SortedKeysMembers(done.fallback, env.localeLeq);
    RebuildWithTexts(source, TextFor(done.next));
  }

  lemma {:induction false} ExistingTexts(source: Flat, next: map<string, string>, p: Pair)
    requires DistinctKeys(source) && p in source && p.0 in next
    ensures Get(WithTexts(source, TextFor(next)), p.0) == Some(next[p.0])
  {
    var i :| 0 <= i < |source| && source[i] == p;
    var texts := WithTexts(source, TextFor(next));
    assert texts[i] == (p.0, next[p.0]);
    GetAt(texts, i);
  }

  /** If every pair stays, the loops of a later run end where those of the first did, whatever the translator. */
  lemma {:induction false} SettlesAgain(env: Env, clock: string, done: Work, b2: Loaded, tm2: Tm, source: Flat,
                                        force: bool, translate: Translator)
    requires done.next.Keys == SourceKeys(source) && DistinctKeys(source)
    requires forall key | key in done.fallback :: key in SourceKeys(source)
    requires forall key :: key in b2.previous <==> key in done.fallback
    requires b2.existing == WithTexts(source, TextFor(done.next))
    requires forall p | p in source :: Stays(env, b2, tm2, p)
    ensures var r := Settle(env, clock, b2, force, tm2, source, translate);
            && r.Ok? && r.value.next == done.next && r.value.tm == tm2
            && (forall key :: key in r.value.fallback <==> key in done.fallback)
  {
    hide Get, Decide, WithTexts, DistinctKeys, SourceKeys, RepeatsAll, Agrees, FallenKeys, Stays;
    var start := Work(map[], [], [], tm2);
    AllDecideTheSame(env, done, b2, tm2, source);
    DecideAllRepeats(env, b2, done, start, source);
    var v := Repeat(start, done, source);
    RepeatKeeps(start, done, source);
    RepeatNext(start, done, source) by {
      AgreesNothing(done.next);
    }
    AgreesIsEqual(v.next, done.next);
    assert v.fallback == FallenKeys(source, done.fallback);
    FallenKeysSame(source, done.fallback);
    KeysHavePairs(source);
    assert FallBackAll(b2, force, v, []) == v;
  }

  lemma {:induction false} KeysHavePairs(source: Flat)
    ensures forall key :: key in SourceKeys(source) <==> exists p :: p in source && p.0 == key
  {
  }

  lemma {:induction false} AgreesNothing(b: map<string, string>)
    ensures Agrees(map[], b)
  {
  }

  lemma {:induction false} AllDecideTheSame(env: Env, done: Work, b2: Loaded, tm2: Tm, source: Flat)
    requires done.next.Keys == SourceKeys(source) && DistinctKeys(source)
    requires forall key :: key in b2.previous <==> key in done.fallback
    requires b2.existing == WithTexts(source, TextFor(done.next))
    requires forall p | p in source :: Stays(env, b2, tm2, p)
    ensures RepeatsAll(env, b2, tm2, done, source)
    ensures forall p | p in source :: p.0 in done.next
  {
    hide Get, WithTexts, DistinctKeys, Stays, Decide;
    forall p | p in source
      ensures p.0 in done.next && Decides(env, b2, tm2, done, p)
    {
      assert p.0 in SourceKeys(source);
      ExistingTexts(source, done.next, p);
      forall w: Work | w.tm == tm2
        ensures Decide(env, b2, w, p.0, p.1) == Keep(w, p.0, done.next[p.0], p.0 in done.fallback)
      {
        DecidesKnown(env, b2, w, p);
      }
    }
  }

  /**
   The configurations may differ in provider, model, credentials and cache keys, but not in what the project
   fixes.
   */
  ghost predicate SameProject(env: Env, env': Env) {
    && env.locale == env'.locale && env.sourcePath == env'.sourcePath && env.hashText == env'.hashText
    && env.localeLeq == env'.localeLeq && env.parity == env'.parity && env.defaultGlossary == env'.defaultGlossary
  }

  /** A successful first run: the loops end in `done`, and `next` are the files it works out. */
  ghost predicate Synced(env: Env, clock: string, source: Entries, sourceHash: string, files: Files, force: bool,
                         translate: Translator, done: Work, next: Files) {
    var (b, tm) := LoadAll(env, files);
    && EnvOk(env) && Proper(source) && TranslatorOk(translate)
    && Settle(env, clock, b, force, tm, Flatten(source), translate) == Ok(done)
    && env.parity(Flatten(source), done.next)
    && next == NextFiles(env, clock, files, Flatten(source), sourceHash, done)
  }

  /** A sync that finds and leaves everything as it is. */
  function Unchanged(files: Files): Result<Outcome, string>
    requires !files.meta.Missing?
  {
    Ok(Outcome(files, false, |files.meta.value.fallbackKeys|, false))
  }

  /** With a provider, the meta file names it and its model. */
  predicate SameProvider(env: Env, files: Files)
    requires !files.meta.Missing?
  {
    env.allowTranslate ==> files.meta.value.provider == env.provider && files.meta.value.model == env.model
  }

  lemma {:induction false} SyncedMeans(env: Env, clock: string, source: Entries, sourceHash: string, files: Files,
                                       force: bool, translate: Translator, done: Work, next: Files)
    requires Synced(env, clock, source, sourceHash, files, force, translate, done, next)
    ensures var (b, tm) := LoadAll(env, files); var flat := Flatten(source);
            && Settled(env, b, done, flat) && DistinctKeys(flat)
            && (forall p | p in flat :: Done(env, b, done, p) && p.0 in done.next)
            && (forall key | key in done.fallback :: key in SourceKeys(flat))
  {
    hide Flatten, Proper, EnvOk, Settle, LoadAll, MemoryOk, DistinctKeys, NextFiles, TranslatorOk, Done;
    var flat := Flatten(source);
    var (b, tm) := LoadAll(env, files);
    LoadedMemoryOk(env, files);
    FlattenIsDistinct(source);
    SettleEstablishes(env, clock, b, force, tm, flat, translate);
    InvIsSettled(env, b, done, flat);
    KeysHavePairs(flat);
  }

  /**
   If every pair stays and the provider is the one on record, a later run changes nothing, whatever its
   translator.
   */
  lemma {:induction false} UnchangedIfAllStay(env: Env, clock: string, source: Entries, sourceHash: string,
                                              files: Files, force: bool, translate: Translator, done: Work,
                                              next: Files, env': Env, clock': string, options: Options,
                                              translate': Translator)
    requires Synced(env, clock, source, sourceHash, files, force, translate, done, next)
    requires SameProject(env, env') && SameProvider(env', next)
    requires var (b2, tm2) := LoadAll(env', next); forall p | p in Flatten(source) :: Stays(env', b2, tm2, p)
    ensures Sync(env', clock', options, source, sourceHash, next, translate') == Unchanged(next)
  {
    hide Flatten, Proper, Settle, LoadAll, Inv, DistinctKeys, NextFiles, TranslatorOk, Stays, Done, Same, SourceKeys;
    var flat := Flatten(source);
    var (b, tm) := LoadAll(env, files);
    SyncedMeans(env, clock, source, sourceHash, files, force, translate, done, next);
    Reloaded(env, source, sourceHash, clock, files, b, done);
    LoadsAlike(env, env', next);
    var (b2, tm2) := LoadAll(env', next);
    SettlesAgain(env', clock', done, b2, tm2, flat, options.force, translate');
    var again := Settle(env', clock', b2, options.force, tm2, flat, translate').value;
    SameFiles(env, env', clock, clock', files, flat, sourceHash, done, again);
    assert Same(next, next) by {
      SameAsItself(next);
    }
  }

  lemma {:induction false} SameAsItself(files: Files)
    ensures Same(files, files)
  {
  }

  lemma {:induction false} LoadsAlike(env: Env, env': Env, files: Files)
    requires SameProject(env, env')
    ensures LoadAll(env, files) == LoadAll(env', files)
  {
  }

  /**
   Syncing is idempotent: on the files one successful sync works out, the next sync of the same
   source under the same configuration, or the same without a provider, and under any options, clock
   and translator, changes nothing.
   */
  lemma {:induction false} SyncIsIdempotent(env: Env, clock: string, source: Entries, sourceHash: string,
                                            files: Files, force: bool, translate: Translator, done: Work, next: Files,
                                            provider: bool, clock': string, options: Options, translate': Translator)
    requires Synced(env, clock, source, sourceHash, files, force, translate, done, next)
    requires provider ==> env.allowTranslate
    ensures Sync(env.(allowTranslate := provider), clock', options, source, sourceHash, next, translate')
        == Unchanged(next)
  {
    hide Flatten, Proper, Settle, LoadAll, DistinctKeys, TranslatorOk, Stays, Done, MemoryOk, WithTexts, Replay,
      RenderTm,
      Get, SortedKeys;
    var flat := Flatten(source);
    var (b, tm) := LoadAll(env, files);
    SyncedMeans(env, clock, source, sourceHash, files, force, translate, done, next);
    Reloaded(env, source, sourceHash, clock, files, b, done);
    var env' := env.(allowTranslate := provider);
    LoadsAlike(env, env', next);
    var (b2, tm2) := LoadAll(env', next);
    forall p | p in flat
      ensures Stays(env', b2, tm2, p)
    {
      ExistingTexts(flat, done.next, p);
      StaysWithoutProvider(env, b, done, provider, b2, tm2, p);
    }
    UnchangedIfAllStay(env, clock, source, sourceHash, files, force, translate, done, next, env', clock', options,
        translate');
  }

  lemma {:induction false} FlattenIsDistinct(source: Entries)
    ensures DistinctKeys(Flatten(source))
  {
    FlattenDistinct(source, "", []);
  }

  lemma {:induction false} SameFiles(env: Env, env': Env, clock: string, clock': string, files: Files, source: Flat,
                                     sourceHash: string, done: Work, again: Work)
    requires EnvOk(env) && SameProject(env, env') && again.next == done.next
    requires RenderTm(again.tm, env.localeLeq) == RenderTm(done.tm, env.localeLeq)
    requires forall key :: key in again.fallback <==> key in done.fallback
    requires SameProvider(env', NextFiles(env, clock, files, source, sourceHash, done))
    ensures var next := NextFiles(env, clock, files, source, sourceHash, done);
            NextFiles(env', clock', next, source, sourceHash, again) == next
  {
    hide Sorting.TotalOrder, SortedKeys, RenderTm, Replay, WithTexts;
    SortedKeysSame(again.fallback, done.fallback, env.localeLeq);
  }

  /** What a run that wrote its files has done. */
  lemma {:induction false} WroteMeansSynced(env: Env, clock: string, options: Options, source: Entries,
                                            sourceHash: string, files: Files,
                                            translate: Translator) returns (done: Work)
    requires EnvOk(env) && Proper(source) && TranslatorOk(translate)
    requires var r := Sync(env, clock, options, source, sourceHash, files, translate); r.Ok? && r.value.wrote
    ensures Synced(env, clock, source, sourceHash, files, options.force, translate, done,
                   Sync(env, clock, options, source, sourceHash, files, translate).value.files)
  {
    hide EnvOk, Proper, TranslatorOk, Settle, LoadAll, Flatten, NextFiles, Same;
    var (b, tm) := LoadAll(env, files);
    done := Settle(env, clock, b, options.force, tm, Flatten(source), translate).value;
  }

  /** A check, or any other run, right after one that wrote its files is clean, with its provider or without one. */
  lemma {:induction false} CheckAfterWriteIsClean(env: Env, clock: string, options: Options, source: Entries,
                                                  sourceHash: string, files: Files, translate: Translator,
                                                  provider: bool, clock': string, options': Options,
                                                  translate': Translator)
    requires EnvOk(env) && Proper(source) && TranslatorOk(translate) && (provider ==> env.allowTranslate)
    requires var r := Sync(env, clock, options, source, sourceHash, files, translate); r.Ok? && r.value.wrote
    ensures var written := Sync(env, clock, options, source, sourceHash, files, translate).value;
            Sync(env.(allowTranslate := provider), clock', options', source, sourceHash, written.files, translate')
              == Ok(Outcome(written.files, false, written.fallbackCount, false))
  {
    hide EnvOk, Proper, TranslatorOk, Settle, LoadAll, Flatten, Same, Synced, Replay, RenderTm, WithTexts, NextMeta;
    var done := WroteMeansSynced(env, clock, options, source, sourceHash, files, translate);
    var next := Sync(env, clock, options, source, sourceHash, files, translate).value.files;
    SyncIsIdempotent(env, clock, source, sourceHash, files, options.force, translate, done, next, provider,
                     clock', options', translate');
  }

  /** The written locale map has exactly the source's keys, in the source's order. */
  lemma {:induction false} OutputKeysAreSourceKeys(env: Env, clock: string, options: Options, source: Entries,
                                                   sourceHash: string, files: Files, translate: Translator)
    requires EnvOk(env) && Proper(source) && TranslatorOk(translate)
    requires var r := Sync(env, clock, options, source, sourceHash, files, translate); r.Ok? && r.value.wrote
    ensures var out := Flatten(Sync(env, clock, options, source, sourceHash, files,
        translate).value.files.locale.Load([]));
            |out| == |Flatten(source)| && forall i | 0 <= i < |out| :: out[i].0 == Flatten(source)[i].0
  {
    hide EnvOk, Proper, TranslatorOk, Settle, LoadAll, Flatten, Same, Replay;
    var (b, tm) := LoadAll(env, files);
    var done := Settle(env, clock, b, options.force, tm, Flatten(source), translate).value;
    RebuildWithTexts(source, TextFor(done.next));
  }
}
