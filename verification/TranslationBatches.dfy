/** Greedy batching of the pending translations, and why no other batching is smaller. */
module TranslationBatches {

  datatype Item = Item(cacheKey: string, key: string, text: string, textHash: string)

  type Batch = seq<Item>

  const MAX_BATCH_ITEMS: nat := 20
  const LOOP_EXTRA: nat := 2

  function ItemChars(item: Item): nat {
    |item.key| + |item.text| + 8
  }

  /** Two characters for the batch, and `extra` more than its own for every item. */
  function Chars(extra: nat, items: Batch): nat {
    if items == [] then 2 else Chars(extra, items[..|items| - 1]) + ItemChars(items[|items| - 1]) + extra
  }

  /** `estimateBatchChars` */
  function EstimateBatchChars(items: Batch): nat {
    Chars(0, items)
  }

  /** The running count of the batching loop, which charges every item as a batch of its own. */
  function LoopChars(items: Batch): nat {
    Chars(LOOP_EXTRA, items)
  }

  predicate Fits(extra: nat, batch: Batch, budget: real) {
    && 1 <= |batch| <= MAX_BATCH_ITEMS
    && (|batch| == 1 || Chars(extra, batch) as real <= budget)
  }

  function Concat(batches: seq<Batch>): Batch {
    if batches == [] then [] else batches[0] + Concat(batches[1..])
  }

  /** A way to cut `items` into consecutive batches within the limits. */
  predicate Partition(extra: nat, batches: seq<Batch>, items: Batch, budget: real) {
    Concat(batches) == items && forall b | b in batches :: Fits(extra, b, budget)
  }

  /** No partition within the limits of `extra` has fewer than `count` batches. */
  ghost predicate Optimal(extra: nat, count: nat, items: Batch, budget: real) {
    forall other | Partition(extra, other, items, budget) :: count <= |other|
  }

  /** What a greedy loop still produces when `current` is open and `items` are left. */
  function Greedy(extra: nat, current: Batch, items: Batch, budget: real): seq<Batch>
    decreases |items|
  {
    if items == [] then (if current == [] then [] else [current])
    else if (current != [] && (Chars(extra, current) + ItemChars(items[0]) + extra) as real > budget)
            || |current| >= MAX_BATCH_ITEMS
    then [current] + Greedy(extra, [items[0]], items[1..], budget)
    else Greedy(extra, current + [items[0]], items[1..], budget)
  }

  /** `buildTranslationBatches` */
  function Batches(items: Batch, budget: real): seq<Batch> {
    Greedy(LOOP_EXTRA, [], items, budget)
  }

  method BuildTranslationBatches(items: Batch, budget: real) returns (batches: seq<Batch>)
    ensures batches == Batches(items, budget) && Partition(LOOP_EXTRA, batches, items, budget)
    ensures forall b | b in batches && |b| > 1 :: EstimateBatchChars(b) as real <= budget
    ensures Optimal(LOOP_EXTRA, |batches|, items, budget)
  {
    hide Fits, Partition, Chars;
    batches := [];
    var current: Batch := [];
    var currentChars := 2;
    NoChars(LOOP_EXTRA);
    for i := 0 to |items|
      invariant currentChars == LoopChars(current)
      invariant Batches(items, budget) == batches + Greedy(LOOP_EXTRA, current, items[i..], budget)
    {
      var item := items[i];
      assert items[i..] == [item] + items[i + 1..];
      CharsOfOne(item);
      var itemChars := EstimateBatchChars([item]);
      var wouldOverflow := |current| > 0 && (currentChars + itemChars) as real > budget;
      var reachedMaxItems := |current| >= MAX_BATCH_ITEMS;
      if wouldOverflow || reachedMaxItems {
        batches := batches + [current];
        current := [];
        currentChars := 2;
      }
      CharsAppend(LOOP_EXTRA, current, item);
      assert [] + [item] == [item];
      current := current + [item];
      currentChars := currentChars + itemChars;
    }
    assert items[|items|..] == [] && [] + items == items;
    if |current| > 0 {
      batches := batches + [current];
    }
    assert batches == Batches(items, budget);
    GreedyPartitions(LOOP_EXTRA, [], items, budget);
    PartitionFits(LOOP_EXTRA, batches, items, budget);
    forall b | b in batches && |b| > 1 {
      FitsByEstimate(b, budget);
    }
    forall other | Partition(LOOP_EXTRA, other, items, budget) {
      GreedyIsOptimal(LOOP_EXTRA, [], items, budget, other);
    }
  }

  lemma {:induction false} NoChars(extra: nat)
    ensures Chars(extra, []) == 2
  {
  }

  lemma {:induction false} CharsOfOne(item: Item)
    ensures EstimateBatchChars([item]) == ItemChars(item) + LOOP_EXTRA
  {
    NoChars(0);
    CharsAppend(0, [], item);
    assert [] + [item] == [item];
  }

  lemma {:induction false} PartitionFits(extra: nat, batches: seq<Batch>, items: Batch, budget: real)
    requires Partition(extra, batches, items, budget)
    ensures forall b | b in batches :: Fits(extra, b, budget)
  {
  }

  lemma {:induction false} CharsAppend(extra: nat, batch: Batch, item: Item)
    ensures Chars(extra, batch + [item]) == Chars(extra, batch) + ItemChars(item) + extra
  {
    assert (batch + [item])[..|batch|] == batch;
  }

  /** All keys and texts, one after the other. */
  function AllText(items: Batch): string {
    if items == [] then "" else items[0].key + items[0].text + AllText(items[1..])
  }

  lemma {:induction false} AllTextAppend(items: Batch, item: Item)
    ensures |AllText(items + [item])| == |AllText(items)| + |item.key| + |item.text|
  {
    if items == [] {
      assert items + [item] == [item];
      assert AllText([item][1..]) == "";
    } else {
      AllTextAppend(items[1..], item);
      assert (items + [item])[1..] == items[1..] + [item];
    }
  }

  /** The estimate counts every character of every key and text, eight more for each item, and two for the braces. */
  lemma {:induction false} EstimateCounts(items: Batch)
    ensures EstimateBatchChars(items) == 2 + |AllText(items)| + 8 * |items|
  {
    if items != [] {
      var n := |items| - 1;
      EstimateCounts(items[..n]);
      AllTextAppend(items[..n], items[n]);
      assert items == items[..n] + [items[n]];
    }
  }

  /** The loop charges two characters too many per item, so its batches also fit by the estimate. */
  lemma {:induction false} LoopOvercounts(batch: Batch)
    ensures LoopChars(batch) == EstimateBatchChars(batch) + LOOP_EXTRA * |batch|
  {
    if batch != [] {
      LoopOvercounts(batch[..|batch| - 1]);
    }
  }

  lemma {:induction false} FitsByEstimate(batch: Batch, budget: real)
    requires Fits(LOOP_EXTRA, batch, budget) && |batch| > 1
    ensures EstimateBatchChars(batch) as real <= budget
  {
    LoopOvercounts(batch);
  }

  lemma {:induction false} GreedyPartitions(extra: nat, current: Batch, items: Batch, budget: real)
    requires current == [] || Fits(extra, current, budget)
    ensures Partition(extra, Greedy(extra, current, items, budget), current + items, budget)
    decreases |items|
  {
    hide Chars;
    if items == [] {
      assert Concat([current]) == current + Concat([]);
      assert current + items == current;
    } else {
      var item, later := items[0], items[1..];
      var closes := (current != [] && (Chars(extra, current) + ItemChars(item) + extra) as real > budget)
                    || |current| >= MAX_BATCH_ITEMS;
      CharsAppend(extra, current, item);
      if !closes {
        GreedyPartitions(extra, current + [item], later, budget);
        assert current + [item] + later == current + items;
      } else {
        var rest := Greedy(extra, [item], later, budget);
        GreedyPartitions(extra, [item], later, budget);
        assert [item] + later == items;
        assert ([current] + rest)[1..] == rest;
      }
    }
  }

  // ---------- optimality ----------

  lemma {:induction false} CharsConcat(extra: nat, a: Batch, b: Batch)
    ensures Chars(extra, a + b) == Chars(extra, a) + Chars(extra, b) - 2
  {
    hide ItemChars;
    if b == [] {
      assert a + b == a;
    } else {
      hide Chars;
      var n := |b| - 1;
      CharsConcat(extra, a, b[..n]);
      assert a + b == (a + b[..n]) + [b[n]] && b == b[..n] + [b[n]];
      CharsAppend(extra, a + b[..n], b[n]);
      CharsAppend(extra, b[..n], b[n]);
    }
  }

  lemma {:induction false} AtLeastTwo(extra: nat, batch: Batch)
    ensures Chars(extra, batch) >= 2 + 8 * |batch|
  {
    if batch != [] {
      AtLeastTwo(extra, batch[..|batch| - 1]);
    }
  }

  /** Any run of consecutive items of a fitting batch fits. */
  lemma {:induction false} FitsPart(extra: nat, a: Batch, b: Batch, c: Batch, budget: real)
    requires b != [] && Fits(extra, a + b + c, budget)
    ensures Fits(extra, b, budget)
  {
    CharsConcat(extra, a + b, c);
    CharsConcat(extra, a, b);
    AtLeastTwo(extra, a);
    AtLeastTwo(extra, c);
  }

  /** Dropping leading items never needs more batches. */
  lemma {:induction false} DropLeading(extra: nat, batches: seq<Batch>, a: Batch, b: Batch,
                                       budget: real) returns (rest: seq<Batch>)
    requires Partition(extra, batches, a + b, budget)
    ensures Partition(extra, rest, b, budget) && |rest| <= |batches|
    decreases |batches|
  {
    if a == [] {
      assert a + b == b;
      rest := batches;
    } else {
      var first := batches[0];
      assert first + Concat(batches[1..]) == a + b;
      if |first| <= |a| {
        assert a == first + a[|first|..] by {
          assert (a + b)[..|first|] == first;
        }
        assert Concat(batches[1..]) == a[|first|..] + b by {
          assert (first + Concat(batches[1..]))[|first|..] == Concat(batches[1..]);
          assert (a + b)[|first|..] == a[|first|..] + b;
        }
        rest := DropLeading(extra, batches[1..], a[|first|..], b, budget);
      } else {
        var tail := first[|a|..];
        assert first == a + tail + [] by {
          assert (a + b)[..|a|] == a && first[..|a|] == (first + Concat(batches[1..]))[..|a|];
        }
        FitsPart(extra, a, tail, [], budget);
        rest := [tail] + batches[1..];
        assert rest[1..] == batches[1..];
        assert tail + Concat(batches[1..]) == b by {
          assert (a + b)[|a|..] == b;
          assert (first + Concat(batches[1..]))[|a|..] == tail + Concat(batches[1..]);
        }
      }
    }
  }

  /** Greedy stays ahead of every other partition. */
  lemma {:induction false} GreedyIsOptimal(extra: nat, current: Batch, items: Batch, budget: real, other: seq<Batch>)
    requires current == [] || Fits(extra, current, budget)
    requires Partition(extra, other, current + items, budget)
    ensures |Greedy(extra, current, items, budget)| <= |other|
    decreases |items|
  {
    if items == [] {
      assert current + items == current;
    } else {
      var item, later := items[0], items[1..];
      var closes := (current != [] && (Chars(extra, current) + ItemChars(item) + extra) as real > budget)
                    || |current| >= MAX_BATCH_ITEMS;
      CharsAppend(extra, current, item);
      if !closes {
        assert current + [item] + later == current + items;
        GreedyIsOptimal(extra, current + [item], later, budget, other);
      } else {
        var first := other[0];
        FirstBatchIsShort(extra, current, item, later, budget, other);
        assert Concat(other[1..]) == current[|first|..] + items by {
          assert (first + Concat(other[1..]))[|first|..] == Concat(other[1..]);
          assert (current + items)[|first|..] == current[|first|..] + items;
        }
        var rest := DropLeading(extra, other[1..], current[|first|..], items, budget);
        assert [item] + later == items;
        GreedyIsOptimal(extra, [item], later, budget, rest);
      }
    }
  }

  /** When greedy closes its batch, nobody's first batch reaches past it. */
  lemma {:induction false} FirstBatchIsShort(extra: nat, current: Batch, item: Item, later: Batch, budget: real,
                                             other: seq<Batch>)
    requires current != [] && !Fits(extra, current + [item], budget)
    requires Partition(extra, other, current + ([item] + later), budget)
    ensures other != [] && |other[0]| <= |current|
  {
    var all := current + ([item] + later);
    var first := other[0];
    if |first| > |current| {
      var n := |current| + 1;
      assert (first + Concat(other[1..]))[..n] == first[..n];
      assert all[..n] == current + [item];
      assert first == [] + (current + [item]) + first[n..];
      FitsPart(extra, [], current + [item], first[n..], budget);
    }
  }

  // ---------- optimality by the estimate ----------

  /** The run is one batch by the estimate, but not by the loop. */
  predicate Between(run: Batch, budget: real) {
    EstimateBatchChars(run) as real <= budget < LoopChars(run) as real
  }

  lemma {:induction false} BatchesAreRuns(batches: seq<Batch>, items: Batch, b: Batch) returns (i: nat)
    requires Concat(batches) == items && b in batches
    ensures i + |b| <= |items| && items[i..i + |b|] == b
  {
    var first := batches[0];
    assert items == first + Concat(batches[1..]);
    if b == first {
      i := 0;
    } else {
      assert b in batches[1..];
      var rest := items[|first|..];
      assert rest == Concat(batches[1..]);
      var j := BatchesAreRuns(batches[1..], rest, b);
      i := |first| + j;
      assert items[i..i + |b|] == rest[j..j + |b|];
    }
  }

  /** The batching is optimal by the estimate unless some run of consecutive items falls between the two counts. */
  lemma {:induction false} OptimalWithoutRunsBetween(items: Batch, budget: real)
    requires forall i, j | 0 <= i && i + 2 <= j <= |items| && j - i <= MAX_BATCH_ITEMS :: !Between(items[i..j], budget)
    ensures Optimal(0, |Batches(items, budget)|, items, budget)
  {
    hide Chars;
    forall other | Partition(0, other, items, budget)
      ensures |Batches(items, budget)| <= |other|
    {
      forall b | b in other
        ensures Fits(LOOP_EXTRA, b, budget)
      {
        assert Fits(0, b, budget);
        var i := BatchesAreRuns(other, items, b);
        if |b| >= 2 {
          assert !Between(items[i..i + |b|], budget);
        }
      }
      assert [] + items == items;
      GreedyIsOptimal(LOOP_EXTRA, [], items, budget, other);
    }
  }

  /**
   Items that are one batch by the estimate are batched optimally if and only if they are one batch by the
   loop's count.
   */
  lemma {:induction false} OneBatchByEstimate(items: Batch, budget: real)
    requires Fits(0, items, budget)
    ensures Optimal(0, |Batches(items, budget)|, items, budget) <==> |items| == 1 || LoopChars(items) as real <= budget
  {
    hide Chars, Greedy;
    var batches := Batches(items, budget);
    assert [] + items == items;
    GreedyPartitions(LOOP_EXTRA, [], items, budget);
    assert Concat([items]) == items + Concat([]) == items;
    if Optimal(0, |batches|, items, budget) {
      assert Partition(0, [items], items, budget);
      assert |batches| == 1 && batches[1..] == [];
      assert Concat(batches) == batches[0] + Concat([]) == batches[0];
      assert batches[0] in batches && Fits(LOOP_EXTRA, items, budget);
    }
    if |items| == 1 || LoopChars(items) as real <= budget {
      assert Partition(LOOP_EXTRA, [items], items, budget);
      GreedyIsOptimal(LOOP_EXTRA, [], items, budget, [items]);
      forall other | Partition(0, other, items, budget)
        ensures |batches| <= |other|
      {
        assert other != [];
      }
    }
  }

  /**
   For all items: the batching is optimal by the estimate if and only if a greedy loop counting by the
   estimate closes no fewer batches.
   */
  lemma {:induction false} OptimalByEstimateIff(items: Batch, budget: real)
    ensures Optimal(0, |Batches(items, budget)|, items, budget)
       <==> |Batches(items, budget)| == |Greedy(0, [], items, budget)|
  {
    hide Chars, Greedy, Fits;
    var best := Greedy(0, [], items, budget);
    assert [] + items == items;
    GreedyPartitions(0, [], items, budget);
    GreedyPartitions(LOOP_EXTRA, [], items, budget);
    forall b | b in Batches(items, budget)
      ensures Fits(0, b, budget)
    {
      FitsBoth(b, budget);
    }
    assert Partition(0, Batches(items, budget), items, budget);
    forall other | Partition(0, other, items, budget)
      ensures |best| <= |other|
    {
      GreedyIsOptimal(0, [], items, budget, other);
    }
  }

  lemma {:induction false} FitsBoth(batch: Batch, budget: real)
    requires Fits(LOOP_EXTRA, batch, budget)
    ensures Fits(0, batch, budget)
  {
    LoopOvercounts(batch);
  }

  /** Halving a batch makes up for the overcounting. */
  lemma {:induction false} HalvesFit(batch: Batch, budget: real) returns (halves: seq<Batch>)
    requires Fits(0, batch, budget)
    ensures Partition(LOOP_EXTRA, halves, batch, budget) && |halves| <= 2
  {
    hide Chars;
    if |batch| == 1 {
      halves := [batch];
      assert Concat(halves) == batch + Concat([]) == batch;
    } else {
      var mid := |batch| / 2;
      var a, b := batch[..mid], batch[mid..];
      assert a + b == batch;
      CharsConcat(0, a, b);
      AtLeastTwo(0, a);
      AtLeastTwo(0, b);
      LoopOvercounts(a);
      LoopOvercounts(b);
      halves := [a, b];
      assert halves[1..] == [b] && Concat([b]) == b + Concat([]) == b;
      assert Concat(halves) == a + b;
    }
  }

  lemma {:induction false} ConcatFirst(batch: Batch, rest: seq<Batch>)
    ensures Concat([]) == [] && Concat([batch] + rest) == batch + Concat(rest)
  {
    assert ([batch] + rest)[1..] == rest;
  }

  lemma {:induction false} ConcatConcat(a: seq<Batch>, b: seq<Batch>)
    ensures Concat(a + b) == Concat(a) + Concat(b)
  {
    hide Concat;
    if a == [] {
      assert a + b == b;
      ConcatFirst([], []);
    } else {
      var first, rest := a[0], a[1..];
      ConcatConcat(rest, b);
      ConcatFirst(first, rest);
      ConcatFirst(first, rest + b);
      assert a == [first] + rest && a + b == [first] + (rest + b);
      assert first + (Concat(rest) + Concat(b)) == (first + Concat(rest)) + Concat(b);
    }
  }

  lemma {:induction false} AllHalvesFit(other: seq<Batch>, items: Batch, budget: real) returns (halves: seq<Batch>)
    requires Partition(0, other, items, budget)
    ensures Partition(LOOP_EXTRA, halves, items, budget) && |halves| <= 2 * |other|
  {
    hide Fits;
    if other == [] {
      halves := [];
    } else {
      var first := HalvesFit(other[0], budget);
      var rest := AllHalvesFit(other[1..], Concat(other[1..]), budget);
      halves := first + rest;
      ConcatConcat(first, rest);
    }
  }

  /** Whatever the items, the batching never has more than twice the batches needed by the estimate. */
  lemma {:induction false} AtMostTwiceByEstimate(items: Batch, budget: real, other: seq<Batch>)
    requires Partition(0, other, items, budget)
    ensures |Batches(items, budget)| <= 2 * |other|
  {
    var halves := AllHalvesFit(other, items, budget);
    assert [] + items == items;
    GreedyIsOptimal(LOOP_EXTRA, [], items, budget, halves);
  }

  /**
   An input of the kind the sync produces, with distinct keys, on which the batching is not optimal by
   the estimate: two items whose estimate is exactly the budget are put into two batches.
   */
  lemma {:induction false} NotOptimalByEstimate()
    ensures exists items: Batch, budget: real ::
      && |items| == 2 && items[0].key != items[1].key && items[0].cacheKey != items[1].cacheKey
      && EstimateBatchChars(items) as real == budget && |Batches(items, budget)| == 2
      && !Optimal(0, |Batches(items, budget)|, items, budget)
  {
    var a, b := Item("ck-a", "a", "x", "h"), Item("ck-b", "b", "x", "h");
    var items := [a, b];
    CharsOfOne(a);
    CharsAppend(0, [a], b);
    assert [a] + [b] == items;
    LoopOvercounts(items);
    assert EstimateBatchChars(items) == 22 && LoopChars(items) == 26;
    OneBatchByEstimate(items, 22.0);
    AtMostTwiceByEstimate(items, 22.0, [items]) by {
      assert Concat([items]) == items + Concat([]) == items;
    }
  }

  /** The batches made are of 1 to 20 items and, unless of a single one, within the budget with two more for each. */
  lemma {:induction false} BatchLimits(items: Batch, budget: real, b: Batch)
    requires b in Batches(items, budget)
    ensures 1 <= |b| <= 20
    ensures |b| == 1 || (2 + |AllText(b)| + 10 * |b|) as real <= budget
  {
    hide Chars, Greedy, AllText;
    GreedyPartitions(LOOP_EXTRA, [], items, budget);
    LoopOvercounts(b);
    EstimateCounts(b);
  }
}
