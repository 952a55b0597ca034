/** What the appcast check reports: for which items, in which order, and against which floor. */
module AppcastReport {
  import opened Wrappers
  import opened Selection
  import opened SparkleFloors

  /** The build number is there and has digits only. */
  predicate Numeric(item: Item) {
    item.sparkleVersion.Some? && item.sparkleVersion.value != ""
    && forall i | 0 <= i < |item.sparkleVersion.value| :: '0' <= item.sparkleVersion.value[i] <= '9'
  }

  /** The short version has a date that is checked: months 1 to 12, days 1 to 31. */
  predicate Dated(item: Item) {
    && item.shortVersion.Some?
    && var v := item.shortVersion.value;
       v.year <= 9999 && 1 <= v.month <= 12 && 1 <= v.day <= 31
  }

  function Date(item: Item): nat
    requires Dated(item)
  {
    var v := item.shortVersion.value;
    v.year * 10000 + v.month * 100 + v.day
  }

  function Build(item: Item): nat
    requires Numeric(item)
  {
    Number(item.sparkleVersion.value)
  }

  /** The floor of a checked item: by lane for a lane build and from the adoption date on, else the legacy one. */
  function FloorOf(item: Item, lane: bool): nat
    requires Dated(item)
  {
    if lane then 100 * Date(item) + LaneOf(item.shortVersion.value.suffix) else 10 * Date(item)
  }

  predicate ByLane(item: Item, adoption: nat)
    requires Numeric(item) && Dated(item)
  {
    Build(item) >= 1_000_000_000 || Date(item) >= adoption
  }

  predicate BelowItsFloor(item: Item, adoption: nat) {
    Numeric(item) && Dated(item) && Build(item) < FloorOf(item, ByLane(item, adoption))
  }

  /** `e` says what is wrong with an item whose build number cannot be read. */
  predicate SaysUnreadable(e: Error, item: Item) {
    match item.sparkleVersion
    case None => e == MissingVersion(item.title)
    case Some(v) => if v == "" then e == MissingVersion(item.title) else e == NonNumericVersion(item.title, v)
  }

  predicate SaysBelow(e: Error, item: Item, adoption: nat) {
    && Numeric(item) && Dated(item)
    && var lane := ByLane(item, adoption);
       e == BelowFloor(item.title, Build(item), lane, FloorOf(item, lane))
  }

  /** The date from which lane floors apply: the fixed one, or that of the earliest lane build if it is earlier. */
  ghost predicate IsAdoption(items: seq<Item>, adoption: nat) {
    && adoption <= 20260227
    && (forall item | item in items && IsLaneBuild(item) :: adoption <= Date(item))
    && (adoption == 20260227 || exists item :: item in items && IsLaneBuild(item) && Date(item) == adoption)
  }

  predicate IsLaneBuild(item: Item) {
    Numeric(item) && Dated(item) && Build(item) >= 1_000_000_000
  }

  // ---------- the first pass ----------

  lemma {:induction false} FormatErrorIs(item: Item)
    ensures FormatError(item) == None <==> Numeric(item)
    ensures FormatError(item).Some? ==> SaysUnreadable(FormatError(item).value, item)
  {
  }

  /** The items without a readable build number. */
  function UnreadableIn(items: seq<Item>): nat -> bool {
    (i: nat) => i < |items| && !Numeric(items[i])
  }

  lemma {:induction false} FormatErrorsInOrder(items: seq<Item>) returns (at: seq<nat>)
    ensures Selects(at, |items|, UnreadableIn(items))
    ensures Tells(FormatErrors(items), items, at, SaysUnreadable)
  {
    hide Numeric, SaysUnreadable, FormatError;
    if items == [] {
      at := [];
    } else {
      hide Selects, Tells;
      var n := |items| - 1;
      at := FormatErrorsInOrder(items[..n]);
      FormatErrorIs(items[n]);
      SelectsLast(at, n, UnreadableIn(items[..n]), UnreadableIn(items));
      TellsLast(FormatErrors(items[..n]), FormatErrors(items), items, at, SaysUnreadable, !Numeric(items[n]));
      at := at + (if !Numeric(items[n]) then [n] else []);
    }
  }

  /** `c` is what the first pass collects of `item`. */
  predicate Collects(c: CalverItem, item: Item) {
    && Numeric(item) && Dated(item)
    && c.title == item.title && c.build == Build(item)
    && c.floors.dateKey == Date(item)
    && c.floors.legacyFloor == FloorOf(item, false) && c.floors.laneFloor == FloorOf(item, true)
  }

  lemma {:induction false} FloorsOfIs(item: Item)
    ensures FloorsOf(item).Some? <==> Dated(item)
    ensures Dated(item) ==>
              var f := FloorsOf(item).value;
              f.dateKey == Date(item) && f.legacyFloor == FloorOf(item, false) && f.laneFloor == FloorOf(item, true)
  {
    hide SparkleBuildFloors, LaneOf;
    if item.shortVersion.Some? {
      NoFloorsWithoutDate(item.shortVersion.value);
      if Dated(item) {
        FloorsArePositional(item.shortVersion.value);
      }
    }
  }

  /** The items whose build is compared with a floor. */
  function CheckedIn(items: seq<Item>): nat -> bool {
    (i: nat) => i < |items| && Numeric(items[i]) && Dated(items[i])
  }

  lemma {:induction false} CalverItemsInOrder(items: seq<Item>) returns (at: seq<nat>)
    ensures Selects(at, |items|, CheckedIn(items))
    ensures Tells(CalverItems(items), items, at, Collects)
  {
    hide Numeric, Dated, CalverItems, Collects;
    if items == [] {
      at := [];
      NoItemsYet(0);
    } else {
      hide Selects, Tells;
      var n := |items| - 1;
      var more := Numeric(items[n]) && Dated(items[n]);
      at := CalverItemsInOrder(items[..n]);
      LastCollected(items);
      SelectsLast(at, n, CheckedIn(items[..n]), CheckedIn(items));
      TellsLast(CalverItems(items[..n]), CalverItems(items), items, at, Collects, more);
      at := at + (if more then [n] else []);
    }
  }

  lemma {:induction false} LastCollected(items: seq<Item>)
    requires items != []
    ensures var n := |items| - 1;
            var before, all := CalverItems(items[..n]), CalverItems(items);
            if Numeric(items[n]) && Dated(items[n])
            then all != [] && all[..|all| - 1] == before && Collects(all[|all| - 1], items[n])
            else all == before
  {
    hide Numeric, Dated, FormatError, FloorsOf, Date, FloorOf, Number;
    FormatErrorIs(items[|items| - 1]);
    FloorsOfIs(items[|items| - 1]);
  }

  // ---------- the second pass ----------

  lemma {:induction false} FloorErrorIs(c: CalverItem, item: Item, adoption: nat)
    requires Collects(c, item)
    ensures FloorError(c, adoption).Some? <==> BelowItsFloor(item, adoption)
    ensures FloorError(c, adoption).Some? ==> SaysBelow(FloorError(c, adoption).value, item, adoption)
  {
    hide Number, LaneOf;
  }

  lemma {:induction false} OneMoreItem(items: seq<Item>, adoption: nat)
    requires items != []
    ensures var n := |items| - 1;
            var before := FloorErrors(CalverItems(items[..n]), adoption);
            var errors := FloorErrors(CalverItems(items), adoption);
            if BelowItsFloor(items[n], adoption)
            then errors != [] && errors[..|errors| - 1] == before && SaysBelow(errors[|errors| - 1], items[n], adoption)
            else errors == before
  {
    hide FloorErrors, FloorError, CalverItems, Collects, Numeric, Dated, SaysBelow, BelowItsFloor;
    var n := |items| - 1;
    var collected := CalverItems(items);
    LastCollected(items);
    if Numeric(items[n]) && Dated(items[n]) {
      var last := collected[|collected| - 1];
      CalverItemAppended(collected, |collected| - 1, adoption);
      assert collected[..|collected|] == collected;
      FloorErrorIs(last, items[n], adoption);
    } else {
      NotBelow(items[n], adoption);
    }
  }

  lemma {:induction false} NotBelow(item: Item, adoption: nat)
    requires !Numeric(item) || !Dated(item)
    ensures !BelowItsFloor(item, adoption)
  {
  }

  /** The items below their floor. */
  function BelowIn(items: seq<Item>, adoption: nat): nat -> bool {
    (i: nat) => i < |items| && BelowItsFloor(items[i], adoption)
  }

  function SaysBelowFor(adoption: nat): (Error, Item) -> bool {
    (e: Error, item: Item) => SaysBelow(e, item, adoption)
  }

  lemma {:induction false} FloorErrorsInOrder(items: seq<Item>, adoption: nat) returns (at: seq<nat>)
    ensures Selects(at, |items|, BelowIn(items, adoption))
    ensures Tells(FloorErrors(CalverItems(items), adoption), items, at, SaysBelowFor(adoption))
  {
    hide BelowItsFloor, SaysBelow, FloorErrors, CalverItems;
    if items == [] {
      at := [];
      NoItemsYet(adoption);
    } else {
      hide Selects, Tells;
      var n := |items| - 1;
      at := FloorErrorsInOrder(items[..n], adoption);
      OneMoreItem(items, adoption);
      SelectsLast(at, n, BelowIn(items[..n], adoption), BelowIn(items, adoption));
      TellsLast(FloorErrors(CalverItems(items[..n]), adoption), FloorErrors(CalverItems(items), adoption), items, at,
                SaysBelowFor(adoption), BelowItsFloor(items[n], adoption));
      at := at + (if BelowItsFloor(items[n], adoption) then [n] else []);
    }
  }

  /** Every lane build is collected, and every collected one is of an item. */
  lemma {:induction false} CollectedOf(items: seq<Item>, i: nat) returns (c: CalverItem)
    requires i < |items| && IsLaneBuild(items[i])
    ensures c in CalverItems(items) && c.build >= LANE_BUILD_MIN && c.floors.dateKey == Date(items[i])
  {
    hide CalverItems, FloorOf, Number;
    var at := CalverItemsInOrder(items);
    assert i in at;
    var k :| 0 <= k < |at| && at[k] == i;
    c := CalverItems(items)[k];
  }

  lemma {:induction false} ItemOf(items: seq<Item>, c: CalverItem) returns (item: Item)
    requires c in CalverItems(items) && c.build >= LANE_BUILD_MIN
    ensures item in items && IsLaneBuild(item) && Date(item) == c.floors.dateKey
  {
    hide Selects, CalverItems, FloorOf, Number;
    var at := CalverItemsInOrder(items);
    var k :| 0 <= k < |CalverItems(items)| && CalverItems(items)[k] == c;
    item := items[at[k]];
  }

  lemma {:induction false} AdoptionIs(items: seq<Item>)
    ensures IsAdoption(items, AdoptionDateKey(CalverItems(items)))
  {
    hide Numeric, Dated, Number, Date, CalverItems, AdoptionDateKey;
    var collected := CalverItems(items);
    AdoptionIsMinimum(collected);
    forall item | item in items && IsLaneBuild(item)
      ensures AdoptionDateKey(collected) <= Date(item)
    {
      var i: nat :| i < |items| && items[i] == item;
      var c := CollectedOf(items, i);
    }
    if c :| c in collected && c.build >= LANE_BUILD_MIN && c.floors.dateKey == AdoptionDateKey(collected) {
      var item := ItemOf(items, c);
    }
  }

  /**
   The whole report: one error for an empty appcast, then one for every item without a readable build number, then one
   for every dated item below its floor, each in the order of the items.
   */
  lemma {:induction false} ReportInOrder(items: seq<Item>)
    returns (unreadable: seq<nat>, below: seq<nat>, adoption: nat)
    ensures IsAdoption(items, adoption)
    ensures Selects(unreadable, |items|, UnreadableIn(items))
    ensures Selects(below, |items|, BelowIn(items, adoption))
    ensures items == [] ==> AppcastErrors(items) == [NoItems]
    ensures items != [] ==>
              && |AppcastErrors(items)| == |unreadable| + |below|
              && Tells(AppcastErrors(items)[..|unreadable|], items, unreadable, SaysUnreadable)
              && Tells(AppcastErrors(items)[|unreadable|..], items, below, SaysBelowFor(adoption))
  {
    hide Numeric, BelowItsFloor, SaysUnreadable, SaysBelow, IsAdoption, FormatErrors, FloorErrors, CalverItems,
      AdoptionDateKey;
    adoption := AdoptionDateKey(CalverItems(items));
    AdoptionIs(items);
    unreadable := FormatErrorsInOrder(items);
    below := FloorErrorsInOrder(items, adoption);
    if items == [] {
      NoItemsYet(adoption);
    } else {
      var first, second := FormatErrors(items), FloorErrors(CalverItems(items), adoption);
      assert AppcastErrors(items) == first + second;
      assert (first + second)[..|unreadable|] == first && (first + second)[|unreadable|..] == second;
    }
  }
}
