/** Build-number floors of Sparkle releases, and the appcast check that applies them. */
module SparkleFloors {
  import opened Wrappers

  /** A short version after its pattern matched: the three numbers and the suffix, empty or starting with `.` or `-`. */
  datatype Version = Version(year: nat, month: nat, day: nat, suffix: string)

  datatype Floors = Floors(dateKey: nat, legacyFloor: nat, laneFloor: nat, lane: nat)

  predicate IsDigit(c: char) {
    '0' <= c <= '9'
  }

  function DigitValue(c: char): nat
    requires IsDigit(c)
  {
    c as int - '0' as int
  }

  predicate AllDigits(s: string) {
    s != "" && forall i | 0 <= i < |s| :: IsDigit(s[i])
  }

  /** `Number` of a text of digits. */
  function Number(s: string): nat
    requires forall i | 0 <= i < |s| :: IsDigit(s[i])
  {
    if s == "" then 0 else 10 * Number(s[..|s| - 1]) + DigitValue(s[|s| - 1])
  }

  /** The text of a number. */
  function Decimal(n: nat): (s: string)
    ensures AllDigits(s) && (n < 10 ==> |s| == 1) && (10 <= n < 100 ==> |s| == 2)
  {
    if n < 10 then [(n + '0' as int) as char] else Decimal(n / 10) + [(n % 10 + '0' as int) as char]
  }

  /** `padStart(2, "0")` */
  function PadTwo(s: string): (r: string)
    requires AllDigits(s)
    ensures AllDigits(r)
  {
    if |s| < 2 then "0" + s else s
  }

  lemma {:induction false} NumberOfDecimal(n: nat)
    ensures Number(Decimal(n)) == n
  {
    if n < 10 {
      assert Number(Decimal(n)[..0]) == 0;
    } else {
      NumberOfDecimal(n / 10);
      assert Decimal(n)[..|Decimal(n)| - 1] == Decimal(n / 10);
    }
  }

  /** Appending two padded digits is shifting by a hundred. */
  lemma {:induction false} AppendTwo(s: string, n: nat)
    requires AllDigits(s) && n < 100
    ensures AllDigits(s + PadTwo(Decimal(n))) && Number(s + PadTwo(Decimal(n))) == 100 * Number(s) + n
  {
    var t := PadTwo(Decimal(n));
    NumberOfDecimal(n);
    assert |t| == 2 && Number(t) == 10 * DigitValue(t[0]) + DigitValue(t[1]) by {
      assert t[..1] == [t[0]] && t[..1][..0] == "";
      assert Number(t[..1]) == DigitValue(t[0]);
    }
    assert Number(t) == n by {
      if n < 10 {
        assert t[..1] == "0" && DigitValue(t[0]) == 0 && t[1] == Decimal(n)[0];
        assert Decimal(n)[..0] == "";
      }
    }
    assert (s + t)[..|s| + 1] == s + [t[0]] && (s + [t[0]])[..|s|] == s;
  }

  /** The digits a text ends in, as a number. */
  function TrailingNumber(s: string): Option<nat> {
    if s == "" || !IsDigit(s[|s| - 1]) then None
    else
      var digit := DigitValue(s[|s| - 1]);
      match TrailingNumber(s[..|s| - 1])
      case Some(high) => Some(10 * high + digit)
      case None => Some(digit)
  }

  function LaneOf(suffix: string): (lane: nat)
    ensures lane <= 90 && (lane == 90 <==> suffix == "")
  {
    if suffix == "" then 90
    else
      match TrailingNumber(suffix)
      case Some(n) => if n < 89 then n else 89
      case None => 1
  }

  /**
   The lane of a suffix: 90 for none, else the number it ends in, up to 89, or 1 if it ends in none.
   `digits` are all the digits at its end.
   */
  lemma {:induction false} LaneOfSuffix(head: string, digits: string)
    requires head == "" || !IsDigit(head[|head| - 1])
    requires forall i | 0 <= i < |digits| :: IsDigit(digits[i])
    ensures LaneOf(head + digits) ==
      if head + digits == "" then 90
      else if digits == "" then 1
      else if Number(digits) < 89 then Number(digits)
      else 89
  {
    TrailingDigits(head, digits);
  }

  lemma {:induction false} TrailingDigits(head: string, digits: string)
    requires head == "" || !IsDigit(head[|head| - 1])
    requires forall i | 0 <= i < |digits| :: IsDigit(digits[i])
    ensures TrailingNumber(head + digits) == if digits == "" then None else Some(Number(digits))
  {
    var s := head + digits;
    if digits == "" {
      assert s == head;
    } else {
      var n := |digits| - 1;
      TrailingDigits(head, digits[..n]);
      assert s[..|s| - 1] == head + digits[..n];
      assert s[|s| - 1] == digits[n];
    }
  }

  /** Four-digit years, and month and day in their ranges. */
  predicate Valid(v: Version) {
    v.year <= 9999 && 1 <= v.month <= 12 && 1 <= v.day <= 31
  }

  function SparkleBuildFloors(v: Version): Option<Floors> {
    if !Valid(v) then None
    else
      var lane := LaneOf(v.suffix);
      var dateKey := Number(Decimal(v.year) + PadTwo(Decimal(v.month)) + PadTwo(Decimal(v.day)));
      Some(Floors(dateKey, Number(Decimal(dateKey) + "0"), Number(Decimal(dateKey) + PadTwo(Decimal(lane))), lane))
  }

  /** The numbers glued together from digits are positional: two digits each for month, day and lane. */
  lemma {:induction false} FloorsArePositional(v: Version)
    requires Valid(v)
    ensures var f := SparkleBuildFloors(v).value;
            && f.lane == LaneOf(v.suffix)
            && f.dateKey == v.year * 10000 + v.month * 100 + v.day
            && f.legacyFloor == 10 * f.dateKey && f.laneFloor == 100 * f.dateKey + f.lane
  {
    hide PadTwo, Decimal, Number, LaneOf;
    NumberOfDecimal(v.year);
    AppendTwo(Decimal(v.year), v.month);
    AppendTwo(Decimal(v.year) + PadTwo(Decimal(v.month)), v.day);
    var dateKey := Number(Decimal(v.year) + PadTwo(Decimal(v.month)) + PadTwo(Decimal(v.day)));
    NumberOfDecimal(dateKey);
    AppendTwo(Decimal(dateKey), LaneOf(v.suffix));
    AppendZero(Decimal(dateKey));
  }

  lemma {:induction false} AppendZero(s: string)
    requires AllDigits(s)
    ensures Number(s + "0") == 10 * Number(s)
  {
    assert (s + "0")[..|s|] == s;
  }

  const LANE_BUILD_MIN: nat := 1_000_000_000
  const LANE_FLOOR_ADOPTION_DATE_KEY: nat := 20260227

  /** Earlier by year, then month, then day, then lane. */
  predicate Earlier(v: Version, w: Version) {
    || v.year < w.year
    || (v.year == w.year
        && (|| v.month < w.month
            || (v.month == w.month
                && (v.day < w.day || (v.day == w.day && LaneOf(v.suffix) < LaneOf(w.suffix))))))
  }

  /** Lane floors order releases by year, month, day and lane, and by nothing else. */
  lemma {:induction false} LaneFloorsAreLexicographic(v: Version, w: Version)
    requires Valid(v) && Valid(w)
    ensures SparkleBuildFloors(v).value.laneFloor < SparkleBuildFloors(w).value.laneFloor <==> Earlier(v, w)
  {
    hide SparkleBuildFloors, LaneOf;
    FloorsArePositional(v);
    FloorsArePositional(w);
    var dv, dw := v.year * 10000 + v.month * 100 + v.day, w.year * 10000 + w.month * 100 + w.day;
    assert v.year < w.year ==> dv < dw;
    assert w.year < v.year ==> dw < dv;
  }

  /**
   The two numbering schemes do not meet: legacy floors stay below the lane minimum, lane floors of real years
   above it.
   */
  lemma {:induction false} SchemesAreSeparate(v: Version)
    requires Valid(v)
    ensures var f := SparkleBuildFloors(v).value;
            && f.legacyFloor < LANE_BUILD_MIN && f.legacyFloor <= f.laneFloor
            && (f.laneFloor > LANE_BUILD_MIN <==> v.year >= 1000)
  {
    hide SparkleBuildFloors, LaneOf;
    FloorsArePositional(v);
  }

  // ---------- the appcast check ----------

  /** An `<item>` after tag extraction; `shortVersion` is `None` if it is absent or does not match the pattern. */
  datatype Item = Item(title: string, sparkleVersion: Option<string>, shortVersion: Option<Version>)

  function FloorsOf(item: Item): Option<Floors> {
    match item.shortVersion
    case Some(v) => SparkleBuildFloors(v)
    case None => None
  }

  datatype CalverItem = CalverItem(title: string, build: nat, floors: Floors)

  datatype Error =
    | NoItems
    | MissingVersion(title: string)
    | NonNumericVersion(title: string, version: string)
    | BelowFloor(title: string, build: nat, lane: bool, floor: nat)

  function FormatError(item: Item): Option<Error> {
    match item.sparkleVersion
    case None => Some(MissingVersion(item.title))
    case Some(v) =>
      if v == "" then Some(MissingVersion(item.title))
      else if !AllDigits(v) then Some(NonNumericVersion(item.title, v))
      else None
  }

  function FormatErrors(items: seq<Item>): seq<Error> {
    if items == [] then []
    else
      var last := FormatError(items[|items| - 1]);
      FormatErrors(items[..|items| - 1]) + (if last.Some? then [last.value] else [])
  }

  function CalverItems(items: seq<Item>): seq<CalverItem> {
    if items == [] then []
    else
      var last := items[|items| - 1];
      CalverItems(items[..|items| - 1])
      + (if FormatError(last) == None && FloorsOf(last).Some?
         then [CalverItem(last.title, Number(last.sparkleVersion.value), FloorsOf(last).value)] else [])
  }

  /** The earliest date among the items already numbered by lane, but no later than the fixed adoption date. */
  function AdoptionDateKey(items: seq<CalverItem>): nat {
    if items == [] then LANE_FLOOR_ADOPTION_DATE_KEY
    else
      var before := AdoptionDateKey(items[..|items| - 1]);
      var last := items[|items| - 1];
      if last.build >= LANE_BUILD_MIN && last.floors.dateKey < before then last.floors.dateKey else before
  }

  function FloorError(item: CalverItem, adoption: nat): Option<Error> {
    var expectLane := item.build >= LANE_BUILD_MIN || item.floors.dateKey >= adoption;
    var floor := if expectLane then item.floors.laneFloor else item.floors.legacyFloor;
    if item.build < floor then Some(BelowFloor(item.title, item.build, expectLane, floor)) else None
  }

  function FloorErrors(items: seq<CalverItem>, adoption: nat): seq<Error> {
    if items == [] then []
    else
      var last := FloorError(items[|items| - 1], adoption);
      FloorErrors(items[..|items| - 1], adoption) + (if last.Some? then [last.value] else [])
  }

  function AppcastErrors(items: seq<Item>): seq<Error> {
    (if items == [] then [NoItems] else [])
    + FormatErrors(items) + FloorErrors(CalverItems(items), AdoptionDateKey(CalverItems(items)))
  }

  lemma {:induction false} NoItemsYet(adoption: nat)
    ensures FormatErrors([]) == [] && CalverItems([]) == [] && FloorErrors([], adoption) == []
  {
  }

  lemma {:induction false} ItemAppended(items: seq<Item>, i: nat)
    requires i < |items|
    ensures FormatErrors(items[..i + 1])
         == FormatErrors(items[..i]) + (if FormatError(items[i]).Some? then [FormatError(items[i]).value] else [])
    ensures CalverItems(items[..i + 1])
         == CalverItems(items[..i])
            + (if FormatError(items[i]) == None && FloorsOf(items[i]).Some?
               then [CalverItem(items[i].title, Number(items[i].sparkleVersion.value), FloorsOf(items[i]).value)]
                   else [])
  {
    assert items[..i + 1][..i] == items[..i];
  }

  lemma {:induction false} CalverItemAppended(items: seq<CalverItem>, i: nat, adoption: nat)
    requires i < |items|
    ensures FloorErrors(items[..i + 1], adoption)
         == FloorErrors(items[..i], adoption)
            + (if FloorError(items[i], adoption).Some? then [FloorError(items[i], adoption).value] else [])
  {
    assert items[..i + 1][..i] == items[..i];
  }

  method CollectAppcastSparkleVersionErrors(items: seq<Item>) returns (errors: seq<Error>)
    ensures errors == AppcastErrors(items)
  {
    hide SparkleBuildFloors, Number, AdoptionDateKey, FormatErrors, CalverItems, FloorErrors;
    NoItemsYet(0);
    errors := [];
    var calverItems: seq<CalverItem> := [];
    if |items| == 0 {
      errors := errors + [NoItems];
    }
    ghost var start := errors;
    for i := 0 to |items|
      invariant errors == start + FormatErrors(items[..i]) && calverItems == CalverItems(items[..i])
    {
      var item := items[i];
      ItemAppended(items, i);
      if item.sparkleVersion == None || item.sparkleVersion.value == "" {
        errors := errors + [MissingVersion(item.title)];
        continue;
      }
      if !AllDigits(item.sparkleVersion.value) {
        errors := errors + [NonNumericVersion(item.title, item.sparkleVersion.value)];
        continue;
      }
      if item.shortVersion == None {
        continue;
      }
      var floors := SparkleBuildFloors(item.shortVersion.value);
      if floors == None {
        continue;
      }
      calverItems := calverItems + [CalverItem(item.title, Number(item.sparkleVersion.value), floors.value)];
    }
    assert items[..|items|] == items;
    var adoption := AdoptionDateKey(calverItems);
    ghost var format := errors;
    NoItemsYet(adoption);
    for i := 0 to |calverItems|
      invariant errors == format + FloorErrors(calverItems[..i], adoption)
    {
      CalverItemAppended(calverItems, i, adoption);
      var expectLane := calverItems[i].build >= LANE_BUILD_MIN || calverItems[i].floors.dateKey >= adoption;
      var floor := if expectLane then calverItems[i].floors.laneFloor else calverItems[i].floors.legacyFloor;
      if calverItems[i].build < floor {
        errors := errors + [BelowFloor(calverItems[i].title, calverItems[i].build, expectLane, floor)];
      }
    }
    assert calverItems[..|calverItems|] == calverItems;
  }

  // ---------- more items never hide an error ----------

  /** The adoption date is the minimum it is meant to be, whatever the order of the items. */
  lemma {:induction false} AdoptionIsMinimum(items: seq<CalverItem>)
    ensures AdoptionDateKey(items) <= LANE_FLOOR_ADOPTION_DATE_KEY
    ensures forall c | c in items && c.build >= LANE_BUILD_MIN :: AdoptionDateKey(items) <= c.floors.dateKey
    ensures AdoptionDateKey(items) == LANE_FLOOR_ADOPTION_DATE_KEY
         || exists c :: c in items && c.build >= LANE_BUILD_MIN && c.floors.dateKey == AdoptionDateKey(items)
  {
    if items != [] {
      var n := |items| - 1;
      AdoptionIsMinimum(items[..n]);
      assert items == items[..n] + [items[n]];
    }
  }

  lemma {:induction false} CalverItemsOf(items: seq<Item>)
    ensures forall c :: c in CalverItems(items) <==>
              exists item :: item in items && FormatError(item) == None && FloorsOf(item).Some?
                             && c == CalverItem(item.title, Number(item.sparkleVersion.value), FloorsOf(item).value)
  {
    hide FormatError, FloorsOf, Number;
    if items != [] {
      var n := |items| - 1;
      CalverItemsOf(items[..n]);
      assert items == items[..n] + [items[n]];
      assert items[n] in items;
    }
  }

  lemma {:induction false} FloorErrorsOf(items: seq<CalverItem>, adoption: nat)
    ensures forall e ::
      e in FloorErrors(items, adoption) <==> exists c :: c in items && FloorError(c, adoption) == Some(e)
  {
    if items != [] {
      var n := |items| - 1;
      FloorErrorsOf(items[..n], adoption);
      assert items == items[..n] + [items[n]];
      assert items[n] in items;
    }
  }

  /**
   Adding or reordering items never removes an existing item's floor error, although the threshold
   depends on all of them: the item is still reported, against a floor at least as high.
   */
  lemma {:induction false} MoreItemsKeepFloorErrors(items: seq<Item>, more: seq<Item>, title: string, build: nat,
                                                    lane: bool, floor: nat)
    requires forall item | item in items :: item in more
    requires BelowFloor(title, build, lane, floor) in AppcastErrors(items)
    ensures exists lane', floor' :: BelowFloor(title, build, lane', floor') in AppcastErrors(more) && floor <= floor'
  {
    hide CalverItems, FloorErrors, FormatErrors, AdoptionDateKey, FloorError;
    var before, after := CalverItems(items), CalverItems(more);
    FormatErrorsOnly(items);
    FloorErrorsOf(before, AdoptionDateKey(before));
    FloorErrorsOf(after, AdoptionDateKey(after));
    var e := BelowFloor(title, build, lane, floor);
    var c :| c in before && FloorError(c, AdoptionDateKey(before)) == Some(e);
    AdoptionFalls(items, more);
    FloorsInOrder(items, c);
    var e' := LowerThreshold(c, AdoptionDateKey(before), AdoptionDateKey(after), e);
    assert e' in AppcastErrors(more);
  }

  /** Lowering the threshold can only replace a legacy floor by a lane floor. */
  lemma {:induction false} LowerThreshold(c: CalverItem, adoption: nat, lower: nat, e: Error) returns (e': Error)
    requires lower <= adoption && c.floors.legacyFloor <= c.floors.laneFloor && FloorError(c, adoption) == Some(e)
    ensures FloorError(c, lower) == Some(e') && e.BelowFloor? && e'.BelowFloor?
    ensures e'.title == e.title && e'.build == e.build && e.floor <= e'.floor
  {
    e' := FloorError(c, lower).value;
  }

  lemma {:induction false} FloorsInOrder(items: seq<Item>, c: CalverItem)
    requires c in CalverItems(items)
    ensures c.floors.legacyFloor <= c.floors.laneFloor
  {
    CalverItemsOf(items);
    var item :| item in items && FormatError(item) == None && FloorsOf(item).Some?
                && c == CalverItem(item.title, Number(item.sparkleVersion.value), FloorsOf(item).value);
    ItemFloorsInOrder(item);
  }

  lemma {:induction false} ItemFloorsInOrder(item: Item)
    requires FloorsOf(item).Some?
    ensures FloorsOf(item).value.legacyFloor <= FloorsOf(item).value.laneFloor
  {
    hide SparkleBuildFloors;
    match item.shortVersion
    case Some(v) =>
      NoFloorsWithoutDate(v);
      SchemesAreSeparate(v);
    case None =>
  }

  /** Floors exist exactly for dates with month and day in range. */
  lemma {:induction false} NoFloorsWithoutDate(v: Version)
    ensures SparkleBuildFloors(v).Some? <==> Valid(v)
  {
    hide Number, Decimal, PadTwo, LaneOf;
  }

  lemma {:induction false} AdoptionFalls(items: seq<Item>, more: seq<Item>)
    requires forall item | item in items :: item in more
    ensures AdoptionDateKey(CalverItems(more)) <= AdoptionDateKey(CalverItems(items))
    ensures forall c | c in CalverItems(items) :: c in CalverItems(more)
  {
    CalverItemsOf(items);
    CalverItemsOf(more);
    AdoptionIsMinimum(CalverItems(items));
    AdoptionIsMinimum(CalverItems(more));
  }

  lemma {:induction false} FormatErrorsOnly(items: seq<Item>)
    ensures forall e | e in FormatErrors(items) :: !e.BelowFloor?
  {
    if items != [] {
      FormatErrorsOnly(items[..|items| - 1]);
    }
  }

  // ---------- item by item ----------

  function ReportedBy(e: Error): multiset<(string, nat)> {
    if e.BelowFloor? then multiset{(e.title, e.build)} else multiset{}
  }

  /** Which titles and builds are reported below their floor, and how often. */
  function Reported(errors: seq<Error>): multiset<(string, nat)> {
    if errors == [] then multiset{} else Reported(errors[..|errors| - 1]) + ReportedBy(errors[|errors| - 1])
  }

  lemma {:induction false} ReportedConcat(a: seq<Error>, b: seq<Error>)
    ensures Reported(a + b) == Reported(a) + Reported(b)
  {
    hide ReportedBy;
    if b == [] {
      assert a + b == a && Reported(b) == multiset{};
    } else {
      var n := |b| - 1;
      ReportedConcat(a, b[..n]);
      assert (a + b)[..|a + b| - 1] == a + b[..n] && (a + b)[|a + b| - 1] == b[n];
      assert Reported(a + b) == Reported(a + b[..n]) + ReportedBy(b[n]);
    }
  }

  lemma {:induction false} WithoutOne<T>(s: seq<T>, j: nat)
    requires j < |s|
    ensures multiset(s) == multiset(s[..j] + s[j + 1..]) + multiset{s[j]}
  {
    assert s == s[..j] + [s[j]] + s[j + 1..];
  }

  /** Taking the same element out of both keeps one within the other. */
  lemma {:induction false} StillWithin<T>(a: seq<T>, b: seq<T>, i: nat, j: nat)
    requires multiset(a) <= multiset(b) && i < |a| && j < |b| && a[i] == b[j]
    ensures multiset(a[..i] + a[i + 1..]) <= multiset(b[..j] + b[j + 1..])
  {
    WithoutOne(a, i);
    WithoutOne(b, j);
    var x, y := multiset(a[..i] + a[i + 1..]), multiset(b[..j] + b[j + 1..]);
    forall z
      ensures x[z] <= y[z]
    {
      assert multiset(a)[z] <= multiset(b)[z];
    }
  }

  lemma {:induction false} FormatNotReported(items: seq<Item>)
    ensures Reported(FormatErrors(items)) == multiset{}
  {
    if items != [] {
      var n := |items| - 1;
      FormatNotReported(items[..n]);
      var last := FormatError(items[n]);
      if last.Some? {
        assert FormatErrors(items)[..|FormatErrors(items)| - 1] == FormatErrors(items[..n]);
      } else {
        assert FormatErrors(items) == FormatErrors(items[..n]);
      }
    }
  }

  /** What one item contributes to the reports. */
  function Report(c: CalverItem, adoption: nat): multiset<(string, nat)> {
    if FloorError(c, adoption).Some? then multiset{(c.title, c.build)} else multiset{}
  }

  function Reports(items: seq<CalverItem>, adoption: nat): multiset<(string, nat)> {
    if items == [] then multiset{} else Reports(items[..|items| - 1], adoption) + Report(items[|items| - 1], adoption)
  }

  lemma {:induction false} FloorErrorsReport(items: seq<CalverItem>, adoption: nat)
    ensures Reported(FloorErrors(items, adoption)) == Reports(items, adoption)
  {
    if items != [] {
      var n := |items| - 1;
      FloorErrorsReport(items[..n], adoption);
      var last := FloorError(items[n], adoption);
      if last.Some? {
        assert FloorErrors(items, adoption)[..|FloorErrors(items, adoption)| - 1] == FloorErrors(items[..n], adoption);
      } else {
        assert FloorErrors(items, adoption) == FloorErrors(items[..n], adoption);
      }
    }
  }

  lemma {:induction false} ReportsWithout(items: seq<CalverItem>, adoption: nat, j: nat)
    requires j < |items|
    ensures Reports(items, adoption) == Reports(items[..j] + items[j + 1..], adoption) + Report(items[j], adoption)
  {
    hide Report;
    var n := |items| - 1;
    var rest := items[..j] + items[j + 1..];
    if j == n {
      assert rest == items[..n];
    } else {
      var shorter := items[..n][..j] + items[..n][j + 1..];
      ReportsWithout(items[..n], adoption, j);
      assert rest == shorter + [items[n]] && rest[..|rest| - 1] == shorter;
      assert Reports(rest, adoption) == Reports(shorter, adoption) + Report(items[n], adoption);
    }
  }

  /** More items and a lower threshold report at least as much. */
  lemma {:induction false} ReportsGrow(items: seq<CalverItem>, more: seq<CalverItem>, adoption: nat, lower: nat)
    requires multiset(items) <= multiset(more) && lower <= adoption
    requires forall c | c in items :: c.floors.legacyFloor <= c.floors.laneFloor
    ensures Reports(items, adoption) <= Reports(more, lower)
    decreases |items|
  {
    hide FloorError;
    if items != [] {
      var n := |items| - 1;
      var c := items[n];
      assert c in multiset(items) && c in multiset(more);
      var j :| 0 <= j < |more| && more[j] == c;
      var rest := more[..j] + more[j + 1..];
      StillWithin(items, more, n, j);
      assert items[..n] + items[n + 1..] == items[..n];
      ReportsGrow(items[..n], rest, adoption, lower);
      ReportsWithout(more, lower, j);
      ReportStays(c, adoption, lower);
    }
  }

  lemma {:induction false} ReportStays(c: CalverItem, adoption: nat, lower: nat)
    requires lower <= adoption && c.floors.legacyFloor <= c.floors.laneFloor
    ensures Report(c, adoption) <= Report(c, lower)
  {
    if FloorError(c, adoption).Some? {
      var _ := LowerThreshold(c, adoption, lower, FloorError(c, adoption).value);
    }
  }

  function CalverOf(item: Item): seq<CalverItem> {
    if FormatError(item) == None && FloorsOf(item).Some?
    then [CalverItem(item.title, Number(item.sparkleVersion.value), FloorsOf(item).value)]
    else []
  }

  lemma {:induction false} CalverItemsWithout(items: seq<Item>, j: nat)
    requires j < |items|
    ensures multiset(CalverItems(items))
        == multiset(CalverItems(items[..j] + items[j + 1..])) + multiset(CalverOf(items[j]))
  {
    hide CalverOf, CalverItems;
    var n := |items| - 1;
    var rest := items[..j] + items[j + 1..];
    CalverItemsLast(items);
    if j == n {
      assert rest == items[..n];
    } else {
      CalverItemsWithout(items[..n], j);
      CalverItemsLast(rest);
      assert items[..n][..j] + items[..n][j + 1..] == rest[..n - 1];
      assert rest[n - 1] == items[n];
    }
  }

  lemma {:induction false} CalverItemsLast(items: seq<Item>)
    requires items != []
    ensures CalverItems(items) == CalverItems(items[..|items| - 1]) + CalverOf(items[|items| - 1])
  {
  }

  lemma {:induction false} CalverItemsGrow(items: seq<Item>, more: seq<Item>)
    requires multiset(items) <= multiset(more)
    ensures multiset(CalverItems(items)) <= multiset(CalverItems(more))
    decreases |items|
  {
    hide CalverOf, FormatError, FloorsOf;
    if items != [] {
      var n := |items| - 1;
      var item := items[n];
      assert item in multiset(items) && item in multiset(more);
      var j :| 0 <= j < |more| && more[j] == item;
      var rest := more[..j] + more[j + 1..];
      StillWithin(items, more, n, j);
      assert items[..n] + items[n + 1..] == items[..n];
      CalverItemsGrow(items[..n], rest);
      CalverItemsWithout(more, j);
      CalverItemsWithout(items, n);
    }
  }

  lemma {:induction false} AppcastReports(items: seq<Item>)
    ensures Reported(AppcastErrors(items)) == Reports(CalverItems(items), AdoptionDateKey(CalverItems(items)))
  {
    hide FormatErrors, FloorErrors, CalverItems, AdoptionDateKey, Reports;
    var head := if items == [] then [NoItems] else [];
    var floors := FloorErrors(CalverItems(items), AdoptionDateKey(CalverItems(items)));
    ReportedConcat(head + FormatErrors(items), floors);
    ReportedConcat(head, FormatErrors(items));
    FormatNotReported(items);
    FloorErrorsReport(CalverItems(items), AdoptionDateKey(CalverItems(items)));
    assert Reported(head) == multiset{};
  }

  /** Item by item: however items are added and reordered, every report stays, as often as there are items for it. */
  lemma {:induction false} MoreItemsKeepReports(items: seq<Item>, more: seq<Item>)
    requires multiset(items) <= multiset(more)
    ensures Reported(AppcastErrors(items)) <= Reported(AppcastErrors(more))
  {
    hide AppcastErrors, CalverItems, AdoptionDateKey, Reports, Reported;
    AppcastReports(items);
    AppcastReports(more);
    CalverItemsGrow(items, more);
    forall item | item in items
      ensures item in more
    {
      assert item in multiset(items) && item in multiset(more);
    }
    AdoptionFalls(items, more);
    forall c | c in CalverItems(items) {
      FloorsInOrder(items, c);
    }
    ReportsGrow(CalverItems(items), CalverItems(more), AdoptionDateKey(CalverItems(items)),
        AdoptionDateKey(CalverItems(more)));
  }
}
