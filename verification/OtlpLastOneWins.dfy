/**
 The merging rules of the Protocol Buffers Encoding specification, section "Last One Wins", for the
 trace messages, and exactly which messages the decoders read as these rules say: a singular embedded
 message that comes again is to be merged into the earlier one, and a oneof member to clear the others.
 */
module OtlpLastOneWins {
  import opened Wrappers
  import opened ProtoWire
  import opened Otlp
  import opened OtlpEncoding

  // ---------- the merging of the specification ----------

  function ItemsOf(v: AnyValue): seq<AnyValue> {
    if v.arrayValue.Some? then v.arrayValue.value.values else []
  }

  function PairsOf(v: AnyValue): seq<KeyValue> {
    if v.kvlistValue.Some? then v.kvlistValue.value.values else []
  }

  /** A member given by `b` clears all others; one that both give is merged, which appends repeated fields. */
  function SpecMergeAny(a: AnyValue, b: AnyValue): AnyValue {
    if b == NO_VALUE then a
    else
      b.(arrayValue := if b.arrayValue.Some? then Some(ArrayValue(ItemsOf(a) + ItemsOf(b))) else None,
         kvlistValue := if b.kvlistValue.Some? then Some(KeyValueList(PairsOf(a) + PairsOf(b))) else None)
  }

  function SpecMergeKeyValue(a: KeyValue, b: KeyValue): KeyValue {
    KeyValue(Later(a.key, b.key),
             if a.value.Some? && b.value.Some? then Some(SpecMergeAny(a.value.value, b.value.value))
             else Later(a.value, b.value))
  }

  // ---------- what the fields read mean by the specification ----------

  function SpecAnyOf(es: seq<Entry>): AnyValue {
    if es == [] then NO_VALUE else SpecMergeAny(SpecAnyOf(es[..|es| - 1]), SpecAnyFrom(es[|es| - 1]))
  }

  function SpecAnyFrom(e: Entry): AnyValue
    decreases e, 0
  {
    match (e.field, e.value)
    case (5, Message(es)) => NO_VALUE.(arrayValue := Some(SpecArrayOf(es)))
    case (6, Message(es)) => NO_VALUE.(kvlistValue := Some(SpecKeyValueListOf(es)))
    case _ => AnyFrom(e)
  }

  function SpecArrayOf(es: seq<Entry>): ArrayValue {
    ArrayValue(seq(|es|, i requires 0 <= i < |es| => SpecAnyIn(es[i])))
  }

  function SpecAnyIn(e: Entry): AnyValue
    decreases e
  {
    if e.value.Message? then SpecAnyOf(e.value.entries) else NO_VALUE
  }

  function SpecKeyValueOf(es: seq<Entry>): KeyValue {
    if es == [] then NO_ENTRY else SpecMergeKeyValue(SpecKeyValueOf(es[..|es| - 1]), SpecKeyValueFrom(es[|es| - 1]))
  }

  function SpecKeyValueFrom(e: Entry): KeyValue
    decreases e, 0
  {
    match (e.field, e.value)
    case (2, Message(es)) => NO_ENTRY.(value := Some(SpecAnyOf(es)))
    case _ => KeyValueFrom(e)
  }

  function SpecKeyValueListOf(es: seq<Entry>): KeyValueList {
    KeyValueList(seq(|es|, i requires 0 <= i < |es| => SpecKeyValueIn(es[i])))
  }

  function SpecKeyValueIn(e: Entry): KeyValue
    decreases e
  {
    if e.value.Message? then SpecKeyValueOf(e.value.entries) else NO_ENTRY
  }

  function SpecSpanOf(es: seq<Entry>): Span {
    if es == [] then NO_SPAN else MergeSpan(SpecSpanOf(es[..|es| - 1]), SpecSpanFrom(es[|es| - 1]))
  }

  function SpecSpanFrom(e: Entry): Span {
    match (e.field, e.value)
    case (9, Message(es)) => NO_SPAN.(attributes := Some([SpecKeyValueOf(es)]))
    case _ => SpanFrom(e)
  }

  function SpecSpanIn(e: Entry): Span {
    if e.value.Message? then SpecSpanOf(e.value.entries) else NO_SPAN
  }

  function SpecScopeIn(e: Entry): ScopeSpans {
    if e.value.Message? then
      ScopeSpans(seq(|e.value.entries|, i requires 0 <= i < |e.value.entries| => SpecSpanIn(e.value.entries[i])))
    else ScopeSpans([])
  }

  function SpecResourceIn(e: Entry): ResourceSpans {
    if e.value.Message? then
      ResourceSpans(seq(|e.value.entries|, i requires 0 <= i < |e.value.entries| => SpecScopeIn(e.value.entries[i])))
    else ResourceSpans([])
  }

  function SpecRequestOf(es: seq<Entry>): seq<ResourceSpans> {
    seq(|es|, i requires 0 <= i < |es| => SpecResourceIn(es[i]))
  }

  // ---------- two parts of one message ----------

  predicate SetsMember(v: AnyValue, n: nat) {
    match n
    case 1 => v.stringValue.Some?
    case 2 => v.boolValue.Some?
    case 3 => v.intValue.Some?
    case 4 => v.doubleValue.Some?
    case 5 => v.arrayValue.Some?
    case 6 => v.kvlistValue.Some?
    case 7 => v.bytesValue.Some?
    case _ => false
  }

  /** No member that holds a repeated field is given twice, unless it was empty the first time. */
  predicate NothingToAppend(a: AnyValue, b: AnyValue) {
    (b.arrayValue.Some? ==> ItemsOf(a) == []) && (b.kvlistValue.Some? ==> PairsOf(a) == [])
  }

  lemma {:induction false} AppendsNothing(xs: seq<AnyValue>, ys: seq<AnyValue>)
    ensures xs + ys == ys <==> xs == []
  {
    assert |xs + ys| == |xs| + |ys|;
    if xs == [] {
      assert xs + ys == ys;
    }
  }

  lemma {:induction false} AppendsNoPairs(xs: seq<KeyValue>, ys: seq<KeyValue>)
    ensures xs + ys == ys <==> xs == []
  {
    assert |xs + ys| == |xs| + |ys|;
    if xs == [] {
      assert xs + ys == ys;
    }
  }

  /**
   A later value replaces an earlier one as merging would if and only if nothing of the earlier one was to be
   kept.
   */
  lemma {:induction false} ReplacesAsMerged(a: AnyValue, b: AnyValue)
    ensures b == SpecMergeAny(a, b) <==> (b == NO_VALUE ==> a == NO_VALUE) && NothingToAppend(a, b)
  {
    AppendsNothing(ItemsOf(a), ItemsOf(b));
    AppendsNoPairs(PairsOf(a), PairsOf(b));
  }

  /** Every member that `a` sets is set again by `b`. */
  predicate Overwrites(a: AnyValue, b: AnyValue) {
    && (SetsMember(a, 1) ==> SetsMember(b, 1))
    && (SetsMember(a, 2) ==> SetsMember(b, 2))
    && (SetsMember(a, 3) ==> SetsMember(b, 3))
    && (SetsMember(a, 4) ==> SetsMember(b, 4))
    && (SetsMember(a, 5) ==> SetsMember(b, 5))
    && (SetsMember(a, 6) ==> SetsMember(b, 6))
    && (SetsMember(a, 7) ==> SetsMember(b, 7))
  }

  lemma {:induction false} OverwritesAll(a: AnyValue, b: AnyValue)
    ensures MergeAny(a, b) == b <==> Overwrites(a, b)
  {
  }

  lemma {:induction false} MergesAsSpecified(a: AnyValue, b: AnyValue)
    ensures MergeAny(a, b) == SpecMergeAny(a, b) <==> b == NO_VALUE || (Overwrites(a, b) && NothingToAppend(a, b))
  {
    hide Overwrites;
    ReplacesAsMerged(a, b);
    OverwritesAll(a, b);
    if b != NO_VALUE && MergeAny(a, b) == SpecMergeAny(a, b) {
      OnlyOf(a, b);
    }
  }

  /** The merge of the specification has no other members than `b`, so the decoder's must not either. */
  lemma {:induction false} OnlyOf(a: AnyValue, b: AnyValue)
    requires b != NO_VALUE && MergeAny(a, b) == SpecMergeAny(a, b)
    ensures MergeAny(a, b) == b
  {
  }

  /**
   Two parts of a value decode together to the specification's merge of their decodings if and only if
   the second gives nothing, or gives all that the first does and appends to nothing.
   */
  lemma {:induction false} AnyLastOneWinsIff(s: Bytes, t: Bytes)
    requires Parse(AnyKind, s).Ok? && Parse(AnyKind, s).value.overshoot == 0 && Parse(AnyKind, t).Ok?
    ensures var a, b := DecodeAnyTree(s).value, DecodeAnyTree(t).value;
            (DecodeAnyTree(s + t) == Ok(SpecMergeAny(a, b))
             <==> b == NO_VALUE || (Overwrites(a, b) && NothingToAppend(a, b)))
  {
    hide Parse, AnyOf, Overwrites, NothingToAppend;
    AnyValueOverrides(s, t);
    MergesAsSpecified(DecodeAnyTree(s).value, DecodeAnyTree(t).value);
  }

  /**
   Two parts of an entry: if both give a value, the second may be empty only if the first is, and must append
   to nothing.
   */
  lemma {:induction false} KeyValueLastOneWinsIff(s: Bytes, t: Bytes)
    requires Parse(KeyValueKind, s).Ok? && Parse(KeyValueKind, s).value.overshoot == 0 && Parse(KeyValueKind, t).Ok?
    ensures var a, b := DecodeKeyValueTree(s).value, DecodeKeyValueTree(t).value;
            (DecodeKeyValueTree(s + t) == Ok(SpecMergeKeyValue(a, b))
             <==> (a.value.Some? && b.value.Some? ==>
                     (b.value.value == NO_VALUE ==> a.value.value == NO_VALUE)
                         && NothingToAppend(a.value.value, b.value.value)))
  {
    hide Parse, KeyValueOf, NothingToAppend, SpecMergeAny;
    KeyValueOverrides(s, t);
    var a, b := DecodeKeyValueTree(s).value, DecodeKeyValueTree(t).value;
    if a.value.Some? && b.value.Some? {
      ReplacesAsMerged(a.value.value, b.value.value);
    }
  }

  // ---------- inputs on which the rules are broken ----------

  /** A value given again, empty, erases the first one; by the specification the first stays. */
  lemma {:induction false} EmptyValueErases()
    ensures DecodeKeyValueTree([18, 2, 16, 1, 18, 0]) == Ok(KeyValue(None, Some(NO_VALUE)))
    ensures DecodeKeyValueTree([18, 2, 16, 1]) == Ok(KeyValue(None, Some(NO_VALUE.(boolValue := Some(true)))))
    ensures DecodeKeyValueTree([18, 0]) == Ok(KeyValue(None, Some(NO_VALUE)))
    ensures SpecMergeKeyValue(DecodeKeyValueTree([18, 2, 16, 1]).value, DecodeKeyValueTree([18, 0]).value)
         == KeyValue(None, Some(NO_VALUE.(boolValue := Some(true))))
  {
    TrueEntry();
    EmptyEntry();
    KeyValueOverrides([18, 2, 16, 1], [18, 0]);
    assert [18, 2, 16, 1] + [18, 0] == [18, 2, 16, 1, 18, 0];
  }

  lemma {:induction false} TrueEntry()
    ensures Parse(KeyValueKind, [18, 2, 16, 1]) == Ok(Parsed([Entry(2, Message([Entry(2, Num(1))]))], 0))
    ensures DecodeKeyValueTree([18, 2, 16, 1]) == Ok(KeyValue(None, Some(NO_VALUE.(boolValue := Some(true)))))
  {
    var inner := [Entry(2, Num(1))];
    var es := [Entry(2, Message(inner))];
    assert inner[1..] == [] && es[1..] == [];
    assert EncodeVarint(16) == [16] && EncodeVarint(18) == [18] && EncodeVarint(2) == [2];
    assert EncodeAll(inner) == [16, 1];
    assert EncodeAll(es) == [18, 2, 16, 1];
    ParseInvertsEncode(KeyValueKind, es);
    AnyAppend([], Entry(2, Num(1)));
    KeyValueAppend([], es[0]);
    assert [] + inner == inner && [] + es == es;
  }

  lemma {:induction false} EmptyEntry()
    ensures Parse(KeyValueKind, [18, 0]) == Ok(Parsed([Entry(2, Message([]))], 0))
    ensures DecodeKeyValueTree([18, 0]) == Ok(KeyValue(None, Some(NO_VALUE)))
  {
    var es := [Entry(2, Message([]))];
    assert es[1..] == [];
    assert EncodeVarint(18) == [18] && EncodeVarint(0) == [0];
    assert EncodeAll(es) == [18, 0];
    ParseInvertsEncode(KeyValueKind, es);
    KeyValueAppend([], es[0]);
    assert [] + es == es;
  }

  /** Two members of the oneof, an empty string and then `true`, are both kept; the specification keeps the last. */
  lemma {:induction false} OneofNotCleared()
    ensures DecodeAnyTree([10, 0, 16, 1]) == Ok(NO_VALUE.(stringValue := Some([]), boolValue := Some(true)))
    ensures Parse(AnyKind, [10, 0, 16, 1]).Ok?
    ensures SpecAnyOf(Parse(AnyKind, [10, 0, 16, 1]).value.entries) == NO_VALUE.(boolValue := Some(true))
  {
    hide AnyOf, SpecAnyOf, EncodeAll, Parse;
    var es := [Entry(1, Raw([])), Entry(2, Num(1))];
    OneofBytes();
    OneofMeans();
    ParseInvertsEncode(AnyKind, es);
  }

  lemma {:induction false} OneofBytes()
    ensures EncodeAll([Entry(1, Raw([])), Entry(2, Num(1))]) == [10, 0, 16, 1]
  {
    var es := [Entry(1, Raw([])), Entry(2, Num(1))];
    assert es[1..] == [Entry(2, Num(1))] && es[1..][1..] == [];
    assert EncodeVarint(10) == [10] && EncodeVarint(0) == [0] && EncodeVarint(16) == [16];
    assert EncodeAll(es[1..]) == [16, 1];
  }

  lemma {:induction false} OneofMeans()
    ensures AnyOf([Entry(1, Raw([])), Entry(2, Num(1))]) == NO_VALUE.(stringValue := Some([]), boolValue := Some(true))
    ensures SpecAnyOf([Entry(1, Raw([])), Entry(2, Num(1))]) == NO_VALUE.(boolValue := Some(true))
  {
    var es := [Entry(1, Raw([])), Entry(2, Num(1))];
    AnyAppend([], es[0]);
    AnyAppend([es[0]], es[1]);
    assert [] + [es[0]] == [es[0]] && [es[0]] + [es[1]] == es;
    var first := SpecAnyOf(es[..1]);
    assert SpecAnyOf(es) == SpecMergeAny(first, SpecAnyFrom(es[1]));
  }

  // ---------- the messages that are read as specified ----------

  /** One oneof member only, and given several times only if all but the last are empty messages; so at every depth. */
  predicate AnyConforms(es: seq<Entry>)
    decreases es
  {
    es == [] ||
    var n := |es| - 1;
    && (forall i | 0 <= i < n :: es[i].field == es[n].field && (es[i].value.Message? ==> es[i].value.entries == []))
    && LastConforms(es[n])
  }

  predicate LastConforms(e: Entry)
    decreases e
  {
    e.value.Message? ==> if e.field == 5 then ItemsConform(e.value.entries) else PairsConform(e.value.entries)
  }

  predicate ItemsConform(es: seq<Entry>)
    decreases es
  {
    forall i | 0 <= i < |es| :: ItemConforms(es[i])
  }

  predicate ItemConforms(e: Entry)
    decreases e
  {
    e.value.Message? ==> AnyConforms(e.value.entries)
  }

  predicate PairsConform(es: seq<Entry>)
    decreases es
  {
    forall i | 0 <= i < |es| :: PairConforms(es[i])
  }

  predicate PairConforms(e: Entry)
    decreases e
  {
    e.value.Message? ==> KeyValueConforms(e.value.entries)
  }

  /** Replacing what was given before by the value `last` loses nothing that merging would keep. */
  predicate LeavesNothing(before: Option<AnyValue>, last: seq<Entry>) {
    before.Some? ==> (last == [] ==> before.value == NO_VALUE) && NothingToAppend(before.value, SpecAnyOf(last))
  }

  /** The last value conforms, and nothing of the values before it was to be kept. */
  predicate KeyValueConforms(es: seq<Entry>)
    decreases es
  {
    es == [] ||
    var n := |es| - 1;
    if es[n].field == 2 && es[n].value.Message? then
      assert es decreases to es[n];
      AnyConforms(es[n].value.entries) && LeavesNothing(SpecKeyValueOf(es[..n]).value, es[n].value.entries)
    else KeyValueConforms(es[..n])
  }

  // ---------- members ----------

  lemma {:induction false} FromSetsOne(e: Entry)
    requires WellFormed(AnyKind, e)
    ensures 1 <= e.field <= 7 && (e.value.Message? <==> e.field == 5 || e.field == 6)
    ensures forall n: nat :: SetsMember(AnyFrom(e), n) <==> n == e.field
    ensures forall n: nat :: SetsMember(SpecAnyFrom(e), n) <==> n == e.field
    ensures e.field != 5 && e.field != 6 ==> SpecAnyFrom(e) == AnyFrom(e)
    ensures e.field == 5 ==> AnyFrom(e) == NO_VALUE.(arrayValue := Some(ArrayOf(e.value.entries)))
    ensures e.field == 5 ==> SpecAnyFrom(e) == NO_VALUE.(arrayValue := Some(SpecArrayOf(e.value.entries)))
    ensures e.field == 6 ==> AnyFrom(e) == NO_VALUE.(kvlistValue := Some(KeyValueListOf(e.value.entries)))
    ensures e.field == 6 ==> SpecAnyFrom(e) == NO_VALUE.(kvlistValue := Some(SpecKeyValueListOf(e.value.entries)))
    ensures e.field == 5 ==> AllWellFormed(ArrayKind, e.value.entries)
    ensures e.field == 6 ==> AllWellFormed(KeyValueListKind, e.value.entries)
  {
  }

  lemma {:induction false} MergeMembers(a: AnyValue, b: AnyValue, n: nat)
    ensures SetsMember(MergeAny(a, b), n) <==> SetsMember(a, n) || SetsMember(b, n)
    ensures b != NO_VALUE ==> (SetsMember(SpecMergeAny(a, b), n) <==> SetsMember(b, n))
  {
  }

  lemma {:induction false} DecodedMembers(es: seq<Entry>, n: nat)
    requires AllWellFormed(AnyKind, es)
    ensures SetsMember(AnyOf(es), n) <==> exists i :: 0 <= i < |es| && es[i].field == n
  {
    hide AnyFrom, SetsMember, MergeAny, WellFormed;
    if es == [] {
      NoMembers(n);
    } else {
      var last := |es| - 1;
      assert WellFormed(AnyKind, es[last]);
      FromSetsOne(es[last]);
      DecodedMembers(es[..last], n);
      MergeMembers(AnyOf(es[..last]), AnyFrom(es[last]), n);
      assert AnyOf(es) == MergeAny(AnyOf(es[..last]), AnyFrom(es[last]));
    }
  }

  lemma {:induction false} NoMembers(n: nat)
    ensures !SetsMember(NO_VALUE, n)
  {
  }

  lemma {:induction false} SpecMembers(es: seq<Entry>, n: nat)
    requires AllWellFormed(AnyKind, es) && es != []
    ensures SetsMember(SpecAnyOf(es), n) <==> n == es[|es| - 1].field
    ensures SpecAnyOf(es) != NO_VALUE
  {
    hide SpecAnyFrom, SetsMember, SpecMergeAny, WellFormed;
    var e := es[|es| - 1];
    assert WellFormed(AnyKind, e);
    FromSetsOne(e);
    NoMembers(e.field);
    assert SpecAnyFrom(e) != NO_VALUE;
    MergeMembers(SpecAnyOf(es[..|es| - 1]), SpecAnyFrom(e), n);
    MergeMembers(SpecAnyOf(es[..|es| - 1]), SpecAnyFrom(e), e.field);
  }

  /** If both readings agree there is only one member. */
  lemma {:induction false} OneMember(es: seq<Entry>, i: nat)
    requires AllWellFormed(AnyKind, es) && i < |es| && AnyOf(es) == SpecAnyOf(es)
    ensures es[i].field == es[|es| - 1].field
  {
    hide SetsMember, AnyOf, SpecAnyOf, WellFormed;
    DecodedMembers(es, es[i].field);
    SpecMembers(es, es[i].field);
  }

  ghost predicate AllOf(es: seq<Entry>, field: nat) {
    forall i | 0 <= i < |es| :: es[i].field == field
  }

  /** With one member only, the decoder's value is the one of the last field. */
  lemma {:induction false} LastOfOne(es: seq<Entry>)
    requires AllWellFormed(AnyKind, es) && es != [] && AllOf(es, es[|es| - 1].field)
    ensures AnyOf(es) == AnyFrom(es[|es| - 1])
  {
    hide AnyFrom, WellFormed;
    var n := |es| - 1;
    var before := AnyOf(es[..n]);
    assert WellFormed(AnyKind, es[n]);
    FromSetsOne(es[n]);
    forall m: nat
      ensures SetsMember(before, m) ==> SetsMember(AnyFrom(es[n]), m)
    {
      DecodedMembers(es[..n], m);
    }
    OverwritesAll(before, AnyFrom(es[n]));
  }

  predicate EmptyMessages(es: seq<Entry>) {
    forall i | 0 <= i < |es| :: es[i].value.Message? ==> es[i].value.entries == []
  }

  /** Nothing has been collected under a repeated member exactly if its messages were all empty. */
  lemma {:induction false} NothingCollected(es: seq<Entry>, field: nat)
    requires AllWellFormed(AnyKind, es) && AllOf(es, field) && (field == 5 || field == 6)
    ensures EmptyMessages(es) <==> if field == 5 then ItemsOf(SpecAnyOf(es)) == [] else PairsOf(SpecAnyOf(es)) == []
  {
    hide SpecAnyFrom, WellFormed, SpecMergeAny;
    if es != [] {
      var n := |es| - 1;
      assert WellFormed(AnyKind, es[n]);
      NothingCollected(es[..n], field);
      CollectOne(SpecAnyOf(es[..n]), es[n]);
      assert SpecAnyOf(es) == SpecMergeAny(SpecAnyOf(es[..n]), SpecAnyFrom(es[n]));
      assert EmptyMessages(es) <==> EmptyMessages(es[..n]) && es[n].value.entries == [];
    }
  }

  /** A field that holds a repeated member adds as many elements as its message has fields. */
  lemma {:induction false} CollectOne(before: AnyValue, e: Entry)
    requires WellFormed(AnyKind, e) && (e.field == 5 || e.field == 6)
    ensures e.value.Message?
    ensures var after := SpecMergeAny(before, SpecAnyFrom(e));
            if e.field == 5 then |ItemsOf(after)| == |ItemsOf(before)| + |e.value.entries|
            else |PairsOf(after)| == |PairsOf(before)| + |e.value.entries|
  {
    hide SpecAnyFrom, WellFormed, AnyFrom;
    FromSetsOne(e);
  }

  lemma {:induction false} NothingGiven()
    ensures AnyOf([]) == NO_VALUE && SpecAnyOf([]) == NO_VALUE && AnyConforms([])
  {
  }

  /** A member without repeated fields is simply set. */
  lemma {:induction false} ScalarIsSet(a: AnyValue, b: AnyValue, n: nat)
    requires SetsMember(b, n) && !SetsMember(b, 5) && !SetsMember(b, 6)
    ensures SpecMergeAny(a, b) == b
  {
  }

  // ---------- exactly these messages ----------

  lemma {:induction false} AnySame(es: seq<Entry>)
    requires AllWellFormed(AnyKind, es)
    ensures AnyOf(es) == SpecAnyOf(es) <==> AnyConforms(es)
    decreases es, 2
  {
    hide WellFormed, AnyFrom, SpecAnyFrom, AnyOf, SpecMergeAny;
    if es == [] {
      NothingGiven();
    } else {
      var n := |es| - 1;
      assert WellFormed(AnyKind, es[n]);
      if AllOf(es, es[n].field) {
        assert es decreases to es[n];
        LastOfOne(es);
        LastSame(es);
      } else {
        if AnyOf(es) == SpecAnyOf(es) {
          forall i | 0 <= i < |es|
            ensures es[i].field == es[n].field
          {
            OneMember(es, i);
          }
        }
      }
    }
  }

  /** The case of a single member. */
  lemma {:induction false} LastSame(es: seq<Entry>)
    requires AllWellFormed(AnyKind, es) && es != [] && AllOf(es, es[|es| - 1].field)
    ensures AnyFrom(es[|es| - 1]) == SpecAnyOf(es) <==> AnyConforms(es)
    decreases es, 1
  {
    hide WellFormed, AnyFrom, SpecAnyFrom, ItemsConform, PairsConform, ArrayOf, SpecArrayOf, KeyValueListOf,
      SpecKeyValueListOf, AnyConforms, SpecAnyOf, SpecMergeAny;
    var n := |es| - 1;
    var e, before := es[n], SpecAnyOf(es[..n]);
    assert es decreases to e;
    assert WellFormed(AnyKind, e);
    FromSetsOne(e);
    ByTheLast(es);
    if e.field == 5 {
      NothingCollected(es[..n], 5);
      ArraySame(e.value.entries);
      ArrayLengths(e.value.entries);
      MergedItems(before, SpecArrayOf(e.value.entries), ArrayOf(e.value.entries));
    } else if e.field == 6 {
      NothingCollected(es[..n], 6);
      KeyValueListSame(e.value.entries);
      KeyValueListLengths(e.value.entries);
      MergedPairs(before, SpecKeyValueListOf(e.value.entries), KeyValueListOf(e.value.entries));
    } else {
      ScalarIsSet(before, SpecAnyFrom(e), e.field);
      forall i | 0 <= i < n
        ensures !es[i].value.Message?
      {
        assert WellFormed(AnyKind, es[i]);
        FromSetsOne(es[i]);
      }
    }
  }

  lemma {:induction false} ByTheLast(es: seq<Entry>)
    requires es != [] && AllOf(es, es[|es| - 1].field)
    ensures var n := |es| - 1;
            && SpecAnyOf(es) == SpecMergeAny(SpecAnyOf(es[..n]), SpecAnyFrom(es[n]))
            && (AnyConforms(es) <==> EmptyMessages(es[..n]) && LastConforms(es[n]))
  {
    hide SpecMergeAny, SpecAnyFrom, LastConforms;
  }

  lemma {:induction false} ArrayLengths(es: seq<Entry>)
    ensures |SpecArrayOf(es).values| == |ArrayOf(es).values|
  {
  }

  lemma {:induction false} KeyValueListLengths(es: seq<Entry>)
    ensures |SpecKeyValueListOf(es).values| == |KeyValueListOf(es).values|
  {
  }

  lemma {:induction false} SameAfterNothing(xs: seq<AnyValue>, ys: seq<AnyValue>, zs: seq<AnyValue>)
    requires |ys| == |zs|
    ensures xs + ys == zs <==> xs == [] && ys == zs
  {
    assert |xs + ys| == |xs| + |ys|;
    if xs == [] {
      assert xs + ys == ys;
    }
  }

  lemma {:induction false} SamePairsAfterNothing(xs: seq<KeyValue>, ys: seq<KeyValue>, zs: seq<KeyValue>)
    requires |ys| == |zs|
    ensures xs + ys == zs <==> xs == [] && ys == zs
  {
    assert |xs + ys| == |xs| + |ys|;
    if xs == [] {
      assert xs + ys == ys;
    }
  }

  lemma {:induction false} MergedItems(v: AnyValue, a: ArrayValue, b: ArrayValue)
    requires |a.values| == |b.values|
    ensures SpecMergeAny(v, NO_VALUE.(arrayValue := Some(a))) == NO_VALUE.(arrayValue := Some(b))
        <==> ItemsOf(v) == [] && a == b
  {
    SameAfterNothing(ItemsOf(v), a.values, b.values);
  }

  lemma {:induction false} MergedPairs(v: AnyValue, a: KeyValueList, b: KeyValueList)
    requires |a.values| == |b.values|
    ensures SpecMergeAny(v, NO_VALUE.(kvlistValue := Some(a))) == NO_VALUE.(kvlistValue := Some(b))
        <==> PairsOf(v) == [] && a == b
  {
    SamePairsAfterNothing(PairsOf(v), a.values, b.values);
  }

  lemma {:induction false} ArraySame(es: seq<Entry>)
    requires AllWellFormed(ArrayKind, es)
    ensures ArrayOf(es) == SpecArrayOf(es) <==> ItemsConform(es)
    decreases es, 3
  {
    hide AnyOf, SpecAnyOf, AnyConforms;
    forall i | 0 <= i < |es|
      ensures AnyIn(es[i]) == SpecAnyIn(es[i]) <==> ItemConforms(es[i])
    {
      assert WellFormed(ArrayKind, es[i]);
      assert es decreases to es[i];
      AnySame(es[i].value.entries);
    }
    var a, b := ArrayOf(es).values, SpecArrayOf(es).values;
    assert forall i | 0 <= i < |es| :: a[i] == AnyIn(es[i]) && b[i] == SpecAnyIn(es[i]);
    assert a == b <==> forall i | 0 <= i < |es| :: a[i] == b[i];
  }

  lemma {:induction false} KeyValueListSame(es: seq<Entry>)
    requires AllWellFormed(KeyValueListKind, es)
    ensures KeyValueListOf(es) == SpecKeyValueListOf(es) <==> PairsConform(es)
    decreases es, 3
  {
    hide KeyValueOf, SpecKeyValueOf, KeyValueConforms;
    forall i | 0 <= i < |es|
      ensures KeyValueIn(es[i]) == SpecKeyValueIn(es[i]) <==> PairConforms(es[i])
    {
      assert WellFormed(KeyValueListKind, es[i]);
      assert es decreases to es[i];
      KeyValueSame(es[i].value.entries);
    }
    var a, b := KeyValueListOf(es).values, SpecKeyValueListOf(es).values;
    assert forall i | 0 <= i < |es| :: a[i] == KeyValueIn(es[i]) && b[i] == SpecKeyValueIn(es[i]);
    assert a == b <==> forall i | 0 <= i < |es| :: a[i] == b[i];
  }

  lemma {:induction false} SameKeys(es: seq<Entry>)
    ensures KeyValueOf(es).key == SpecKeyValueOf(es).key
    ensures KeyValueOf(es).value.Some? <==> SpecKeyValueOf(es).value.Some?
  {
    if es != [] {
      SameKeys(es[..|es| - 1]);
      FromEntry(es[|es| - 1]);
    }
  }

  lemma {:induction false} FromEntry(e: Entry)
    ensures SpecKeyValueFrom(e).key == KeyValueFrom(e).key
    ensures e.field == 2 && e.value.Message?
        ==> SpecKeyValueFrom(e) == NO_ENTRY.(value := Some(SpecAnyOf(e.value.entries)))
    ensures e.field == 2 && e.value.Message? ==> KeyValueFrom(e) == NO_ENTRY.(value := Some(AnyOf(e.value.entries)))
    ensures !(e.field == 2 && e.value.Message?)
        ==> SpecKeyValueFrom(e) == KeyValueFrom(e) && KeyValueFrom(e).value == None
  {
  }

  lemma {:induction false} KeyValueSame(es: seq<Entry>)
    requires AllWellFormed(KeyValueKind, es)
    ensures KeyValueOf(es) == SpecKeyValueOf(es) <==> KeyValueConforms(es)
    decreases es, 2
  {
    hide AnyOf, SpecAnyOf, AnyConforms, SpecMergeAny, NothingToAppend, KeyValueFrom, SpecKeyValueFrom;
    if es != [] {
      var n := |es| - 1;
      SameKeys(es);
      FromEntry(es[n]);
      assert WellFormed(KeyValueKind, es[n]);
      assert KeyValueOf(es) == MergeKeyValue(KeyValueOf(es[..n]), KeyValueFrom(es[n]));
      assert SpecKeyValueOf(es) == SpecMergeKeyValue(SpecKeyValueOf(es[..n]), SpecKeyValueFrom(es[n]));
      if es[n].field == 2 {
        assert es decreases to es[n];
        var last := es[n].value.entries;
        AnySame(last);
        ValueSame(SpecKeyValueOf(es[..n]).value, last);
      } else {
        KeyValueSame(es[..n]);
        SameKeys(es[..n]);
      }
    }
  }

  /**
   The decoder's value has as many items as the last field alone, so merging with an earlier value can have
   added none.
   */
  lemma {:induction false} MergedIsLast(v: AnyValue, es: seq<Entry>)
    requires AllWellFormed(AnyKind, es) && es != [] && AnyOf(es) == SpecMergeAny(v, SpecAnyOf(es))
    ensures SpecMergeAny(v, SpecAnyOf(es)) == SpecAnyOf(es)
  {
    hide WellFormed, AnyFrom, SpecAnyFrom, AnyOf, ArrayOf, SpecArrayOf, KeyValueListOf, SpecKeyValueListOf;
    var n := |es| - 1;
    var e, before, after := es[n], SpecAnyOf(es[..n]), SpecAnyOf(es);
    assert WellFormed(AnyKind, e);
    FromSetsOne(e);
    MergedHasOneMember(v, es);
    LastOfOne(es);
    assert after == SpecMergeAny(before, SpecAnyFrom(e));
    if e.field == 5 {
      ArrayLengths(e.value.entries);
      assert |ItemsOf(after)| == |ItemsOf(before)| + |SpecArrayOf(e.value.entries).values|;
      assert |ItemsOf(AnyOf(es))| == |ItemsOf(v)| + |ItemsOf(after)|;
      AppendsNothing(ItemsOf(v), ItemsOf(after));
    } else if e.field == 6 {
      KeyValueListLengths(e.value.entries);
      assert |PairsOf(after)| == |PairsOf(before)| + |SpecKeyValueListOf(e.value.entries).values|;
      assert |PairsOf(AnyOf(es))| == |PairsOf(v)| + |PairsOf(after)|;
      AppendsNoPairs(PairsOf(v), PairsOf(after));
    } else {
      ScalarIsSet(before, SpecAnyFrom(e), e.field);
      ScalarIsSet(v, after, e.field);
    }
  }

  lemma {:induction false} MergedHasOneMember(v: AnyValue, es: seq<Entry>)
    requires AllWellFormed(AnyKind, es) && es != [] && AnyOf(es) == SpecMergeAny(v, SpecAnyOf(es))
    ensures AllOf(es, es[|es| - 1].field)
  {
    hide WellFormed, AnyOf, SpecAnyOf, SetsMember, SpecMergeAny;
    forall i | 0 <= i < |es|
      ensures es[i].field == es[|es| - 1].field
    {
      DecodedMembers(es, es[i].field);
      SpecMembers(es, es[i].field);
      MergeMembers(v, SpecAnyOf(es), es[i].field);
    }
  }

  /** The last value against the merge of the specification. */
  lemma {:induction false} ValueSame(before: Option<AnyValue>, last: seq<Entry>)
    requires AllWellFormed(AnyKind, last)
    requires AnyConforms(last) <==> AnyOf(last) == SpecAnyOf(last)
    ensures AnyOf(last) == (if before.Some? then SpecMergeAny(before.value, SpecAnyOf(last)) else SpecAnyOf(last))
       <==> AnyConforms(last) && LeavesNothing(before, last)
  {
    hide AnyConforms, AnyOf, SpecAnyOf, SetsMember, WellFormed;
    if before.Some? {
      ReplacesAsMerged(before.value, SpecAnyOf(last));
      if last == [] {
        NothingGiven();
      } else {
        SpecMembers(last, last[|last| - 1].field);
        if AnyOf(last) == SpecMergeAny(before.value, SpecAnyOf(last)) {
          MergedIsLast(before.value, last);
        }
      }
    }
  }

  // ---------- spans and requests ----------

  predicate SpanConforms(es: seq<Entry>) {
    forall i | 0 <= i < |es| :: es[i].field == 9 ==> PairConforms(es[i])
  }

  predicate ScopeConforms(es: seq<Entry>) {
    forall i | 0 <= i < |es| :: es[i].value.Message? ==> SpanConforms(es[i].value.entries)
  }

  predicate ResourceConforms(es: seq<Entry>) {
    forall i | 0 <= i < |es| :: es[i].value.Message? ==> ScopeConforms(es[i].value.entries)
  }

  /** Every attribute of every span conforms. */
  predicate RequestConforms(es: seq<Entry>) {
    forall i | 0 <= i < |es| :: es[i].value.Message? ==> ResourceConforms(es[i].value.entries)
  }

  lemma {:induction false} SpanFromSame(e: Entry)
    requires WellFormed(SpanKind, e)
    ensures SpanFrom(e) == SpecSpanFrom(e) <==> (e.field == 9 ==> PairConforms(e))
    ensures SpanFrom(e).name == SpecSpanFrom(e).name && SpanFrom(e).parentSpanId == SpecSpanFrom(e).parentSpanId
    ensures |SpanFrom(e).attributes.GetOr([])| == |SpecSpanFrom(e).attributes.GetOr([])|
    ensures SpanFrom(e).attributes.Some? <==> SpecSpanFrom(e).attributes.Some?
  {
    hide KeyValueOf, SpecKeyValueOf, KeyValueConforms;
    if e.field == 9 {
      KeyValueSame(e.value.entries);
      var a, b := KeyValueOf(e.value.entries), SpecKeyValueOf(e.value.entries);
      assert [a] == [b] <==> a == b by {
        assert [a][0] == a && [b][0] == b;
      }
    }
  }

  /** Two spans that differ in attributes at most, of which they have equally many. */
  predicate Alike(a: Span, b: Span) {
    && a.name == b.name && a.parentSpanId == b.parentSpanId
    && |a.attributes.GetOr([])| == |b.attributes.GetOr([])| && (a.attributes.Some? <==> b.attributes.Some?)
  }

  lemma {:induction false} MergeAlike(a: Span, b: Span, c: Span, d: Span)
    requires Alike(a, b) && Alike(c, d)
    ensures Alike(MergeSpan(a, c), MergeSpan(b, d))
    ensures MergeSpan(a, c).attributes == MergeSpan(b, d).attributes
        <==> a.attributes == b.attributes && c.attributes == d.attributes
  {
    var x, y, z, w := a.attributes.GetOr([]), b.attributes.GetOr([]), c.attributes.GetOr([]), d.attributes.GetOr([]);
    if x + z == y + w {
      assert x == (x + z)[..|x|] == y && z == (x + z)[|x|..] == w;
    }
  }

  lemma {:induction false} SpanSame(es: seq<Entry>)
    requires AllWellFormed(SpanKind, es)
    ensures SpanOf(es) == SpecSpanOf(es) <==> SpanConforms(es)
    ensures Alike(SpanOf(es), SpecSpanOf(es))
  {
    hide SpanFrom, SpecSpanFrom, MergeSpan, PairConforms, WellFormed;
    if es != [] {
      var n := |es| - 1;
      assert WellFormed(SpanKind, es[n]);
      SpanSame(es[..n]);
      SpanFromSame(es[n]);
      MergeAlike(SpanOf(es[..n]), SpecSpanOf(es[..n]), SpanFrom(es[n]), SpecSpanFrom(es[n]));
      assert SpanOf(es) == MergeSpan(SpanOf(es[..n]), SpanFrom(es[n]));
      assert SpecSpanOf(es) == MergeSpan(SpecSpanOf(es[..n]), SpecSpanFrom(es[n]));
      assert SpanConforms(es) <==> SpanConforms(es[..n]) && (es[n].field == 9 ==> PairConforms(es[n]));
    }
  }

  lemma {:induction false} ScopeSame(e: Entry)
    requires e.value.Message? && AllWellFormed(ScopeKind, e.value.entries)
    ensures ScopeOf(e.value.entries) == SpecScopeIn(e) <==> ScopeConforms(e.value.entries)
  {
    hide SpanOf, SpecSpanOf, SpanConforms;
    var es := e.value.entries;
    forall i | 0 <= i < |es|
      ensures es[i].value.Message?
          && (SpanOf(es[i].value.entries) == SpecSpanIn(es[i]) <==> SpanConforms(es[i].value.entries))
    {
      assert WellFormed(ScopeKind, es[i]);
      SpanSame(es[i].value.entries);
    }
    var a, b := ScopeOf(es).spans, SpecScopeIn(e).spans;
    assert forall i | 0 <= i < |es| :: a[i] == SpanOf(es[i].value.entries) && b[i] == SpecSpanIn(es[i]);
    assert a == b <==> forall i | 0 <= i < |es| :: a[i] == b[i];
  }

  lemma {:induction false} ResourceSame(e: Entry)
    requires e.value.Message? && AllWellFormed(ResourceKind, e.value.entries)
    ensures ResourceOf(e.value.entries) == SpecResourceIn(e) <==> ResourceConforms(e.value.entries)
  {
    hide ScopeOf, SpecScopeIn, ScopeConforms;
    var es := e.value.entries;
    forall i | 0 <= i < |es|
      ensures es[i].value.Message?
          && (ScopeOf(es[i].value.entries) == SpecScopeIn(es[i]) <==> ScopeConforms(es[i].value.entries))
    {
      assert WellFormed(ResourceKind, es[i]);
      ScopeSame(es[i]);
    }
    var a, b := ResourceOf(es).scopeSpans, SpecResourceIn(e).scopeSpans;
    assert forall i | 0 <= i < |es| :: a[i] == ScopeOf(es[i].value.entries) && b[i] == SpecScopeIn(es[i]);
    assert a == b <==> forall i | 0 <= i < |es| :: a[i] == b[i];
  }

  lemma {:induction false} RequestSame(es: seq<Entry>)
    requires AllWellFormed(RequestKind, es)
    ensures RequestOf(es) == SpecRequestOf(es) <==> RequestConforms(es)
  {
    hide ResourceOf, SpecResourceIn, ResourceConforms;
    forall i | 0 <= i < |es|
      ensures es[i].value.Message?
              && (ResourceOf(es[i].value.entries) == SpecResourceIn(es[i]) <==> ResourceConforms(es[i].value.entries))
    {
      assert WellFormed(RequestKind, es[i]);
      ResourceSame(es[i]);
    }
    var a, b := RequestOf(es), SpecRequestOf(es);
    assert forall i | 0 <= i < |es| :: a[i] == ResourceOf(es[i].value.entries) && b[i] == SpecResourceIn(es[i]);
    assert a == b <==> forall i | 0 <= i < |es| :: a[i] == b[i];
  }

  /** Exactly which request bodies are decoded as the specification says. */
  lemma {:induction false} RequestMeetsSpecIff(body: Bytes)
    requires Parse(RequestKind, body).Ok?
    ensures DecodeRequestTree(body) == Ok(SpecRequestOf(Parse(RequestKind, body).value.entries))
       <==> RequestConforms(Parse(RequestKind, body).value.entries)
  {
    hide Parse, RequestOf, SpecRequestOf, RequestConforms, AllWellFormed;
    ParsedIsWellFormed(RequestKind, body);
    RequestSame(Parse(RequestKind, body).value.entries);
  }

  /** The same for a value and for an entry by themselves. */
  lemma {:induction false} ValueMeetsSpecIff(message: Bytes)
    requires Parse(AnyKind, message).Ok?
    ensures DecodeAnyTree(message) == Ok(SpecAnyOf(Parse(AnyKind, message).value.entries))
       <==> AnyConforms(Parse(AnyKind, message).value.entries)
  {
    hide Parse, AnyOf, SpecAnyOf, AnyConforms, AllWellFormed;
    ParsedIsWellFormed(AnyKind, message);
    AnySame(Parse(AnyKind, message).value.entries);
  }

  lemma {:induction false} EntryMeetsSpecIff(message: Bytes)
    requires Parse(KeyValueKind, message).Ok?
    ensures DecodeKeyValueTree(message) == Ok(SpecKeyValueOf(Parse(KeyValueKind, message).value.entries))
       <==> KeyValueConforms(Parse(KeyValueKind, message).value.entries)
  {
    hide Parse, KeyValueOf, SpecKeyValueOf, KeyValueConforms, AllWellFormed;
    ParsedIsWellFormed(KeyValueKind, message);
    KeyValueSame(Parse(KeyValueKind, message).value.entries);
  }

  // ---------- what an encoder writes conforms ----------

  /** A value as the schema allows it: one member of the oneof at most, at every depth. */
  predicate OneofOk(v: AnyValue) {
    && (forall m, n | 1 <= m <= 7 && 1 <= n <= 7 && SetsMember(v, m) && SetsMember(v, n) :: m == n)
    && (v.arrayValue.Some? ==> forall x | x in v.arrayValue.value.values :: OneofOk(x))
    && (v.kvlistValue.Some? ==> forall x | x in v.kvlistValue.value.values :: PairOk(x))
  }

  predicate PairOk(kv: KeyValue) {
    kv.value.Some? ==> OneofOk(kv.value.value)
  }

  predicate RequestAllowed(request: seq<ResourceSpans>) {
    forall r, sc, sp, kv | r in request && sc in r.scopeSpans && sp in sc.spans
        && kv in sp.attributes.GetOr([]) :: PairOk(kv)
  }

  lemma {:induction false} FieldIsMember(v: AnyValue, n: nat)
    requires 1 <= n <= 7
    ensures AnyField(v, n).Some? <==> SetsMember(v, n)
    ensures AnyField(v, n).Some? && AnyField(v, n).value.Message? ==> n == 5 || n == 6
    ensures v.arrayValue.Some? ==> AnyField(v, 5) == Some(Message(ArrayEntries(v.arrayValue.value.values)))
    ensures v.kvlistValue.Some? ==> AnyField(v, 6) == Some(Message(KeyValueListEntries(v.kvlistValue.value.values)))
  {
  }

  lemma {:induction false} OneofFields(v: AnyValue, n: nat)
    requires OneofOk(v) && n <= 7
    ensures |AnyFields(v, n)| <= 1
    ensures forall e | e in AnyFields(v, n) ::
      1 <= e.field <= n && SetsMember(v, e.field) && AnyField(v, e.field) == Some(e.value)
  {
    hide AnyField, SetsMember;
    if n > 0 {
      var before := AnyFields(v, n - 1);
      OneofFields(v, n - 1);
      assert before != [] ==> before[0] in before && before[0].field < n;
      FieldIsMember(v, n);
    }
  }

  lemma {:induction false} EncodedAnyConforms(v: AnyValue)
    requires OneofOk(v)
    ensures AnyConforms(AnyEntries(v))
    decreases v, 2
  {
    hide AnyField, AnyFields, ArrayEntries, KeyValueListEntries, OneofOk, ItemsConform, PairsConform;
    var es := AnyEntries(v);
    OneofFields(v, 7);
    if es != [] {
      assert es[0] in es;
      FieldIsMember(v, es[0].field);
      if es[0].field == 5 {
        EncodedItemsConform(v);
      } else if es[0].field == 6 {
        EncodedPairsConform(v);
      }
    }
  }

  lemma {:induction false} EncodedItemsConform(v: AnyValue)
    requires OneofOk(v) && v.arrayValue.Some?
    ensures ItemsConform(ArrayEntries(v.arrayValue.value.values))
    decreases v, 1
  {
    hide AnyEntries, AnyConforms, SetsMember;
    var vs := v.arrayValue.value.values;
    forall i | 0 <= i < |vs|
      ensures ItemConforms(ArrayEntries(vs)[i])
    {
      assert vs[i] in vs && OneofOk(vs[i]);
      EncodedAnyConforms(vs[i]);
    }
  }

  lemma {:induction false} EncodedPairsConform(v: AnyValue)
    requires OneofOk(v) && v.kvlistValue.Some?
    ensures PairsConform(KeyValueListEntries(v.kvlistValue.value.values))
    decreases v, 1
  {
    hide KeyValueEntries, KeyValueConforms, SetsMember;
    var kvs := v.kvlistValue.value.values;
    forall i | 0 <= i < |kvs|
      ensures PairConforms(KeyValueListEntries(kvs)[i])
    {
      assert kvs[i] in kvs && PairOk(kvs[i]);
      EncodedPairConforms(kvs[i]);
    }
  }

  lemma {:induction false} EncodedPairConforms(kv: KeyValue)
    requires PairOk(kv)
    ensures KeyValueConforms(KeyValueEntries(kv))
    decreases kv, 2
  {
    hide AnyEntries, AnyConforms, OneofOk, NothingToAppend;
    var keys := match kv.key case Some(b) => [Entry(1, Raw(b))] case None => [];
    assert keys == [] || keys[..0] == [];
    assert KeyValueConforms(keys) && SpecKeyValueOf(keys).value == None by {
      NoValueYet(keys);
    }
    if kv.value.Some? {
      EncodedAnyConforms(kv.value.value);
      var last := Entry(2, Message(AnyEntries(kv.value.value)));
      assert KeyValueEntries(kv) == keys + [last] && (keys + [last])[..|keys|] == keys;
    } else {
      assert KeyValueEntries(kv) == keys;
    }
  }

  lemma {:induction false} NoValueYet(keys: seq<Entry>)
    requires |keys| <= 1 && (keys != [] ==> keys[0].field == 1 && keys[0].value.Raw?)
    ensures KeyValueConforms(keys) && SpecKeyValueOf(keys).value == None
  {
    if keys != [] {
      assert keys[..0] == [] && KeyValueConforms([]) && SpecKeyValueOf([]) == NO_ENTRY;
    }
  }

  lemma {:induction false} EncodedSpanConforms(span: Span)
    requires forall kv | kv in span.attributes.GetOr([]) :: PairOk(kv)
    ensures SpanConforms(SpanEntries(span))
  {
    hide KeyValueEntries, KeyValueConforms, PairOk;
    var kvs := span.attributes.GetOr([]);
    forall i | 0 <= i < |kvs|
      ensures PairConforms(AttributeEntries(kvs)[i])
    {
      assert kvs[i] in kvs;
      EncodedPairConforms(kvs[i]);
    }
    var heads := ParentEntries(span) + NameEntries(span);
    assert SpanEntries(span) == heads + AttributeEntries(kvs);
    assert forall i | 0 <= i < |heads| :: heads[i].field != 9;
  }

  lemma {:induction false} EncodedScopeConforms(scope: ScopeSpans)
    requires forall sp, kv | sp in scope.spans && kv in sp.attributes.GetOr([]) :: PairOk(kv)
    ensures ScopeConforms(ScopeEntries(scope))
  {
    hide SpanEntries, SpanConforms, PairOk;
    forall i | 0 <= i < |scope.spans|
      ensures SpanConforms(SpanEntries(scope.spans[i]))
    {
      assert scope.spans[i] in scope.spans;
      EncodedSpanConforms(scope.spans[i]);
    }
  }

  lemma {:induction false} EncodedResourceConforms(resource: ResourceSpans)
    requires forall sc, sp, kv | sc in resource.scopeSpans && sp in sc.spans
        && kv in sp.attributes.GetOr([]) :: PairOk(kv)
    ensures ResourceConforms(ResourceEntries(resource))
  {
    hide ScopeEntries, ScopeConforms, PairOk;
    forall i | 0 <= i < |resource.scopeSpans|
      ensures ScopeConforms(ScopeEntries(resource.scopeSpans[i]))
    {
      assert resource.scopeSpans[i] in resource.scopeSpans;
      EncodedScopeConforms(resource.scopeSpans[i]);
    }
  }

  /** On everything an encoder of the schema writes, the decoders do as the specification says. */
  lemma {:induction false} EncodedRequestMeetsSpec(request: seq<ResourceSpans>)
    requires RequestOk(request) && RequestAllowed(request) && |EncodeRequest(request)| < SAFE_INTEGER
    ensures DecodeRequestTree(EncodeRequest(request)) == Ok(SpecRequestOf(RequestEntries(request))) == Ok(request)
  {
    hide ResourceEntries, ResourceConforms, PairOk, Parse, RequestOf, SpecRequestOf, SpanOk, AllWellFormed;
    forall i | 0 <= i < |request|
      ensures ResourceConforms(ResourceEntries(request[i]))
    {
      assert request[i] in request;
      EncodedResourceConforms(request[i]);
    }
    assert RequestConforms(RequestEntries(request));
    RequestRead(request);
    ParseInvertsEncode(RequestKind, RequestEntries(request));
    RequestMeetsSpecIff(EncodeRequest(request));
  }
}
