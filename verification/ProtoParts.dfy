/**
 Messages as other encoders write them: fields in any order, and at every depth fields the decoders
 do not know, such as the identifiers, times and status of a span.
 */
module ProtoParts {
  import opened Wrappers
  import opened ProtoWire
  import opened Otlp
  import opened OtlpLastOneWins

  /** A field the decoders know, one that holds a message, and one they do not know. */
  datatype Part =
    | Plain(field: nat, value: Value)
    | Sub(field: nat, parts: seq<Part>)
    | Foreign(field: nat, extra: Extra)

  predicate Legal(k: Kind, p: Part)
    decreases p
  {
    p.field < FIELD_LIMIT &&
    match p
    case Plain(field, value) => !value.Message? && WellFormed(k, Entry(field, value))
    case Sub(field, parts) => ShapeOf(k, Tag(field, 2)).Nested? && AllLegal(ShapeOf(k, Tag(field, 2)).kind, parts)
    case Foreign(field, extra) => extra.Legal() && ShapeOf(k, Tag(field, extra.Wire())) == Unknown
  }

  predicate AllLegal(k: Kind, ps: seq<Part>)
    decreases ps
  {
    forall i | 0 <= i < |ps| :: Legal(k, ps[i])
  }

  function Print(p: Part): Bytes
    decreases p
  {
    match p
    case Plain(field, value) => EncodeEntry(Entry(field, value))
    case Sub(field, parts) => EncodeTag(Tag(field, 2)) + EncodeDelimited(PrintAll(parts))
    case Foreign(field, extra) => EncodeExtra(field, extra)
  }

  function PrintAll(ps: seq<Part>): Bytes
    decreases ps
  {
    if ps == [] then [] else Print(ps[0]) + PrintAll(ps[1..])
  }

  /** The fields without the foreign ones, at every depth. */
  function Core(ps: seq<Part>): seq<Entry>
    decreases ps
  {
    if ps == [] then [] else CoreOf(ps[0]) + Core(ps[1..])
  }

  function CoreOf(p: Part): seq<Entry>
    decreases p
  {
    match p
    case Plain(field, value) => [Entry(field, value)]
    case Sub(field, parts) => [Entry(field, Message(Core(parts)))]
    case Foreign(_, _) => []
  }

  lemma {:induction false} PrintedPart(k: Kind, p: Part)
    requires Legal(k, p) && |Print(p)| < SAFE_INTEGER
    ensures Parse(k, Print(p)) == Ok(Parsed(CoreOf(p), 0))
    decreases p, 0
  {
    hide Parse;
    match p
    case Plain(field, value) => ParseInvertsEntry(k, Entry(field, value));
    case Sub(field, parts) =>
      var tag := Tag(field, 2);
      PrintedParts(ShapeOf(k, tag).kind, parts);
      SubPayload(ShapeOf(k, tag), tag, parts);
      ParseSingle(k, tag, EncodeDelimited(PrintAll(parts)), CoreOf(p));
    case Foreign(field, extra) => ExtraIsSkipped(k, field, extra);
  }

  lemma {:induction false} SubPayload(shape: Shape, tag: Tag, parts: seq<Part>)
    requires shape.Nested? && |PrintAll(parts)| < SAFE_INTEGER
    requires Parse(shape.kind, PrintAll(parts)) == Ok(Parsed(Core(parts), 0))
    ensures var body := EncodeDelimited(PrintAll(parts));
            Payload(shape, tag, body) == Ok(Read([Entry(tag.field, Message(Core(parts)))], |body|))
  {
    var body := EncodeDelimited(PrintAll(parts));
    assert body == body + [];
    DelimitedRoundTrip(PrintAll(parts), []);
  }

  /** Legal parts are read as their known fields, in the order given, whatever foreign ones stand between them. */
  lemma {:induction false} PrintedParts(k: Kind, ps: seq<Part>)
    requires AllLegal(k, ps) && |PrintAll(ps)| < SAFE_INTEGER
    ensures Parse(k, PrintAll(ps)) == Ok(Parsed(Core(ps), 0))
    decreases ps, 1
  {
    if ps != [] {
      PrintedPart(k, ps[0]);
      PrintedParts(k, ps[1..]);
      ParseConcat(k, Print(ps[0]), PrintAll(ps[1..]));
      assert PrintAll(ps[1..])[0..] == PrintAll(ps[1..]);
    }
  }

  /** The request that any exporter sends is what its known fields say. */
  lemma {:induction false} PrintedRequest(ps: seq<Part>, text: Bytes -> string)
    requires AllLegal(RequestKind, ps) && |PrintAll(ps)| < SAFE_INTEGER
    ensures DecodeRequestTree(PrintAll(ps)) == Ok(RequestOf(Core(ps)))
    ensures DecodeSpec(PrintAll(ps), text) == Ok(Captured(SpansOfRequest(RequestOf(Core(ps))), text))
  {
    hide Parse;
    PrintedParts(RequestKind, ps);
  }

  // ---------- each value given once ----------

  /** One member at most, at every depth. */
  predicate ValueOnce(es: seq<Entry>)
    decreases es
  {
    |es| <= 1 && forall i | 0 <= i < |es| :: MemberOnce(es[i])
  }

  predicate MemberOnce(e: Entry)
    decreases e
  {
    e.value.Message? ==>
      forall i | 0 <= i < |e.value.entries| ::
        if e.field == 5 then ItemOnce(e.value.entries[i]) else PairOnce(e.value.entries[i])
  }

  predicate ItemOnce(e: Entry)
    decreases e
  {
    e.value.Message? ==> ValueOnce(e.value.entries)
  }

  predicate PairOnce(e: Entry)
    decreases e
  {
    e.value.Message? ==> EntryOnce(e.value.entries)
  }

  /** One value at most. */
  predicate EntryOnce(es: seq<Entry>)
    decreases es
  {
    && (forall i, j | 0 <= i < j < |es| :: !(es[i].value.Message? && es[j].value.Message?))
    && forall i | 0 <= i < |es| :: ItemOnce(es[i])
  }

  /** In every attribute of every span, each value is given once. */
  predicate RequestOnce(es: seq<Entry>) {
    forall i | 0 <= i < |es| && es[i].value.Message? :: ResourceOnce(es[i].value.entries)
  }

  predicate ResourceOnce(es: seq<Entry>) {
    forall i | 0 <= i < |es| && es[i].value.Message? :: ScopeOnce(es[i].value.entries)
  }

  predicate ScopeOnce(es: seq<Entry>) {
    forall i | 0 <= i < |es| && es[i].value.Message? :: SpanOnce(es[i].value.entries)
  }

  predicate SpanOnce(es: seq<Entry>) {
    forall i | 0 <= i < |es| && es[i].field == 9 :: PairOnce(es[i])
  }

  lemma {:induction false} ValueOnceConforms(es: seq<Entry>)
    requires ValueOnce(es)
    ensures AnyConforms(es)
    decreases es, 1
  {
    hide ItemOnce, PairOnce, ItemConforms, PairConforms;
    if es != [] {
      assert es decreases to es[0];
      assert MemberOnce(es[0]);
      if es[0].value.Message? {
        var inner := es[0].value.entries;
        if es[0].field == 5 {
          forall i | 0 <= i < |inner|
            ensures ItemConforms(inner[i])
          {
            assert inner decreases to inner[i];
            ItemOnceConforms(inner[i]);
          }
          assert ItemsConform(inner);
        } else {
          forall i | 0 <= i < |inner|
            ensures PairConforms(inner[i])
          {
            assert inner decreases to inner[i];
            PairOnceConforms(inner[i]);
          }
          assert PairsConform(inner);
        }
      }
      assert LastConforms(es[0]);
    }
  }

  lemma {:induction false} ItemOnceConforms(e: Entry)
    requires ItemOnce(e)
    ensures ItemConforms(e)
    decreases e, 0
  {
    if e.value.Message? {
      ValueOnceConforms(e.value.entries);
    }
  }

  lemma {:induction false} PairOnceConforms(e: Entry)
    requires PairOnce(e)
    ensures PairConforms(e)
    decreases e, 0
  {
    if e.value.Message? {
      EntryOnceConforms(e.value.entries);
    }
  }

  lemma {:induction false} EntryOnceConforms(es: seq<Entry>)
    requires EntryOnce(es)
    ensures KeyValueConforms(es)
    decreases es, 1
  {
    hide AnyConforms, ItemOnce, SpecAnyOf;
    if es != [] {
      var n := |es| - 1;
      if es[n].field == 2 && es[n].value.Message? {
        assert es decreases to es[n];
        assert ItemOnce(es[n]);
        ItemOnceConforms(es[n]);
        NoValueBefore(es[..n]);
      } else {
        EntryOnceConforms(es[..n]);
      }
    }
  }

  lemma {:induction false} NoValueBefore(es: seq<Entry>)
    requires forall i | 0 <= i < |es| :: !es[i].value.Message?
    ensures SpecKeyValueOf(es).value == None
  {
    if es != [] {
      NoValueBefore(es[..|es| - 1]);
      assert SpecKeyValueFrom(es[|es| - 1]).value == None;
    }
  }

  lemma {:induction false} SpanOnceConforms(es: seq<Entry>)
    requires SpanOnce(es)
    ensures SpanConforms(es)
  {
    hide PairOnce, PairConforms;
    forall i | 0 <= i < |es| && es[i].field == 9 {
      PairOnceConforms(es[i]);
    }
  }

  lemma {:induction false} ScopeOnceConforms(es: seq<Entry>)
    requires ScopeOnce(es)
    ensures ScopeConforms(es)
  {
    hide SpanOnce, SpanConforms;
    forall i | 0 <= i < |es| && es[i].value.Message? {
      SpanOnceConforms(es[i].value.entries);
    }
  }

  lemma {:induction false} ResourceOnceConforms(es: seq<Entry>)
    requires ResourceOnce(es)
    ensures ResourceConforms(es)
  {
    hide ScopeOnce, ScopeConforms;
    forall i | 0 <= i < |es| && es[i].value.Message? {
      ScopeOnceConforms(es[i].value.entries);
    }
  }

  /**
   A request in which every value sets one member at most and every entry gives its value at most
   once, in any field order and with any foreign fields, is decoded as the specification says.
   */
  lemma {:induction false} PrintedRequestMeetsSpec(ps: seq<Part>)
    requires AllLegal(RequestKind, ps) && |PrintAll(ps)| < SAFE_INTEGER && RequestOnce(Core(ps))
    ensures DecodeRequestTree(PrintAll(ps)) == Ok(SpecRequestOf(Core(ps)))
  {
    hide Parse, RequestOf, SpecRequestOf, ResourceOnce, ResourceConforms, AllLegal;
    PrintedParts(RequestKind, ps);
    var es := Core(ps);
    forall i | 0 <= i < |es| && es[i].value.Message? {
      ResourceOnceConforms(es[i].value.entries);
    }
    RequestMeetsSpecIff(PrintAll(ps));
  }
}
