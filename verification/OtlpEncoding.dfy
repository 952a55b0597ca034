/** The encoder side of the trace schema, and the proof that the decoder inverts it. */
module OtlpEncoding {
  import opened Wrappers
  import opened ProtoWire
  import opened Otlp

  // ---------- the encoder side ----------

  /** The value of field `n`, in the schema's numbering. */
  function AnyField(v: AnyValue, n: nat): Option<Value>
    decreases v, 0
  {
    match n
    case 1 => (match v.stringValue case Some(b) => Some(Raw(b)) case None => None)
    case 2 => (match v.boolValue case Some(b) => Some(Num(if b then 1 else 0)) case None => None)
    case 3 => (match v.intValue case Some(i) => Some(Num(i)) case None => None)
    case 4 => (match v.doubleValue case Some(b) => Some(Fixed(b)) case None => None)
    case 5 => (match v.arrayValue case Some(a) => Some(Message(ArrayEntries(a.values))) case None => None)
    case 6 => (match v.kvlistValue case Some(l) => Some(Message(KeyValueListEntries(l.values))) case None => None)
    case 7 => (match v.bytesValue case Some(b) => Some(Raw(b)) case None => None)
    case _ => None
  }

  function Field(n: nat, value: Option<Value>): seq<Entry> {
    match value
    case Some(x) => [Entry(n, x)]
    case None => []
  }

  /** Fields 1 to `n` in order. */
  function AnyFields(v: AnyValue, n: nat): seq<Entry>
    decreases v, 1, n
  {
    if n == 0 then [] else AnyFields(v, n - 1) + Field(n, AnyField(v, n))
  }

  function AnyEntries(v: AnyValue): seq<Entry>
    decreases v, 2
  {
    AnyFields(v, 7)
  }

  function ArrayEntries(vs: seq<AnyValue>): seq<Entry>
    decreases vs, 3
  {
    seq(|vs|, i requires 0 <= i < |vs| => Entry(1, Message(AnyEntries(vs[i]))))
  }

  function KeyValueEntries(kv: KeyValue): seq<Entry>
    decreases kv, 2
  {
    (match kv.key case Some(b) => [Entry(1, Raw(b))] case None => []) +
    (match kv.value case Some(v) => [Entry(2, Message(AnyEntries(v)))] case None => [])
  }

  function KeyValueListEntries(kvs: seq<KeyValue>): seq<Entry>
    decreases kvs, 3
  {
    seq(|kvs|, i requires 0 <= i < |kvs| => Entry(1, Message(KeyValueEntries(kvs[i]))))
  }

  function SpanEntries(span: Span): seq<Entry> {
    ParentEntries(span) + NameEntries(span) + AttributeEntries(span.attributes.GetOr([]))
  }

  function ParentEntries(span: Span): seq<Entry> {
    match span.parentSpanId
    case Some(b) => [Entry(4, Raw(b))]
    case None => []
  }

  function NameEntries(span: Span): seq<Entry> {
    match span.name
    case Some(b) => [Entry(5, Raw(b))]
    case None => []
  }

  function AttributeEntries(kvs: seq<KeyValue>): seq<Entry> {
    seq(|kvs|, i requires 0 <= i < |kvs| => Entry(9, Message(KeyValueEntries(kvs[i]))))
  }

  function ScopeEntries(scope: ScopeSpans): seq<Entry> {
    seq(|scope.spans|, i requires 0 <= i < |scope.spans| => Entry(2, Message(SpanEntries(scope.spans[i]))))
  }

  function ResourceEntries(resource: ResourceSpans): seq<Entry> {
    seq(|resource.scopeSpans|, i requires 0 <= i < |resource.scopeSpans| =>
      Entry(2, Message(ScopeEntries(resource.scopeSpans[i]))))
  }

  function RequestEntries(request: seq<ResourceSpans>): seq<Entry> {
    seq(|request|, i requires 0 <= i < |request| => Entry(1, Message(ResourceEntries(request[i]))))
  }

  function EncodeRequest(request: seq<ResourceSpans>): Bytes {
    EncodeAll(RequestEntries(request))
  }

  // ---------- which messages can be carried ----------

  predicate AnyOk(v: AnyValue) {
    && (v.intValue.Some? ==> v.intValue.value < SAFE_INTEGER)
    && (v.doubleValue.Some? ==> |v.doubleValue.value| == 8)
    && (v.arrayValue.Some? ==> forall x | x in v.arrayValue.value.values :: AnyOk(x))
    && (v.kvlistValue.Some? ==> forall x | x in v.kvlistValue.value.values :: KeyValueOk(x))
  }

  predicate KeyValueOk(kv: KeyValue) {
    kv.value.Some? ==> AnyOk(kv.value.value)
  }

  /** A repeated field has no empty-but-present form on the wire. */
  predicate SpanOk(span: Span) {
    && span.attributes != Some([])
    && forall kv | kv in span.attributes.GetOr([]) :: KeyValueOk(kv)
  }

  predicate RequestOk(request: seq<ResourceSpans>) {
    forall r, sc, sp | r in request && sc in r.scopeSpans && sp in sc.spans :: SpanOk(sp)
  }

  // ---------- fields read back are the fields written ----------

  /** `v` with only fields 1 to `n`. */
  function Keep(v: AnyValue, n: nat): AnyValue {
    AnyValue(
      if n < 1 then None else v.stringValue,
      if n < 2 then None else v.boolValue,
      if n < 3 then None else v.intValue,
      if n < 4 then None else v.doubleValue,
      if n < 5 then None else v.arrayValue,
      if n < 6 then None else v.kvlistValue,
      if n < 7 then None else v.bytesValue)
  }

  lemma {:induction false} AnyFieldRead(v: AnyValue, n: nat)
    requires 1 <= n <= 7 && AnyOk(v)
    ensures AnyField(v, n).None? ==> Keep(v, n) == Keep(v, n - 1)
    ensures AnyField(v, n).Some? ==> var e := Entry(n, AnyField(v, n).value);
                                     SetAny(Keep(v, n - 1), e) == Keep(v, n) && WellFormed(AnyKind, e)
    decreases v, 1, 0
  {
    hide ArrayOf, KeyValueListOf, ArrayEntries, KeyValueListEntries;
    match n {
      case 5 => if v.arrayValue.Some? { ArrayRead(v.arrayValue.value); }
      case 6 => if v.kvlistValue.Some? { KeyValueListRead(v.kvlistValue.value); }
      case _ =>
    }
  }

  lemma {:induction false} AnyFieldsRead(v: AnyValue, n: nat)
    requires n <= 7 && AnyOk(v)
    ensures AnyOf(AnyFields(v, n)) == Keep(v, n) && AllWellFormed(AnyKind, AnyFields(v, n))
    decreases v, 1, n
  {
    hide AnyField, AnyOk, Keep, SetAny, WellFormed;
    if n == 0 {
      NothingKept(v);
    } else {
      hide AnyOf;
      AnyFieldsRead(v, n - 1);
      AnyFieldRead(v, n);
      var before := AnyFields(v, n - 1);
      match AnyField(v, n) {
        case Some(x) => AnyAppend(before, Entry(n, x));
        case None => assert before + [] == before;
      }
    }
  }

  lemma {:induction false} NothingKept(v: AnyValue)
    ensures Keep(v, 0) == NO_VALUE
  {
  }

  lemma {:induction false} AnyRead(v: AnyValue)
    requires AnyOk(v)
    ensures AnyOf(AnyEntries(v)) == v && AllWellFormed(AnyKind, AnyEntries(v))
    decreases v, 2
  {
    AnyFieldsRead(v, 7);
  }

  lemma {:induction false} ArrayRead(a: ArrayValue)
    requires forall x | x in a.values :: AnyOk(x)
    ensures ArrayOf(ArrayEntries(a.values)) == a && AllWellFormed(ArrayKind, ArrayEntries(a.values))
    decreases a, 3
  {
    forall i | 0 <= i < |a.values|
      ensures AnyIn(ArrayEntries(a.values)[i]) == a.values[i] && WellFormed(ArrayKind, ArrayEntries(a.values)[i])
    {
      AnyRead(a.values[i]);
    }
    assert ArrayOf(ArrayEntries(a.values)).values == a.values;
  }

  lemma {:induction false} KeyValueRead(kv: KeyValue)
    requires KeyValueOk(kv)
    ensures KeyValueOf(KeyValueEntries(kv)) == kv && AllWellFormed(KeyValueKind, KeyValueEntries(kv))
    decreases kv, 2
  {
    if kv.value.Some? {
      AnyRead(kv.value.value);
    }
    var keys := match kv.key case Some(b) => [Entry(1, Raw(b))] case None => [];
    if keys != [] {
      KeyValueAppend([], keys[0]);
      assert [] + keys == keys;
    }
    assert KeyValueOf(keys) == KeyValue(kv.key, None);
    if kv.value.Some? {
      KeyValueAppend(keys, Entry(2, Message(AnyEntries(kv.value.value))));
    } else {
      assert KeyValueEntries(kv) == keys;
    }
  }

  lemma {:induction false} KeyValueListRead(l: KeyValueList)
    requires forall x | x in l.values :: KeyValueOk(x)
    ensures KeyValueListOf(KeyValueListEntries(l.values)) == l
    ensures AllWellFormed(KeyValueListKind, KeyValueListEntries(l.values))
    decreases l, 3
  {
    forall i | 0 <= i < |l.values|
      ensures KeyValueIn(KeyValueListEntries(l.values)[i]) == l.values[i]
      ensures WellFormed(KeyValueListKind, KeyValueListEntries(l.values)[i])
    {
      KeyValueRead(l.values[i]);
    }
    assert KeyValueListOf(KeyValueListEntries(l.values)).values == l.values;
  }

  lemma {:induction false} AttributeRead(kv: KeyValue, span: Span)
    requires KeyValueOk(kv)
    ensures var e := Entry(9, Message(KeyValueEntries(kv)));
            && SetSpan(span, e) == span.(attributes := Some(span.attributes.GetOr([]) + [kv]))
            && WellFormed(SpanKind, e)
  {
    KeyValueRead(kv);
    assert [] + [kv] == [kv];
  }

  lemma {:induction false} AttributesRead(kvs: seq<KeyValue>)
    requires forall kv | kv in kvs :: KeyValueOk(kv)
    ensures SpanOf(AttributeEntries(kvs)) == Span(None, None, if kvs == [] then None else Some(kvs))
    ensures AllWellFormed(SpanKind, AttributeEntries(kvs))
  {
    if kvs != [] {
      hide KeyValueOk, KeyValueOf, KeyValueEntries, AttributeEntries, WellFormed, SetSpan, SpanOf;
      var n := |kvs| - 1;
      var before, e := AttributeEntries(kvs[..n]), Entry(9, Message(KeyValueEntries(kvs[n])));
      AttributesRead(kvs[..n]);
      AttributeRead(kvs[n], SpanOf(before));
      SpanAppend(before, e);
      AllWellFormedConcat(SpanKind, before, [e]);
      LastAttribute(kvs);
      assert kvs == kvs[..n] + [kvs[n]];
    }
  }

  lemma {:induction false} LastAttribute(kvs: seq<KeyValue>)
    requires kvs != []
    ensures var n := |kvs| - 1;
            AttributeEntries(kvs) == AttributeEntries(kvs[..n]) + [Entry(9, Message(KeyValueEntries(kvs[n])))]
  {
    hide KeyValueEntries;
  }

  lemma {:induction false} SpanRead(span: Span)
    requires SpanOk(span)
    ensures SpanOf(SpanEntries(span)) == span && AllWellFormed(SpanKind, SpanEntries(span))
  {
    hide SpanOf, SpanFrom, WellFormed, AllWellFormed, ParentEntries, NameEntries, AttributeEntries, KeyValueOk;
    var kvs := span.attributes.GetOr([]);
    var parents, names, attributes := ParentEntries(span), NameEntries(span), AttributeEntries(kvs);
    AttributesRead(kvs);
    ParentRead(span);
    NameRead(span);
    SpanConcat(parents, names);
    SpanConcat(parents + names, attributes);
    AllWellFormedConcat(SpanKind, parents, names);
    AllWellFormedConcat(SpanKind, parents + names, attributes);
  }

  lemma {:induction false} ParentRead(span: Span)
    ensures SpanOf(ParentEntries(span)) == Span(None, span.parentSpanId, None)
    ensures AllWellFormed(SpanKind, ParentEntries(span))
  {
    OneField(ParentEntries(span));
  }

  lemma {:induction false} NameRead(span: Span)
    ensures SpanOf(NameEntries(span)) == Span(span.name, None, None) && AllWellFormed(SpanKind, NameEntries(span))
  {
    OneField(NameEntries(span));
  }

  lemma {:induction false} AllWellFormedConcat(k: Kind, a: seq<Entry>, b: seq<Entry>)
    requires AllWellFormed(k, a) && AllWellFormed(k, b)
    ensures AllWellFormed(k, a + b)
  {
  }

  lemma {:induction false} OneField(es: seq<Entry>)
    requires |es| <= 1
    ensures SpanOf(es) == if es == [] then NO_SPAN else SetSpan(NO_SPAN, es[0])
  {
    if es != [] {
      SpanAppend([], es[0]);
      assert [] + es == es;
    }
  }

  lemma {:induction false} ScopeRead(scope: ScopeSpans)
    requires forall sp | sp in scope.spans :: SpanOk(sp)
    ensures ScopeOf(ScopeEntries(scope)) == scope && AllWellFormed(ScopeKind, ScopeEntries(scope))
  {
    forall i | 0 <= i < |scope.spans|
      ensures SpanOf(SpanEntries(scope.spans[i])) == scope.spans[i]
      ensures AllWellFormed(SpanKind, SpanEntries(scope.spans[i]))
    {
      SpanRead(scope.spans[i]);
    }
    assert ScopeOf(ScopeEntries(scope)).spans == scope.spans;
  }

  lemma {:induction false} ResourceRead(resource: ResourceSpans)
    requires forall sc, sp | sc in resource.scopeSpans && sp in sc.spans :: SpanOk(sp)
    ensures ResourceOf(ResourceEntries(resource)) == resource && AllWellFormed(ResourceKind, ResourceEntries(resource))
  {
    forall i | 0 <= i < |resource.scopeSpans|
      ensures ScopeOf(ScopeEntries(resource.scopeSpans[i])) == resource.scopeSpans[i]
      ensures AllWellFormed(ScopeKind, ScopeEntries(resource.scopeSpans[i]))
    {
      ScopeRead(resource.scopeSpans[i]);
    }
    assert ResourceOf(ResourceEntries(resource)).scopeSpans == resource.scopeSpans;
  }

  lemma {:induction false} RequestRead(request: seq<ResourceSpans>)
    requires RequestOk(request)
    ensures RequestOf(RequestEntries(request)) == request && AllWellFormed(RequestKind, RequestEntries(request))
  {
    forall i | 0 <= i < |request|
      ensures ResourceOf(ResourceEntries(request[i])) == request[i]
      ensures AllWellFormed(ResourceKind, ResourceEntries(request[i]))
    {
      ResourceRead(request[i]);
    }
  }

  /** Decoding the encoding of any trace request gives the request back, at every nesting depth. */
  lemma {:induction false} TraceRequestRoundTrip(request: seq<ResourceSpans>, text: Bytes -> string)
    requires RequestOk(request) && |EncodeRequest(request)| < SAFE_INTEGER
    ensures DecodeRequestTree(EncodeRequest(request)) == Ok(request)
    ensures DecodeSpec(EncodeRequest(request), text) == Ok(Captured(SpansOfRequest(request), text))
  {
    RequestRead(request);
    ParseInvertsEncode(RequestKind, RequestEntries(request));
  }
}
