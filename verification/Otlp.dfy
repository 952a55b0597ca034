/**
 The OTLP trace messages: the objects the decoders build from the fields they read, the
 laws of concatenation ("Last One Wins"), and the spans the receiver captures.
 */
module Otlp {
  import opened Wrappers
  import opened ProtoWire
  import Text

  // Strings and doubles are kept as the bytes that carry them.

  datatype AnyValue = AnyValue(
    stringValue: Option<Bytes>,
    boolValue: Option<bool>,
    intValue: Option<nat>,
    doubleValue: Option<Bytes>,
    arrayValue: Option<ArrayValue>,
    kvlistValue: Option<KeyValueList>,
    bytesValue: Option<Bytes>)

  datatype ArrayValue = ArrayValue(values: seq<AnyValue>)

  datatype KeyValueList = KeyValueList(values: seq<KeyValue>)

  datatype KeyValue = KeyValue(key: Option<Bytes>, value: Option<AnyValue>)

  datatype Span = Span(name: Option<Bytes>, parentSpanId: Option<Bytes>, attributes: Option<seq<KeyValue>>)

  datatype ScopeSpans = ScopeSpans(spans: seq<Span>)

  datatype ResourceSpans = ResourceSpans(scopeSpans: seq<ScopeSpans>)

  datatype CapturedSpan = CapturedSpan(name: string, parent: bool, attributes: map<string, Option<AnyValue>>)

  const NO_VALUE := AnyValue(None, None, None, None, None, None, None)
  const NO_ENTRY := KeyValue(None, None)
  const NO_SPAN := Span(None, None, None)

  // ---------- combining what two parts of a message say ----------

  function Later<T>(a: Option<T>, b: Option<T>): Option<T> {
    if b.Some? then b else a
  }

  /** Every singular field of `b` overrides that of `a`; nested messages are replaced, not merged. */
  function MergeAny(a: AnyValue, b: AnyValue): AnyValue {
    AnyValue(
      Later(a.stringValue, b.stringValue),
      Later(a.boolValue, b.boolValue),
      Later(a.intValue, b.intValue),
      Later(a.doubleValue, b.doubleValue),
      Later(a.arrayValue, b.arrayValue),
      Later(a.kvlistValue, b.kvlistValue),
      Later(a.bytesValue, b.bytesValue))
  }

  function MergeKeyValue(a: KeyValue, b: KeyValue): KeyValue {
    KeyValue(Later(a.key, b.key), Later(a.value, b.value))
  }

  function Appended<T>(a: Option<seq<T>>, b: Option<seq<T>>): Option<seq<T>> {
    if a.Some? && b.Some? then Some(a.value + b.value) else Later(a, b)
  }

  function MergeSpan(a: Span, b: Span): Span {
    Span(Later(a.name, b.name), Later(a.parentSpanId, b.parentSpanId), Appended(a.attributes, b.attributes))
  }

  // ---------- what the fields read mean ----------

  function AnyOf(es: seq<Entry>): AnyValue {
    if es == [] then NO_VALUE else SetAny(AnyOf(es[..|es| - 1]), es[|es| - 1])
  }

  function SetAny(v: AnyValue, e: Entry): AnyValue
    decreases e, 1
  {
    MergeAny(v, AnyFrom(e))
  }

  /** The value that field `e` alone stands for. */
  function AnyFrom(e: Entry): AnyValue
    decreases e, 0
  {
    match (e.field, e.value)
    case (1, Raw(b)) => NO_VALUE.(stringValue := Some(b))
    case (2, Num(n)) => NO_VALUE.(boolValue := Some(n != 0))
    case (3, Num(n)) => NO_VALUE.(intValue := Some(n))
    case (4, Fixed(b)) => NO_VALUE.(doubleValue := Some(b))
    case (5, Message(es)) => NO_VALUE.(arrayValue := Some(ArrayOf(es)))
    case (6, Message(es)) => NO_VALUE.(kvlistValue := Some(KeyValueListOf(es)))
    case (7, Raw(b)) => NO_VALUE.(bytesValue := Some(b))
    case _ => NO_VALUE
  }

  function ArrayOf(es: seq<Entry>): ArrayValue {
    ArrayValue(seq(|es|, i requires 0 <= i < |es| => AnyIn(es[i])))
  }

  function AnyIn(e: Entry): AnyValue
    decreases e
  {
    if e.value.Message? then AnyOf(e.value.entries) else NO_VALUE
  }

  function KeyValueOf(es: seq<Entry>): KeyValue {
    if es == [] then NO_ENTRY else SetKeyValue(KeyValueOf(es[..|es| - 1]), es[|es| - 1])
  }

  function SetKeyValue(kv: KeyValue, e: Entry): KeyValue
    decreases e, 1
  {
    MergeKeyValue(kv, KeyValueFrom(e))
  }

  function KeyValueFrom(e: Entry): KeyValue
    decreases e, 0
  {
    match (e.field, e.value)
    case (1, Raw(b)) => NO_ENTRY.(key := Some(b))
    case (2, Message(es)) => NO_ENTRY.(value := Some(AnyOf(es)))
    case _ => NO_ENTRY
  }

  function KeyValueListOf(es: seq<Entry>): KeyValueList {
    KeyValueList(seq(|es|, i requires 0 <= i < |es| => KeyValueIn(es[i])))
  }

  function KeyValueIn(e: Entry): KeyValue
    decreases e
  {
    if e.value.Message? then KeyValueOf(e.value.entries) else NO_ENTRY
  }

  function SpanOf(es: seq<Entry>): Span {
    if es == [] then NO_SPAN else SetSpan(SpanOf(es[..|es| - 1]), es[|es| - 1])
  }

  function SetSpan(span: Span, e: Entry): Span {
    MergeSpan(span, SpanFrom(e))
  }

  function SpanFrom(e: Entry): Span {
    match (e.field, e.value)
    case (4, Raw(b)) => NO_SPAN.(parentSpanId := Some(b))
    case (5, Raw(b)) => NO_SPAN.(name := Some(b))
    case (9, Message(es)) => NO_SPAN.(attributes := Some([KeyValueOf(es)]))
    case _ => NO_SPAN
  }

  function ScopeOf(es: seq<Entry>): ScopeSpans {
    ScopeSpans(seq(|es|, i requires 0 <= i < |es| => if es[i].value.Message?
        then SpanOf(es[i].value.entries) else NO_SPAN))
  }

  function ResourceOf(es: seq<Entry>): ResourceSpans {
    ResourceSpans(seq(|es|, i requires 0 <= i < |es| =>
      if es[i].value.Message? then ScopeOf(es[i].value.entries) else ScopeSpans([])))
  }

  function RequestOf(es: seq<Entry>): seq<ResourceSpans> {
    seq(|es|, i requires 0 <= i < |es| =>
      if es[i].value.Message? then ResourceOf(es[i].value.entries) else ResourceSpans([]))
  }

  function DecodeAnyTree(message: Bytes): Result<AnyValue, Error> {
    match Parse(AnyKind, message)
    case Ok(p) => Ok(AnyOf(p.entries))
    case Err(e) => Err(e)
  }

  function DecodeArrayTree(message: Bytes): Result<ArrayValue, Error> {
    match Parse(ArrayKind, message)
    case Ok(p) => Ok(ArrayOf(p.entries))
    case Err(e) => Err(e)
  }

  function DecodeKeyValueTree(message: Bytes): Result<KeyValue, Error> {
    match Parse(KeyValueKind, message)
    case Ok(p) => Ok(KeyValueOf(p.entries))
    case Err(e) => Err(e)
  }

  function DecodeKeyValueListTree(message: Bytes): Result<KeyValueList, Error> {
    match Parse(KeyValueListKind, message)
    case Ok(p) => Ok(KeyValueListOf(p.entries))
    case Err(e) => Err(e)
  }

  function DecodeSpanTree(message: Bytes): Result<Span, Error> {
    match Parse(SpanKind, message)
    case Ok(p) => Ok(SpanOf(p.entries))
    case Err(e) => Err(e)
  }

  function DecodeScopeTree(message: Bytes): Result<ScopeSpans, Error> {
    match Parse(ScopeKind, message)
    case Ok(p) => Ok(ScopeOf(p.entries))
    case Err(e) => Err(e)
  }

  function DecodeResourceTree(message: Bytes): Result<ResourceSpans, Error> {
    match Parse(ResourceKind, message)
    case Ok(p) => Ok(ResourceOf(p.entries))
    case Err(e) => Err(e)
  }

  function DecodeRequestTree(body: Bytes): Result<seq<ResourceSpans>, Error> {
    match Parse(RequestKind, body)
    case Ok(p) => Ok(RequestOf(p.entries))
    case Err(e) => Err(e)
  }

  // ---------- concatenation ----------

  lemma {:induction false} AnyAppend(es: seq<Entry>, e: Entry)
    ensures AnyOf(es + [e]) == SetAny(AnyOf(es), e)
  {
    assert (es + [e])[..|es|] == es;
  }

  lemma {:induction false} KeyValueAppend(es: seq<Entry>, e: Entry)
    ensures KeyValueOf(es + [e]) == SetKeyValue(KeyValueOf(es), e)
  {
    assert (es + [e])[..|es|] == es;
  }

  lemma {:induction false} SpanAppend(es: seq<Entry>, e: Entry)
    ensures SpanOf(es + [e]) == SetSpan(SpanOf(es), e)
  {
    assert (es + [e])[..|es|] == es;
  }

  lemma {:induction false} MergeAnyAssociates(a: AnyValue, b: AnyValue, c: AnyValue)
    ensures MergeAny(MergeAny(a, b), c) == MergeAny(a, MergeAny(b, c)) && MergeAny(a, NO_VALUE) == a
  {
  }

  lemma {:induction false} AnyConcat(a: seq<Entry>, b: seq<Entry>)
    ensures AnyOf(a + b) == MergeAny(AnyOf(a), AnyOf(b))
  {
    hide MergeAny, AnyFrom;
    if b == [] {
      assert a + b == a;
      MergeAnyAssociates(AnyOf(a), NO_VALUE, NO_VALUE);
    } else {
      var n := |b| - 1;
      AnyConcat(a, b[..n]);
      assert a + b == (a + b[..n]) + [b[n]];
      AnyAppend(a + b[..n], b[n]);
      MergeAnyAssociates(AnyOf(a), AnyOf(b[..n]), AnyFrom(b[n]));
    }
  }

  lemma {:induction false} MergeKeyValueAssociates(a: KeyValue, b: KeyValue, c: KeyValue)
    ensures MergeKeyValue(MergeKeyValue(a, b), c) == MergeKeyValue(a, MergeKeyValue(b, c))
    ensures MergeKeyValue(a, NO_ENTRY) == a
  {
  }

  lemma {:induction false} KeyValueConcat(a: seq<Entry>, b: seq<Entry>)
    ensures KeyValueOf(a + b) == MergeKeyValue(KeyValueOf(a), KeyValueOf(b))
  {
    hide MergeKeyValue, KeyValueFrom;
    if b == [] {
      assert a + b == a;
      MergeKeyValueAssociates(KeyValueOf(a), NO_ENTRY, NO_ENTRY);
    } else {
      var n := |b| - 1;
      KeyValueConcat(a, b[..n]);
      assert a + b == (a + b[..n]) + [b[n]];
      KeyValueAppend(a + b[..n], b[n]);
      MergeKeyValueAssociates(KeyValueOf(a), KeyValueOf(b[..n]), KeyValueFrom(b[n]));
    }
  }

  lemma {:induction false} MergeSpanAssociates(a: Span, b: Span, c: Span)
    ensures MergeSpan(MergeSpan(a, b), c) == MergeSpan(a, MergeSpan(b, c))
  {
    var x, y, z := a.attributes.GetOr([]), b.attributes.GetOr([]), c.attributes.GetOr([]);
    assert x + (y + z) == (x + y) + z;
  }

  lemma {:induction false} MergeNothing(span: Span)
    ensures MergeSpan(span, NO_SPAN) == span
  {
  }

  lemma {:induction false} SpanConcat(a: seq<Entry>, b: seq<Entry>)
    ensures SpanOf(a + b) == MergeSpan(SpanOf(a), SpanOf(b))
  {
    hide MergeSpan, SpanFrom;
    if b == [] {
      assert a + b == a;
      MergeNothing(SpanOf(a));
    } else {
      hide SpanOf;
      var n := |b| - 1;
      SpanConcat(a, b[..n]);
      assert a + b == (a + b[..n]) + [b[n]] && b == b[..n] + [b[n]];
      SpanAppend(a + b[..n], b[n]);
      SpanAppend(b[..n], b[n]);
      MergeSpanAssociates(SpanOf(a), SpanOf(b[..n]), SpanFrom(b[n]));
    }
  }

  /** Last one wins, on bytes: a value message followed by another of the same kind. */
  lemma {:induction false} AnyValueOverrides(s: Bytes, t: Bytes)
    requires Parse(AnyKind, s).Ok? && Parse(AnyKind, s).value.overshoot == 0
    ensures DecodeAnyTree(s + t) ==
      match DecodeAnyTree(t)
      case Ok(later) => Ok(MergeAny(DecodeAnyTree(s).value, later))
      case Err(e) => Err(e)
  {
    ParseConcat(AnyKind, s, t);
    assert t[0..] == t;
    if Parse(AnyKind, t).Ok? {
      AnyConcat(Parse(AnyKind, s).value.entries, Parse(AnyKind, t).value.entries);
    }
  }

  lemma {:induction false} KeyValueOverrides(s: Bytes, t: Bytes)
    requires Parse(KeyValueKind, s).Ok? && Parse(KeyValueKind, s).value.overshoot == 0
    ensures DecodeKeyValueTree(s + t) ==
      match DecodeKeyValueTree(t)
      case Ok(later) => Ok(MergeKeyValue(DecodeKeyValueTree(s).value, later))
      case Err(e) => Err(e)
  {
    ParseConcat(KeyValueKind, s, t);
    assert t[0..] == t;
    if Parse(KeyValueKind, t).Ok? {
      KeyValueConcat(Parse(KeyValueKind, s).value.entries, Parse(KeyValueKind, t).value.entries);
    }
  }

  /** Span names and parents are overridden, attribute lists appended. */
  lemma {:induction false} SpanOverrides(s: Bytes, t: Bytes)
    requires Parse(SpanKind, s).Ok? && Parse(SpanKind, s).value.overshoot == 0
    ensures DecodeSpanTree(s + t) ==
      match DecodeSpanTree(t)
      case Ok(later) => Ok(MergeSpan(DecodeSpanTree(s).value, later))
      case Err(e) => Err(e)
  {
    ParseConcat(SpanKind, s, t);
    assert t[0..] == t;
    if Parse(SpanKind, t).Ok? {
      SpanConcat(Parse(SpanKind, s).value.entries, Parse(SpanKind, t).value.entries);
    }
  }

  /** Two requests in one body are the two lists of resource spans, one after the other. */
  lemma {:induction false} RequestsAppend(s: Bytes, t: Bytes)
    requires Parse(RequestKind, s).Ok? && Parse(RequestKind, s).value.overshoot == 0
    ensures DecodeRequestTree(s + t) ==
      match DecodeRequestTree(t)
      case Ok(later) => Ok(DecodeRequestTree(s).value + later)
      case Err(e) => Err(e)
  {
    ParseConcat(RequestKind, s, t);
    assert t[0..] == t;
    if Parse(RequestKind, t).Ok? {
      var a, b := Parse(RequestKind, s).value.entries, Parse(RequestKind, t).value.entries;
      assert RequestOf(a + b) == RequestOf(a) + RequestOf(b);
    }
  }

  // ---------- the captured spans ----------

  /** The span attributes by trimmed key; blank keys are dropped and later entries win. */
  function AttributesOf(kvs: seq<KeyValue>, text: Bytes -> string): map<string, Option<AnyValue>> {
    if kvs == [] then map[]
    else
      var kv := kvs[|kvs| - 1];
      var before := AttributesOf(kvs[..|kvs| - 1], text);
      var key := AttributeKey(kv, text);
      if key == "" then before else before[key := kv.value]
  }

  function AttributeKey(kv: KeyValue, text: Bytes -> string): string {
    if kv.key.Some? then Text.Trim(text(kv.key.value)) else ""
  }

  /** An attribute is present exactly if some entry has its key. */
  lemma {:induction false} AttributePresent(kvs: seq<KeyValue>, text: Bytes -> string, key: string)
    ensures key in AttributesOf(kvs, text) <==> key != "" && exists kv :: kv in kvs && AttributeKey(kv, text) == key
  {
    hide AttributeKey;
    if kvs != [] {
      var n := |kvs| - 1;
      AttributePresent(kvs[..n], text, key);
      assert kvs == kvs[..n] + [kvs[n]];
      assert kvs[n] in kvs;
    }
  }

  /** An attribute has the value of the last entry with its key. */
  lemma {:induction false} LastAttributeWins(kvs: seq<KeyValue>, text: Bytes -> string, key: string, i: nat)
    requires i < |kvs| && key != "" && AttributeKey(kvs[i], text) == key
    requires forall j | i < j < |kvs| :: AttributeKey(kvs[j], text) != key
    ensures key in AttributesOf(kvs, text) && AttributesOf(kvs, text)[key] == kvs[i].value
  {
    hide AttributeKey;
    if i < |kvs| - 1 {
      LastAttributeWins(kvs[..|kvs| - 1], text, key, i);
    }
  }

  predicate Named(span: Span, text: Bytes -> string) {
    span.name.Some? && !Text.Blank(text(span.name.value))
  }

  function CaptureOf(span: Span, text: Bytes -> string): CapturedSpan
    requires Named(span, text)
  {
    CapturedSpan(Text.Trim(text(span.name.value)),
      span.parentSpanId.Some? && |span.parentSpanId.value| > 0,
      AttributesOf(span.attributes.GetOr([]), text))
  }

  /** The spans whose name is not blank, in order. */
  function Captured(spans: seq<Span>, text: Bytes -> string): seq<CapturedSpan> {
    if spans == [] then []
    else
      var last := spans[|spans| - 1];
      Captured(spans[..|spans| - 1], text) + (if Named(last, text) then [CaptureOf(last, text)] else [])
  }

  function SpansOfScopes(scopes: seq<ScopeSpans>): seq<Span> {
    if scopes == [] then [] else SpansOfScopes(scopes[..|scopes| - 1]) + scopes[|scopes| - 1].spans
  }

  function SpansOfRequest(request: seq<ResourceSpans>): seq<Span> {
    if request == [] then []
    else SpansOfRequest(request[..|request| - 1]) + SpansOfScopes(request[|request| - 1].scopeSpans)
  }

  function DecodeSpec(body: Bytes, text: Bytes -> string): Result<seq<CapturedSpan>, Error> {
    match DecodeRequestTree(body)
    case Ok(request) => Ok(Captured(SpansOfRequest(request), text))
    case Err(e) => Err(e)
  }
}
