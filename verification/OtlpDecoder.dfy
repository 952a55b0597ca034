/** The decoders of the trace receiver: one loop per message, each proved against the schema of `Otlp`. */
module OtlpDecoder {
  import opened Wrappers
  import opened ProtoWire
  import ProtoReader
  import opened Otlp
  import Text

  /** `done` holds the fields read before the cursor, and the rest of the loop adds those after it. */
  ghost predicate Progress(k: Kind, message: Bytes, offset: nat, done: seq<Entry>) {
    offset <= |message| + 8 && Parse(k, message) == Resume(done, From(k, message, offset))
  }

  lemma {:induction false} Started(k: Kind, message: Bytes)
    ensures Progress(k, message, 0, [])
  {
    assert message[0..] == message;
    ResumeNothing(Parse(k, message));
  }

  lemma {:induction false} NothingRead()
    ensures AnyOf([]) == NO_VALUE && KeyValueOf([]) == NO_ENTRY && SpanOf([]) == NO_SPAN
    ensures ArrayOf([]).values == [] && KeyValueListOf([]).values == []
  {
  }

  lemma {:induction false} Finished(k: Kind, message: Bytes, offset: nat, done: seq<Entry>)
    requires |message| <= offset && Progress(k, message, offset, done)
    ensures Parse(k, message) == Ok(Parsed(done, offset - |message|))
  {
    if offset == |message| {
      assert message[offset..] == [];
    }
    assert From(k, message, offset) == Ok(Parsed([], offset - |message|));
    assert done + [] == done;
  }

  /** What the payload read at `next` makes of the message. */
  ghost predicate AfterTag(k: Kind, message: Bytes, next: nat, payload: Result<Read<seq<Entry>>, Error>,
                           done: seq<Entry>) {
    match payload
    case Err(e) => Parse(k, message) == Err(e)
    case Ok(p) => Progress(k, message, next + p.used, done + p.value)
  }

  /** One iteration: a failing read fails the whole message, a successful one moves the cursor forward. */
  lemma {:induction false} Advance(k: Kind, message: Bytes, offset: nat, done: seq<Entry>)
    requires offset < |message| && Progress(k, message, offset, done)
    ensures var t := TagOf(ProtoReader.Remaining(message, offset));
            && (t.Err? ==> Parse(k, message) == Err(t.error))
            && (t.Ok? ==> var next := offset + t.value.used;
                          AfterTag(k, message, next, Payload(ShapeOf(k, t.value.value), t.value.value,
                              ProtoReader.Remaining(message, next)), done))
  {
    hide Parse, From, Resume, Step, Payload, VarintOf, TagOf;
    var rest := message[offset..];
    StepFromParts(k, rest);
    if Step(k, rest).Ok? {
      AdvanceStep(k, message, offset, done);
    } else {
      StepFails(k, message, offset, done);
    }
    if TagOf(rest).Ok? {
      assert rest[TagOf(rest).value.used..] == message[offset + TagOf(rest).value.used..];
    }
  }

  lemma {:induction false} StepFromParts(k: Kind, s: Bytes)
    requires s != []
    ensures match TagOf(s)
            case Err(e) => Step(k, s) == Err(e)
            case Ok(t) => Step(k, s) == Shift(t.used, Payload(ShapeOf(k, t.value), t.value, s[t.used..]))
  {
  }

  function Shift(used: nat, payload: Result<Read<seq<Entry>>, Error>): Result<Read<seq<Entry>>, Error> {
    match payload
    case Ok(p) => Ok(Read(p.value, used + p.used))
    case Err(e) => Err(e)
  }

  lemma {:induction false} StepFails(k: Kind, message: Bytes, offset: nat, done: seq<Entry>)
    requires offset < |message| && Progress(k, message, offset, done)
    requires Step(k, message[offset..]).Err?
    ensures Parse(k, message) == Err(Step(k, message[offset..]).error)
  {
    assert From(k, message, offset) == Parse(k, message[offset..]);
  }

  lemma {:induction false} AdvanceStep(k: Kind, message: Bytes, offset: nat, done: seq<Entry>)
    requires offset < |message| && Progress(k, message, offset, done)
    requires Step(k, message[offset..]).Ok?
    ensures var step := Step(k, message[offset..]).value;
            Progress(k, message, offset + step.used, done + step.value)
  {
    hide Step;
    var rest := message[offset..];
    var step := Step(k, rest).value;
    assert rest != [] && Parse(k, rest) == Resume(step.value, From(k, rest, step.used));
    if step.used <= |rest| {
      assert rest[step.used..] == message[offset + step.used..];
    }
    assert From(k, rest, step.used) == From(k, message, offset + step.used);
    ResumeResume(done, step.value, From(k, rest, step.used));
  }

  lemma {:induction false} AnyExtend(done: seq<Entry>, es: seq<Entry>)
    requires |es| <= 1
    ensures AnyOf(done + es) == if es == [] then AnyOf(done) else MergeAny(AnyOf(done), AnyFrom(es[0]))
  {
    if es == [] {
      assert done + es == done;
    } else {
      assert es == [es[0]];
      AnyAppend(done, es[0]);
    }
  }

  lemma {:induction false} KeyValueExtend(done: seq<Entry>, es: seq<Entry>)
    requires |es| <= 1
    ensures KeyValueOf(done + es) ==
      if es == [] then KeyValueOf(done) else MergeKeyValue(KeyValueOf(done), KeyValueFrom(es[0]))
  {
    if es == [] {
      assert done + es == done;
    } else {
      assert es == [es[0]];
      KeyValueAppend(done, es[0]);
    }
  }

  lemma {:induction false} SpanExtend(done: seq<Entry>, es: seq<Entry>)
    requires |es| <= 1
    ensures SpanOf(done + es) == if es == [] then SpanOf(done) else MergeSpan(SpanOf(done), SpanFrom(es[0]))
  {
    if es == [] {
      assert done + es == done;
    } else {
      assert es == [es[0]];
      SpanAppend(done, es[0]);
    }
  }

  lemma {:induction false} SpanSet(span: Span, b: Bytes, es: seq<Entry>)
    ensures MergeSpan(span, SpanFrom(Entry(4, Raw(b)))) == span.(parentSpanId := Some(b))
    ensures MergeSpan(span, SpanFrom(Entry(5, Raw(b)))) == span.(name := Some(b))
    ensures MergeSpan(span, SpanFrom(Entry(9, Message(es)))) ==
            span.(attributes := Some(span.attributes.GetOr([]) + [KeyValueOf(es)]))
  {
    assert [] + [KeyValueOf(es)] == [KeyValueOf(es)];
  }

  lemma {:induction false} ArrayExtend(done: seq<Entry>, es: seq<Entry>)
    requires |es| <= 1
    ensures ArrayOf(done + es).values ==
      if es == [] then ArrayOf(done).values
      else ArrayOf(done).values + [if es[0].value.Message? then AnyOf(es[0].value.entries) else NO_VALUE]
  {
  }

  lemma {:induction false} KeyValueListExtend(done: seq<Entry>, es: seq<Entry>)
    requires |es| <= 1
    ensures KeyValueListOf(done + es).values ==
      if es == [] then KeyValueListOf(done).values
      else KeyValueListOf(done).values + [if es[0].value.Message? then KeyValueOf(es[0].value.entries) else NO_ENTRY]
  {
  }

  lemma {:induction false} ScopeExtend(done: seq<Entry>, es: seq<Entry>)
    requires |es| <= 1
    ensures ScopeOf(done + es).spans ==
      if es == [] then ScopeOf(done).spans
      else ScopeOf(done).spans + [if es[0].value.Message? then SpanOf(es[0].value.entries) else NO_SPAN]
  {
  }

  lemma {:induction false} ResourceExtend(done: seq<Entry>, es: seq<Entry>)
    requires |es| <= 1
    ensures ResourceOf(done + es).scopeSpans ==
      if es == [] then ResourceOf(done).scopeSpans
      else ResourceOf(done).scopeSpans + [if es[0].value.Message? then ScopeOf(es[0].value.entries) else ScopeSpans([])]
  {
  }

  lemma {:induction false} RequestExtend(done: seq<Entry>, es: seq<Entry>)
    requires |es| <= 1
    ensures RequestOf(done + es) ==
      if es == [] then RequestOf(done)
      else RequestOf(done) + [if es[0].value.Message? then ResourceOf(es[0].value.entries) else ResourceSpans([])]
  {
  }

  method DecodeAnyValue(message: Bytes) returns (r: Result<AnyValue, Error>)
    ensures r == DecodeAnyTree(message)
    decreases |message|, 1
  {
    hide Parse, From, Resume, Step, Payload, TagOf, Progress, ProtoReader.Remaining, AnyOf;
    var reader := new ProtoReader.ProtoReader(message);
    var value := NO_VALUE;
    ghost var done: seq<Entry> := [];
    Started(AnyKind, message);
    NothingRead();
    while !reader.Done()
      invariant reader.buffer == message && Progress(AnyKind, message, reader.offset, done)
      invariant value == AnyOf(done)
      decreases |message| - reader.offset
    {
      Advance(AnyKind, message, reader.offset, done);
      var tag :- reader.ReadTag();
      ghost var payload := Payload(AnyShape(tag), tag, ProtoReader.Remaining(message, reader.offset));
      value :- ReadAnyField(reader, tag, value);
      AnyExtend(done, payload.value.value);
      done := done + payload.value.value;
    }
    Finished(AnyKind, message, reader.offset, done);
    return Ok(value);
  }

  /** The field switch in the loop of DecodeAnyValue. */
  method ReadAnyField(reader: ProtoReader.ProtoReader, tag: Tag, before: AnyValue) returns (r: Result<AnyValue, Error>)
    modifies reader
    ensures match Payload(AnyShape(tag), tag, ProtoReader.Remaining(reader.buffer, old(reader.offset)))
            case Err(e) => r == Err(e)
            case Ok(p) =>
              && reader.offset == old(reader.offset) + p.used
              && r == Ok(if p.value == [] then before else MergeAny(before, AnyFrom(p.value[0])))
    decreases |reader.buffer|, 0
  {
    hide Parse, SkipOf, BytesOf, Fixed64Of, VarintOf, ArrayOf, KeyValueListOf, ProtoReader.Remaining;
    var value := before;
    if tag.field == 1 && tag.wire == 2 {
      var b :- reader.ReadBytes();
      value := value.(stringValue := Some(b));
    } else if tag.field == 2 && tag.wire == 0 {
      var n :- reader.Varint();
      value := value.(boolValue := Some(n != 0));
    } else if tag.field == 3 && tag.wire == 0 {
      var n :- reader.Varint();
      value := value.(intValue := Some(n));
    } else if tag.field == 4 && tag.wire == 1 {
      var b :- reader.Fixed64();
      value := value.(doubleValue := Some(b));
    } else if tag.field == 5 && tag.wire == 2 {
      var b :- reader.ReadBytes();
      var a :- DecodeArrayValue(b);
      value := value.(arrayValue := Some(a));
    } else if tag.field == 6 && tag.wire == 2 {
      var b :- reader.ReadBytes();
      var l :- DecodeKeyValueList(b);
      value := value.(kvlistValue := Some(l));
    } else if tag.field == 7 && tag.wire == 2 {
      var b :- reader.ReadBytes();
      value := value.(bytesValue := Some(b));
    } else {
      var _ :- reader.Skip(tag.wire);
    }
    return Ok(value);
  }

  method DecodeArrayValue(message: Bytes) returns (r: Result<ArrayValue, Error>)
    ensures r == DecodeArrayTree(message)
    decreases |message|
  {
    hide Parse, From, Resume, Step, SkipOf, BytesOf, Fixed64Of, VarintOf, TagOf, Groups, ArrayOf, KeyValueListOf,
      Progress, ProtoReader.Remaining;
    var reader := new ProtoReader.ProtoReader(message);
    var values: seq<AnyValue> := [];
    ghost var done: seq<Entry> := [];
    Started(ArrayKind, message);
    NothingRead();
    while !reader.Done()
      invariant reader.buffer == message && Progress(ArrayKind, message, reader.offset, done)
      invariant values == ArrayOf(done).values
      decreases |message| - reader.offset
    {
      Advance(ArrayKind, message, reader.offset, done);
      var tag :- reader.ReadTag();
      ghost var next := reader.offset;
      ghost var payload := Payload(ShapeOf(ArrayKind, tag), tag, ProtoReader.Remaining(message, reader.offset));
      ghost var read: seq<Entry> := [];
      if tag.field == 1 && tag.wire == 2 {
        var b :- reader.ReadBytes();
        var v :- DecodeAnyValue(b);
        values := values + [v];
        read := [Entry(1, Message(Parse(AnyKind, b).value.entries))];
      } else {
        var _ :- reader.Skip(tag.wire);
      }
      assert payload == Ok(Read(read, reader.offset - next));
      ArrayExtend(done, read);
      done := done + read;
    }
    Finished(ArrayKind, message, reader.offset, done);
    return Ok(ArrayValue(values));
  }

  method DecodeKeyValue(message: Bytes) returns (r: Result<KeyValue, Error>)
    ensures r == DecodeKeyValueTree(message)
    decreases |message|
  {
    hide Parse, From, Resume, Step, SkipOf, BytesOf, Fixed64Of, VarintOf, TagOf, Groups, ArrayOf, KeyValueListOf,
      Progress, ProtoReader.Remaining, KeyValueOf, AnyOf;
    var reader := new ProtoReader.ProtoReader(message);
    var entry := NO_ENTRY;
    ghost var done: seq<Entry> := [];
    Started(KeyValueKind, message);
    NothingRead();
    while !reader.Done()
      invariant reader.buffer == message && Progress(KeyValueKind, message, reader.offset, done)
      invariant entry == KeyValueOf(done)
      decreases |message| - reader.offset
    {
      Advance(KeyValueKind, message, reader.offset, done);
      var tag :- reader.ReadTag();
      ghost var next := reader.offset;
      ghost var payload := Payload(ShapeOf(KeyValueKind, tag), tag, ProtoReader.Remaining(message, reader.offset));
      ghost var read: seq<Entry> := [];
      if tag.field == 1 && tag.wire == 2 {
        var b :- reader.ReadBytes();
        entry := entry.(key := Some(b));
        read := [Entry(1, Raw(b))];
      } else if tag.field == 2 && tag.wire == 2 {
        var b :- reader.ReadBytes();
        var v :- DecodeAnyValue(b);
        entry := entry.(value := Some(v));
        read := [Entry(2, Message(Parse(AnyKind, b).value.entries))];
      } else {
        var _ :- reader.Skip(tag.wire);
      }
      assert payload == Ok(Read(read, reader.offset - next));
      KeyValueExtend(done, read);
      done := done + read;
    }
    Finished(KeyValueKind, message, reader.offset, done);
    return Ok(entry);
  }

  method DecodeKeyValueList(message: Bytes) returns (r: Result<KeyValueList, Error>)
    ensures r == DecodeKeyValueListTree(message)
    decreases |message|
  {
    hide Parse, From, Resume, Step, SkipOf, BytesOf, Fixed64Of, VarintOf, TagOf, Groups, ArrayOf, KeyValueListOf,
      Progress, ProtoReader.Remaining;
    var reader := new ProtoReader.ProtoReader(message);
    var values: seq<KeyValue> := [];
    ghost var done: seq<Entry> := [];
    Started(KeyValueListKind, message);
    NothingRead();
    while !reader.Done()
      invariant reader.buffer == message && Progress(KeyValueListKind, message, reader.offset, done)
      invariant values == KeyValueListOf(done).values
      decreases |message| - reader.offset
    {
      Advance(KeyValueListKind, message, reader.offset, done);
      var tag :- reader.ReadTag();
      ghost var next := reader.offset;
      ghost var payload := Payload(ShapeOf(KeyValueListKind, tag), tag, ProtoReader.Remaining(message, reader.offset));
      ghost var read: seq<Entry> := [];
      if tag.field == 1 && tag.wire == 2 {
        var b :- reader.ReadBytes();
        var kv :- DecodeKeyValue(b);
        values := values + [kv];
        read := [Entry(1, Message(Parse(KeyValueKind, b).value.entries))];
      } else {
        var _ :- reader.Skip(tag.wire);
      }
      assert payload == Ok(Read(read, reader.offset - next));
      KeyValueListExtend(done, read);
      done := done + read;
    }
    Finished(KeyValueListKind, message, reader.offset, done);
    return Ok(KeyValueList(values));
  }

  method DecodeSpan(message: Bytes) returns (r: Result<Span, Error>)
    ensures r == DecodeSpanTree(message)
    decreases |message|
  {
    hide Parse, From, Resume, Step, SkipOf, BytesOf, Fixed64Of, VarintOf, TagOf, Groups, ArrayOf, KeyValueListOf,
      Progress, ProtoReader.Remaining, SpanOf, KeyValueOf, SpanFrom, MergeSpan;
    var reader := new ProtoReader.ProtoReader(message);
    var span := NO_SPAN;
    ghost var done: seq<Entry> := [];
    Started(SpanKind, message);
    NothingRead();
    while !reader.Done()
      invariant reader.buffer == message && Progress(SpanKind, message, reader.offset, done)
      invariant span == SpanOf(done)
      decreases |message| - reader.offset
    {
      Advance(SpanKind, message, reader.offset, done);
      var tag :- reader.ReadTag();
      ghost var next := reader.offset;
      ghost var payload := Payload(ShapeOf(SpanKind, tag), tag, ProtoReader.Remaining(message, reader.offset));
      ghost var read: seq<Entry> := [];
      if tag.field == 4 && tag.wire == 2 {
        var b :- reader.ReadBytes();
        SpanSet(span, b, []);
        span := span.(parentSpanId := Some(b));
        read := [Entry(4, Raw(b))];
      } else if tag.field == 5 && tag.wire == 2 {
        var b :- reader.ReadBytes();
        SpanSet(span, b, []);
        span := span.(name := Some(b));
        read := [Entry(5, Raw(b))];
      } else if tag.field == 9 && tag.wire == 2 {
        var b :- reader.ReadBytes();
        var kv :- DecodeKeyValue(b);
        SpanSet(span, b, Parse(KeyValueKind, b).value.entries);
        span := span.(attributes := Some(span.attributes.GetOr([]) + [kv]));
        read := [Entry(9, Message(Parse(KeyValueKind, b).value.entries))];
      } else {
        var _ :- reader.Skip(tag.wire);
      }
      assert payload == Ok(Read(read, reader.offset - next));
      SpanExtend(done, read);
      done := done + read;
    }
    Finished(SpanKind, message, reader.offset, done);
    return Ok(span);
  }

  method DecodeScopeSpans(message: Bytes) returns (r: Result<ScopeSpans, Error>)
    ensures r == DecodeScopeTree(message)
    decreases |message|
  {
    hide Parse, From, Resume, Step, SkipOf, BytesOf, Fixed64Of, VarintOf, TagOf, Groups, ArrayOf, KeyValueListOf,
      Progress, ProtoReader.Remaining;
    var reader := new ProtoReader.ProtoReader(message);
    var spans: seq<Span> := [];
    ghost var done: seq<Entry> := [];
    Started(ScopeKind, message);
    NothingRead();
    while !reader.Done()
      invariant reader.buffer == message && Progress(ScopeKind, message, reader.offset, done)
      invariant spans == ScopeOf(done).spans
      decreases |message| - reader.offset
    {
      Advance(ScopeKind, message, reader.offset, done);
      var tag :- reader.ReadTag();
      ghost var next := reader.offset;
      ghost var payload := Payload(ShapeOf(ScopeKind, tag), tag, ProtoReader.Remaining(message, reader.offset));
      ghost var read: seq<Entry> := [];
      if tag.field == 2 && tag.wire == 2 {
        var b :- reader.ReadBytes();
        var span :- DecodeSpan(b);
        spans := spans + [span];
        read := [Entry(2, Message(Parse(SpanKind, b).value.entries))];
      } else {
        var _ :- reader.Skip(tag.wire);
      }
      assert payload == Ok(Read(read, reader.offset - next));
      ScopeExtend(done, read);
      done := done + read;
    }
    Finished(ScopeKind, message, reader.offset, done);
    return Ok(ScopeSpans(spans));
  }

  method DecodeResourceSpans(message: Bytes) returns (r: Result<ResourceSpans, Error>)
    ensures r == DecodeResourceTree(message)
    decreases |message|
  {
    hide Parse, From, Resume, Step, SkipOf, BytesOf, Fixed64Of, VarintOf, TagOf, Groups, ArrayOf, KeyValueListOf,
      Progress, ProtoReader.Remaining;
    var reader := new ProtoReader.ProtoReader(message);
    var scopeSpans: seq<ScopeSpans> := [];
    ghost var done: seq<Entry> := [];
    Started(ResourceKind, message);
    NothingRead();
    while !reader.Done()
      invariant reader.buffer == message && Progress(ResourceKind, message, reader.offset, done)
      invariant scopeSpans == ResourceOf(done).scopeSpans
      decreases |message| - reader.offset
    {
      Advance(ResourceKind, message, reader.offset, done);
      var tag :- reader.ReadTag();
      ghost var next := reader.offset;
      ghost var payload := Payload(ShapeOf(ResourceKind, tag), tag, ProtoReader.Remaining(message, reader.offset));
      ghost var read: seq<Entry> := [];
      if tag.field == 2 && tag.wire == 2 {
        var b :- reader.ReadBytes();
        var scope :- DecodeScopeSpans(b);
        scopeSpans := scopeSpans + [scope];
        read := [Entry(2, Message(Parse(ScopeKind, b).value.entries))];
      } else {
        var _ :- reader.Skip(tag.wire);
      }
      assert payload == Ok(Read(read, reader.offset - next));
      ResourceExtend(done, read);
      done := done + read;
    }
    Finished(ResourceKind, message, reader.offset, done);
    return Ok(ResourceSpans(scopeSpans));
  }

  lemma {:induction false} NothingCaptured(text: Bytes -> string)
    ensures Captured(SpansOfRequest([]), text) == []
  {
  }

  lemma {:induction false} ResourcesAppend(resources: seq<ResourceSpans>, i: nat)
    requires i < |resources|
    ensures var scopes := resources[i].scopeSpans;
            && SpansOfRequest(resources[..i]) + SpansOfScopes(scopes[..0]) == SpansOfRequest(resources[..i])
            && SpansOfRequest(resources[..i + 1]) == SpansOfRequest(resources[..i]) + SpansOfScopes(scopes[..|scopes|])
  {
    assert resources[..i + 1][..i] == resources[..i];
    assert resources[i].scopeSpans[..|resources[i].scopeSpans|] == resources[i].scopeSpans;
  }

  lemma {:induction false} ScopesAppend(before: seq<Span>, scopes: seq<ScopeSpans>, j: nat)
    requires j < |scopes|
    ensures before + SpansOfScopes(scopes[..j + 1])
        == before + SpansOfScopes(scopes[..j]) + scopes[j].spans[..|scopes[j].spans|]
  {
    assert scopes[..j + 1][..j] == scopes[..j];
  }

  lemma {:induction false} CapturedAppend(earlier: seq<Span>, spans: seq<Span>, l: nat, text: Bytes -> string)
    requires l < |spans|
    ensures Captured(earlier + spans[..l + 1], text)
         == Captured(earlier + spans[..l], text) + (if Named(spans[l], text) then [CaptureOf(spans[l], text)] else [])
  {
    var all := earlier + spans[..l + 1];
    assert all[..|all| - 1] == earlier + spans[..l];
  }

  method DecodeTraceRequest(body: Bytes, text: Bytes -> string) returns (r: Result<seq<CapturedSpan>, Error>)
    ensures r == DecodeSpec(body, text)
  {
    hide Parse, From, Resume, Step, SkipOf, BytesOf, Fixed64Of, VarintOf, TagOf, Groups, ArrayOf, KeyValueListOf,
      Progress, ProtoReader.Remaining;
    var reader := new ProtoReader.ProtoReader(body);
    var resourceSpans: seq<ResourceSpans> := [];
    ghost var done: seq<Entry> := [];
    Started(RequestKind, body);
    NothingRead();
    while !reader.Done()
      invariant reader.buffer == body && Progress(RequestKind, body, reader.offset, done)
      invariant resourceSpans == RequestOf(done)
      decreases |body| - reader.offset
    {
      Advance(RequestKind, body, reader.offset, done);
      var tag :- reader.ReadTag();
      ghost var next := reader.offset;
      ghost var payload := Payload(ShapeOf(RequestKind, tag), tag, ProtoReader.Remaining(body, reader.offset));
      ghost var read: seq<Entry> := [];
      if tag.field == 1 && tag.wire == 2 {
        var b :- reader.ReadBytes();
        var resource :- DecodeResourceSpans(b);
        resourceSpans := resourceSpans + [resource];
        read := [Entry(1, Message(Parse(ResourceKind, b).value.entries))];
      } else {
        var _ :- reader.Skip(tag.wire);
      }
      assert payload == Ok(Read(read, reader.offset - next));
      RequestExtend(done, read);
      done := done + read;
    }
    Finished(RequestKind, body, reader.offset, done);
    var spans := CaptureAll(resourceSpans, text);
    return Ok(spans);
  }

  /** `spanAttributes`, with the values left as decoded. */
  method SpanAttributes(kvs: seq<KeyValue>, text: Bytes -> string) returns (attributes: map<string, Option<AnyValue>>)
    ensures attributes == AttributesOf(kvs, text)
  {
    attributes := map[];
    for i := 0 to |kvs|
      invariant attributes == AttributesOf(kvs[..i], text)
    {
      assert kvs[..i + 1][..i] == kvs[..i];
      if kvs[i].key == None {
        continue;
      }
      var key := Text.Trim(text(kvs[i].key.value));
      if key == "" {
        continue;
      }
      attributes := attributes[key := kvs[i].value];
    }
    assert kvs[..|kvs|] == kvs;
  }

  /** The second half of the request decoder: the spans of every scope of every resource. */
  method CaptureAll(resourceSpans: seq<ResourceSpans>, text: Bytes -> string) returns (spans: seq<CapturedSpan>)
    ensures spans == Captured(SpansOfRequest(resourceSpans), text)
  {
    hide Captured, SpansOfRequest, SpansOfScopes;
    spans := [];
    NothingCaptured(text);
    for i := 0 to |resourceSpans|
      invariant spans == Captured(SpansOfRequest(resourceSpans[..i]), text)
    {
      var scopes := resourceSpans[i].scopeSpans;
      ghost var before := SpansOfRequest(resourceSpans[..i]);
      ResourcesAppend(resourceSpans, i);
      for j := 0 to |scopes|
        invariant spans == Captured(before + SpansOfScopes(scopes[..j]), text)
      {
        ghost var earlier := before + SpansOfScopes(scopes[..j]);
        assert earlier + scopes[j].spans[..0] == earlier;
        for l := 0 to |scopes[j].spans|
          invariant spans == Captured(earlier + scopes[j].spans[..l], text)
        {
          var span := scopes[j].spans[l];
          CapturedAppend(earlier, scopes[j].spans, l, text);
          var name := if span.name.Some? then Text.Trim(text(span.name.value)) else "";
          if name != "" {
            var attributes := SpanAttributes(span.attributes.GetOr([]), text);
            spans := spans + [CapturedSpan(name, |span.parentSpanId.GetOr([])| > 0, attributes)];
          }
        }
        ScopesAppend(before, scopes, j);
      }
    }
    assert resourceSpans[..|resourceSpans|] == resourceSpans;
  }
}
