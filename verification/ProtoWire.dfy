/**
 The wire level of the trace decoder: what one loop iteration of any of its message
 decoders reads, as a function of the bytes that are left, and the whole loop as a
 function of the message.  The encoder is the one of the Protocol Buffers Encoding
 specification, sections "Base 128 Varints" and "Message Structure".
 */
module ProtoWire {
  import opened Wrappers

  type Byte = b: int | 0 <= b < 256
  type Bytes = seq<Byte>

  /** `InexactVarint` marks the inputs on which the source's floating-point accumulator rounds or overflows. */
  datatype Error =
    | TruncatedVarint
    | TruncatedBytes
    | TruncatedFixed64
    | UnsupportedWire(wire: nat)
    | InexactVarint

  datatype Tag = Tag(field: nat, wire: nat)

  /** A value together with the number of bytes its reader advances by. */
  datatype Read<+T> = Read(value: T, used: nat)

  const SAFE_INTEGER: nat := 0x20_0000_0000_0000
  const WORD: nat := 0x1_0000_0000
  const FIELD_LIMIT: nat := 0x2000_0000
  const MAX_EXACT_GROUPS: nat := 147  // beyond it the factor 2 ** shift is Infinity

  // ---------- reading ----------

  /** Base-128 groups, least significant first; `None` when the input ends inside the number. */
  function Groups(s: Bytes): (r: Option<Read<nat>>)
    ensures r.Some? ==> 1 <= r.value.used <= |s|
  {
    if s == [] then None
    else if s[0] < 128 then Some(Read(s[0], 1))
    else
      match Groups(s[1..])
      case None => None
      case Some(high) => Some(Read(s[0] - 128 + 128 * high.value, high.used + 1))
  }

  function VarintOf(s: Bytes): (r: Result<Read<nat>, Error>)
    ensures r.Ok? ==> 1 <= r.value.used <= |s|
  {
    match Groups(s)
    case None => Err(TruncatedVarint)
    case Some(v) =>
      if v.value < SAFE_INTEGER && v.used <= MAX_EXACT_GROUPS then Ok(v) else Err(InexactVarint)
  }

  /** The number that the first `n` groups of seven bits stand for. */
  function Weighted(s: Bytes, n: nat): nat
    requires n <= |s|
  {
    if n == 0 then 0 else Weighted(s, n - 1) + (s[n - 1] % 128) * Pow128(n - 1)
  }

  lemma {:induction false} WeightedFirst(s: Bytes, n: nat)
    requires n < |s|
    ensures Weighted(s, n + 1) == s[0] % 128 + 128 * Weighted(s[1..], n)
  {
    if n > 0 {
      WeightedFirst(s, n - 1);
      assert (s[n] % 128) * Pow128(n) == 128 * ((s[n] % 128) * Pow128(n - 1));
    } else {
      assert Weighted(s, 1) == s[0] % 128 * Pow128(0);
    }
  }

  lemma {:induction false} GroupsMean(s: Bytes, n: nat)
    requires n < |s| && s[n] < 128 && forall i | 0 <= i < n :: s[i] >= 128
    ensures Groups(s) == Some(Read(Weighted(s, n + 1), n + 1))
  {
    WeightedFirst(s, n);
    if n > 0 {
      GroupsMean(s[1..], n - 1);
    }
  }

  lemma {:induction false} NoLastGroup(s: Bytes)
    requires forall i | 0 <= i < |s| :: s[i] >= 128
    ensures Groups(s) == None
  {
    if s != [] {
      NoLastGroup(s[1..]);
    }
  }

  /**
   A varint ends at the first byte below 128 and stands for the sum of its groups; it is read exactly if it is below
   2^53 and has at most 147 groups.  Without such a byte it is truncated.
   */
  lemma {:induction false} VarintMeans(s: Bytes, n: nat)
    requires n <= |s| && (n < |s| ==> s[n] < 128) && forall i | 0 <= i < n :: s[i] >= 128
    ensures VarintOf(s) ==
      if n == |s| then Err(TruncatedVarint)
      else if Weighted(s, n + 1) < 0x20_0000_0000_0000 && n < 147 then Ok(Read(Weighted(s, n + 1), n + 1))
      else Err(InexactVarint)
  {
    hide Groups, Weighted;
    if n < |s| {
      GroupsMean(s, n);
    } else {
      NoLastGroup(s);
    }
  }

  /** `raw >>> 3` works modulo 2^32, so only 29 bits of field number survive. */
  function TagOf(s: Bytes): (r: Result<Read<Tag>, Error>)
    ensures r.Ok? ==> 1 <= r.value.used <= |s|
  {
    var raw :- VarintOf(s);
    Ok(Read(Tag(raw.value % WORD / 8, raw.value % 8), raw.used))
  }

  function BytesOf(s: Bytes): (r: Result<Read<Bytes>, Error>)
    ensures r.Ok? ==> 1 <= r.value.used <= |s| && |r.value.value| < r.value.used
  {
    var length :- VarintOf(s);
    var end := length.used + length.value;
    if end > |s| then Err(TruncatedBytes) else Ok(Read(s[length.used..end], end))
  }

  function Fixed64Of(s: Bytes): (r: Result<Read<Bytes>, Error>)
    ensures r.Ok? ==> r.value.used == 8 <= |s|
  {
    if |s| < 8 then Err(TruncatedFixed64) else Ok(Read(s[..8], 8))
  }

  /** How far a skipped field moves the cursor: fixed-width fields are not checked against the end. */
  function SkipOf(s: Bytes, wire: nat): (r: Result<nat, Error>)
    ensures r.Ok? ==> 1 <= r.value && (r.value <= |s| || r.value <= 8)
  {
    if wire == 0 then
      var v :- VarintOf(s);
      Ok(v.used)
    else if wire == 1 then Ok(8)
    else if wire == 2 then
      var b :- BytesOf(s);
      Ok(b.used)
    else if wire == 5 then Ok(4)
    else Err(UnsupportedWire(wire))
  }

  // ---------- the message kinds ----------

  datatype Kind =
    | AnyKind | ArrayKind | KeyValueKind | KeyValueListKind
    | SpanKind | ScopeKind | ResourceKind | RequestKind

  datatype Shape = Number | Double | Blob | Nested(kind: Kind) | Unknown

  /** The (field, wire) pairs each decoder recognises. */
  function ShapeOf(k: Kind, tag: Tag): Shape {
    match k
    case AnyKind => AnyShape(tag)
    case ArrayKind => if tag == Tag(1, 2) then Nested(AnyKind) else Unknown
    case KeyValueKind =>
      if tag == Tag(1, 2) then Blob
      else if tag == Tag(2, 2) then Nested(AnyKind)
      else Unknown
    case KeyValueListKind => if tag == Tag(1, 2) then Nested(KeyValueKind) else Unknown
    case SpanKind =>
      if tag == Tag(4, 2) || tag == Tag(5, 2) then Blob
      else if tag == Tag(9, 2) then Nested(KeyValueKind)
      else Unknown
    case ScopeKind => if tag == Tag(2, 2) then Nested(SpanKind) else Unknown
    case ResourceKind => if tag == Tag(2, 2) then Nested(ScopeKind) else Unknown
    case RequestKind => if tag == Tag(1, 2) then Nested(ResourceKind) else Unknown
  }

  function AnyShape(tag: Tag): Shape {
    if tag == Tag(1, 2) || tag == Tag(7, 2) then Blob
    else if tag == Tag(2, 0) || tag == Tag(3, 0) then Number
    else if tag == Tag(4, 1) then Double
    else if tag == Tag(5, 2) then Nested(ArrayKind)
    else if tag == Tag(6, 2) then Nested(KeyValueListKind)
    else Unknown
  }

  /** The recognised fields of a message in the order read. */
  datatype Value = Num(n: nat) | Fixed(bytes: Bytes) | Raw(bytes: Bytes) | Message(entries: seq<Entry>)
  datatype Entry = Entry(field: nat, value: Value)

  /** A finished loop: what it read, and by how much the last skip ran past the end. */
  datatype Parsed = Parsed(entries: seq<Entry>, overshoot: nat)

  /** What an iteration reads after a tag whose field has shape `shape`. */
  function Payload(shape: Shape, tag: Tag, body: Bytes): (r: Result<Read<seq<Entry>>, Error>)
    ensures r.Ok? ==> 1 <= r.value.used && |r.value.value| <= 1
    ensures r.Ok? ==> r.value.used <= |body| || (r.value.used <= 8 && r.value.value == [])
    decreases |body|, 1
  {
    match shape
    case Number =>
      var v :- VarintOf(body);
      Ok(Read([Entry(tag.field, Num(v.value))], v.used))
    case Double =>
      var d :- Fixed64Of(body);
      Ok(Read([Entry(tag.field, Fixed(d.value))], d.used))
    case Blob =>
      var b :- BytesOf(body);
      Ok(Read([Entry(tag.field, Raw(b.value))], b.used))
    case Nested(sub) =>
      var b :- BytesOf(body);
      var inner :- Parse(sub, b.value);
      Ok(Read([Entry(tag.field, Message(inner.entries))], b.used))
    case Unknown =>
      var skipped :- SkipOf(body, tag.wire);
      Ok(Read([], skipped))
  }

  /** One iteration of the loop of decoder `k` over the remaining bytes `s`. */
  function Step(k: Kind, s: Bytes): (r: Result<Read<seq<Entry>>, Error>)
    requires s != []
    ensures r.Ok? ==> 1 < r.value.used && |r.value.value| <= 1
    ensures r.Ok? ==> r.value.used <= |s| || (r.value.used <= |s| + 8 && r.value.value == [])
    decreases |s|, 0
  {
    var tag :- TagOf(s);
    var payload :- Payload(ShapeOf(k, tag.value), tag.value, s[tag.used..]);
    Ok(Read(payload.value, tag.used + payload.used))
  }

  /** The whole loop of decoder `k`. */
  function Parse(k: Kind, s: Bytes): (r: Result<Parsed, Error>)
    ensures r.Ok? ==> r.value.overshoot <= 8
    decreases |s|, 3
  {
    if s == [] then Ok(Parsed([], 0))
    else
      var first :- Step(k, s);
      Resume(first.value, From(k, s, first.used))
  }

  /** The loop from a cursor that may stand past the end. */
  function From(k: Kind, s: Bytes, offset: nat): (r: Result<Parsed, Error>)
    requires offset <= |s| + 8
    ensures r.Ok? ==> r.value.overshoot <= 8
    decreases if offset > |s| then 0 else |s| - offset, 4
  {
    if offset > |s| then Ok(Parsed([], offset - |s|)) else Parse(k, s[offset..])
  }

  function Resume(done: seq<Entry>, rest: Result<Parsed, Error>): Result<Parsed, Error> {
    match rest
    case Ok(p) => Ok(Parsed(done + p.entries, p.overshoot))
    case Err(e) => Err(e)
  }

  // ---------- concatenation ----------

  lemma {:induction false} GroupsLocal(s: Bytes, t: Bytes)
    requires Groups(s).Some?
    ensures Groups(s + t) == Groups(s)
  {
    assert (s + t)[0] == s[0];
    if s[0] >= 128 {
      GroupsLocal(s[1..], t);
      assert (s + t)[1..] == s[1..] + t;
    }
  }

  lemma {:induction false} BytesLocal(s: Bytes, t: Bytes)
    requires BytesOf(s).Ok?
    ensures BytesOf(s + t) == BytesOf(s)
  {
    GroupsLocal(s, t);
    var length := VarintOf(s).value;
    var end := length.used + length.value;
    assert (s + t)[length.used..end] == s[length.used..end];
  }

  lemma {:induction false} PayloadLocal(shape: Shape, tag: Tag, body: Bytes, t: Bytes)
    requires Payload(shape, tag, body).Ok?
    ensures Payload(shape, tag, body + t) == Payload(shape, tag, body)
  {
    match shape
    case Number => GroupsLocal(body, t);
    case Double => assert (body + t)[..8] == body[..8];
    case Blob => BytesLocal(body, t);
    case Nested(_) => BytesLocal(body, t);
    case Unknown =>
      if tag.wire == 0 {
        GroupsLocal(body, t);
      } else if tag.wire == 2 {
        BytesLocal(body, t);
      }
  }

  /** A successful iteration does not look at what follows, even if it runs past the end. */
  lemma {:induction false} StepLocal(k: Kind, s: Bytes, t: Bytes)
    requires s != [] && Step(k, s).Ok?
    ensures Step(k, s + t) == Step(k, s)
  {
    hide Payload, Groups;
    GroupsLocal(s, t);
    var tag := TagOf(s).value;
    assert (s + t)[tag.used..] == s[tag.used..] + t;
    PayloadLocal(ShapeOf(k, tag.value), tag.value, s[tag.used..], t);
  }

  lemma {:induction false} ResumeResume(a: seq<Entry>, b: seq<Entry>, r: Result<Parsed, Error>)
    ensures Resume(a, Resume(b, r)) == Resume(a + b, r)
  {
    if r.Ok? {
      assert a + (b + r.value.entries) == (a + b) + r.value.entries;
    }
  }

  lemma {:induction false} ResumeNothing(r: Result<Parsed, Error>)
    ensures Resume([], r) == r
  {
    if r.Ok? {
      assert [] + r.value.entries == r.value.entries;
    }
  }

  /**
   What follows a decoded message is decoded from where that message's cursor stopped, and the
   fields read are concatenated.  At overshoot 0 this is the homomorphism of "Last One Wins";
   a positive overshoot says how many bytes of the continuation the last skip swallows.
   */
  lemma {:induction false} ParseConcat(k: Kind, s: Bytes, t: Bytes)
    requires Parse(k, s).Ok?
    ensures Parse(k, s + t) == Resume(Parse(k, s).value.entries, From(k, t, Parse(k, s).value.overshoot))
    decreases |s|, 0
  {
    if s == [] {
      assert s + t == t && t[0..] == t;
      ResumeNothing(Parse(k, t));
    } else {
      var first := Step(k, s).value;
      var after := From(k, s, first.used).value;
      StepLocal(k, s, t);
      FromConcat(k, s, t, first.used);
      ResumeResume(first.value, after.entries, From(k, t, after.overshoot));
    }
  }

  lemma {:induction false} FromConcat(k: Kind, s: Bytes, t: Bytes, offset: nat)
    requires 0 < offset <= |s| + 8 && From(k, s, offset).Ok?
    ensures From(k, s + t, offset)
         == Resume(From(k, s, offset).value.entries, From(k, t, From(k, s, offset).value.overshoot))
    decreases if offset > |s| then 0 else |s| - offset, 1
  {
    if offset <= |s| {
      assert (s + t)[offset..] == s[offset..] + t;
      ParseConcat(k, s[offset..], t);
    } else {
      if offset <= |s + t| {
        assert (s + t)[offset..] == t[offset - |s|..];
      }
      ResumeNothing(From(k, t, offset - |s|));
    }
  }

  // ---------- the overshoot ----------

  /** Position `i` is where some iteration of the loop starts. */
  predicate AtBoundary(k: Kind, s: Bytes, i: nat)
    decreases |s|
  {
    || i == 0
    || (s != [] && Step(k, s).Ok? && Step(k, s).value.used <= |s| && Step(k, s).value.used <= i
        && AtBoundary(k, s[Step(k, s).value.used..], i - Step(k, s).value.used))
  }

  /** All that is left is an unrecognised fixed-width field that misses `missing` of its bytes. */
  predicate CutShort(k: Kind, s: Bytes, missing: nat) {
    && TagOf(s).Ok?
    && var tag := TagOf(s).value;
       && ShapeOf(k, tag.value) == Unknown
       && ((tag.value.wire == 1 && missing == 8 - (|s| - tag.used))
           || (tag.value.wire == 5 && missing == 4 - (|s| - tag.used)))
       && missing > 0
  }

  lemma {:induction false} CutShortStep(k: Kind, s: Bytes, missing: nat)
    requires s != [] && missing > 0
    ensures CutShort(k, s, missing) <==> Step(k, s) == Ok(Read([], |s| + missing))
  {
    if TagOf(s).Ok? {
      var tag := TagOf(s).value;
      assert |s[tag.used..]| == |s| - tag.used;
    }
  }

  ghost predicate EndsCutShort(k: Kind, s: Bytes, missing: nat) {
    exists i: nat :: CutShortAt(k, s, missing, i)
  }

  ghost predicate CutShortAt(k: Kind, s: Bytes, missing: nat, i: nat) {
    i < |s| && AtBoundary(k, s, i) && CutShort(k, s[i..], missing)
  }

  lemma {:induction false} EndsCutShortStep(k: Kind, s: Bytes, missing: nat)
    requires s != []
    ensures EndsCutShort(k, s, missing) <==>
      (CutShort(k, s, missing)
       || (Step(k, s).Ok? && Step(k, s).value.used <= |s| && EndsCutShort(k, s[Step(k, s).value.used..], missing)))
  {
    hide CutShort, Step;
    assert s[0..] == s;
    if CutShort(k, s, missing) {
      assert CutShortAt(k, s, missing, 0);
    }
    if Step(k, s).Ok? && Step(k, s).value.used <= |s| {
      var used := Step(k, s).value.used;
      var rest := s[used..];
      if EndsCutShort(k, rest, missing) {
        var i: nat :| CutShortAt(k, rest, missing, i);
        assert s[used + i..] == rest[i..];
        assert CutShortAt(k, s, missing, used + i);
      }
      if i: nat :| CutShortAt(k, s, missing, i) && i > 0 {
        assert s[i..] == rest[i - used..];
        assert CutShortAt(k, rest, missing, i - used);
      }
    }
  }

  predicate Overshoots(k: Kind, s: Bytes, missing: nat) {
    Parse(k, s).Ok? && Parse(k, s).value.overshoot == missing
  }

  lemma {:induction false} OvershootsStep(k: Kind, s: Bytes, missing: nat)
    requires s != [] && missing > 0
    ensures Overshoots(k, s, missing) <==>
      (Step(k, s) == Ok(Read([], |s| + missing))
       || (Step(k, s).Ok? && Step(k, s).value.used <= |s| && Overshoots(k, s[Step(k, s).value.used..], missing)))
  {
    hide TagOf, Payload;
    if Step(k, s).Ok? {
      var first := Step(k, s).value;
      assert Parse(k, s) == Resume(first.value, From(k, s, first.used));
      if first.used > |s| {
        assert first.value == [];
      }
    }
  }

  /**
   A message is accepted with its cursor past the end exactly if it is cut short in an unrecognised
   fixed-width field at its end, and by as many bytes as that field misses.
   */
  lemma {:induction false} OvershootIff(k: Kind, s: Bytes, missing: nat)
    requires missing > 0
    ensures Overshoots(k, s, missing) <==> EndsCutShort(k, s, missing)
    decreases |s|
  {
    hide Step, CutShort;
    if s != [] {
      CutShortStep(k, s, missing);
      OvershootsStep(k, s, missing);
      EndsCutShortStep(k, s, missing);
      if Step(k, s).Ok? && Step(k, s).value.used <= |s| {
        OvershootIff(k, s[Step(k, s).value.used..], missing);
      }
    }
  }

  // ---------- the encoder of the specification ----------

  function EncodeVarint(n: nat): (s: Bytes)
    ensures |s| >= 1
  {
    if n < 128 then [n] else [n % 128 + 128] + EncodeVarint(n / 128)
  }

  function EncodeTag(tag: Tag): (s: Bytes)
    ensures |s| >= 1
  {
    EncodeVarint(tag.field * 8 + tag.wire)
  }

  function EncodeDelimited(payload: Bytes): Bytes {
    EncodeVarint(|payload|) + payload
  }

  function WireOf(v: Value): (w: nat)
    ensures w < 8
  {
    match v
    case Num(_) => 0
    case Fixed(_) => 1
    case Raw(_) => 2
    case Message(_) => 2
  }

  function EncodeValue(v: Value): Bytes {
    match v
    case Num(n) => EncodeVarint(n)
    case Fixed(bytes) => bytes
    case Raw(bytes) => EncodeDelimited(bytes)
    case Message(entries) => EncodeDelimited(EncodeAll(entries))
  }

  function EncodeEntry(e: Entry): Bytes {
    EncodeTag(Tag(e.field, WireOf(e.value))) + EncodeValue(e.value)
  }

  function EncodeAll(es: seq<Entry>): Bytes {
    if es == [] then [] else EncodeEntry(es[0]) + EncodeAll(es[1..])
  }

  /** Shape and value agree. */
  predicate Fits(shape: Shape, v: Value) {
    match v
    case Num(n) => shape == Number && n < SAFE_INTEGER
    case Fixed(bytes) => shape == Double && |bytes| == 8
    case Raw(_) => shape == Blob
    case Message(_) => shape.Nested?
  }

  /** Entries that decoder `k` recognises, with numbers a double represents exactly. */
  predicate WellFormed(k: Kind, e: Entry)
    decreases e
  {
    && e.field < FIELD_LIMIT
    && var shape := ShapeOf(k, Tag(e.field, WireOf(e.value)));
       Fits(shape, e.value) && (e.value.Message? ==> AllWellFormed(shape.kind, e.value.entries))
  }

  predicate AllWellFormed(k: Kind, es: seq<Entry>)
    decreases es
  {
    forall i | 0 <= i < |es| :: WellFormed(k, es[i])
  }

  /** 128^k, the bound on what k groups hold. */
  function Pow128(k: nat): (p: nat)
    ensures p >= 1
  {
    if k == 0 then 1 else 128 * Pow128(k - 1)
  }

  lemma {:induction false} VarintLength(n: nat, k: nat)
    requires k >= 1 && n < Pow128(k)
    ensures |EncodeVarint(n)| <= k
  {
    if n >= 128 {
      assert Pow128(1) == 128 * Pow128(0);
      VarintLength(n / 128, k - 1);
    }
  }

  lemma {:induction false} GroupsOfEncoded(n: nat, t: Bytes)
    ensures Groups(EncodeVarint(n) + t) == Some(Read(n, |EncodeVarint(n)|))
  {
    var s := EncodeVarint(n) + t;
    if n >= 128 {
      GroupsOfEncoded(n / 128, t);
      assert s[1..] == EncodeVarint(n / 128) + t;
    }
  }

  /** Base 128 varints: decoding inverts encoding for every exactly representable number. */
  lemma {:induction false} VarintRoundTrip(n: nat, t: Bytes)
    requires n < SAFE_INTEGER
    ensures VarintOf(EncodeVarint(n) + t) == Ok(Read(n, |EncodeVarint(n)|))
  {
    GroupsOfEncoded(n, t);
    assert n < Pow128(8) by { PowerBound(); }
    VarintLength(n, 8);
  }

  lemma {:induction false} PowerBound()
    ensures Pow128(8) == 0x100_0000_0000_0000
  {
    assert Pow128(2) == 0x4000;
    assert Pow128(4) == 0x1000_0000;
    assert Pow128(6) == 0x400_0000_0000;
  }

  /** A tag is read back with its field number modulo 2^29: larger numbers alias smaller ones. */
  lemma {:induction false} TagRoundTrip(tag: Tag, t: Bytes)
    requires tag.wire < 8 && tag.field * 8 + 8 <= SAFE_INTEGER
    ensures TagOf(EncodeTag(tag) + t) == Ok(Read(Tag(tag.field % FIELD_LIMIT, tag.wire), |EncodeTag(tag)|))
  {
    var raw := tag.field * 8 + tag.wire;
    VarintRoundTrip(raw, t);
    RawField(tag.field, tag.wire);
  }

  lemma {:induction false} RawField(field: nat, wire: nat)
    requires wire < 8
    ensures (field * 8 + wire) % 8 == wire && (field * 8 + wire) % WORD / 8 == field % FIELD_LIMIT
  {
    var q, f := field / FIELD_LIMIT, field % FIELD_LIMIT;
    assert field * 8 + wire == q * WORD + (f * 8 + wire);
    ModWord(q, f * 8 + wire);
    DivEight(field, wire);
    DivEight(f, wire);
  }

  lemma {:induction false} ModWord(q: nat, r: nat)
    requires r < WORD
    ensures (q * WORD + r) % WORD == r
  {
  }

  lemma {:induction false} DivEight(n: nat, r: nat)
    requires r < 8
    ensures (n * 8 + r) / 8 == n && (n * 8 + r) % 8 == r
  {
  }

  lemma {:induction false} DelimitedRoundTrip(payload: Bytes, t: Bytes)
    requires |payload| < SAFE_INTEGER
    ensures BytesOf(EncodeDelimited(payload) + t) == Ok(Read(payload, |EncodeDelimited(payload)|))
  {
    var head := EncodeVarint(|payload|);
    assert EncodeDelimited(payload) + t == head + (payload + t);
    VarintRoundTrip(|payload|, payload + t);
  }

  /** Message structure: the decoder loop of every kind inverts the encoder, at any nesting depth. */
  lemma {:induction false} ParseInvertsEncode(k: Kind, es: seq<Entry>)
    requires AllWellFormed(k, es) && |EncodeAll(es)| < SAFE_INTEGER
    ensures Parse(k, EncodeAll(es)) == Ok(Parsed(es, 0))
    decreases es, 1
  {
    if es != [] {
      ParseInvertsEntry(k, es[0]);
      ParseInvertsEncode(k, es[1..]);
      ParseConcat(k, EncodeEntry(es[0]), EncodeAll(es[1..]));
      assert EncodeAll(es[1..])[0..] == EncodeAll(es[1..]);
      assert [es[0]] + es[1..] == es;
    }
  }

  lemma {:induction false} ParseInvertsEntry(k: Kind, e: Entry)
    requires WellFormed(k, e) && |EncodeEntry(e)| < SAFE_INTEGER
    ensures Parse(k, EncodeEntry(e)) == Ok(Parsed([e], 0))
    decreases e, 0
  {
    var tag := Tag(e.field, WireOf(e.value));
    if e.value.Message? {
      ParseInvertsEncode(ShapeOf(k, tag).kind, e.value.entries);
    }
    PayloadInvertsValue(ShapeOf(k, tag), tag, e.value);
    ParseSingle(k, tag, EncodeValue(e.value), [e]);
  }

  lemma {:induction false} PayloadInvertsValue(shape: Shape, tag: Tag, v: Value)
    requires Fits(shape, v) && |EncodeValue(v)| < SAFE_INTEGER
    requires v.Message? ==> Parse(shape.kind, EncodeAll(v.entries)) == Ok(Parsed(v.entries, 0))
    ensures Payload(shape, tag, EncodeValue(v)) == Ok(Read([Entry(tag.field, v)], |EncodeValue(v)|))
  {
    var body := EncodeValue(v);
    assert body == body + [];
    match v
    case Num(n) => VarintRoundTrip(n, []);
    case Fixed(bytes) => assert body[..8] == bytes;
    case Raw(bytes) => DelimitedRoundTrip(bytes, []);
    case Message(entries) => DelimitedRoundTrip(EncodeAll(entries), []);
  }

  lemma {:induction false} ParseSingle(k: Kind, tag: Tag, body: Bytes, es: seq<Entry>)
    requires tag.wire < 8 && tag.field < FIELD_LIMIT
    requires Payload(ShapeOf(k, tag), tag, body) == Ok(Read(es, |body|))
    ensures Parse(k, EncodeTag(tag) + body) == Ok(Parsed(es, 0))
  {
    var head := EncodeTag(tag);
    LegalTagRoundTrip(tag, body);
    StepOfParts(k, tag, head, body, es);
    ParseLast(k, head + body, es);
  }

  lemma {:induction false} LegalTagRoundTrip(tag: Tag, t: Bytes)
    requires tag.wire < 8 && tag.field < FIELD_LIMIT
    ensures EncodeTag(tag) != [] && TagOf(EncodeTag(tag) + t) == Ok(Read(tag, |EncodeTag(tag)|))
  {
    hide TagOf, EncodeTag;
    assert EncodeTag(tag) != [];
    SmallModulo(tag.field, FIELD_LIMIT);
    TagRoundTrip(tag, t);
  }

  lemma {:induction false} SmallModulo(n: nat, m: nat)
    requires n < m
    ensures n % m == n
  {
  }

  lemma {:induction false} StepOfParts(k: Kind, tag: Tag, head: Bytes, body: Bytes, es: seq<Entry>)
    requires head != [] && TagOf(head + body) == Ok(Read(tag, |head|))
    requires Payload(ShapeOf(k, tag), tag, body) == Ok(Read(es, |body|))
    ensures Step(k, head + body) == Ok(Read(es, |head + body|))
  {
    assert (head + body)[|head|..] == body;
  }

  lemma {:induction false} ParseLast(k: Kind, s: Bytes, es: seq<Entry>)
    requires s != [] && Step(k, s) == Ok(Read(es, |s|))
    ensures Parse(k, s) == Ok(Parsed(es, 0))
  {
    assert s[|s|..] == [];
    assert From(k, s, |s|) == Ok(Parsed([], 0));
    assert es + [] == es;
  }

  /** What is read is always something the encoder could have been given. */
  lemma {:induction false} ParsedIsWellFormed(k: Kind, s: Bytes)
    requires Parse(k, s).Ok?
    ensures AllWellFormed(k, Parse(k, s).value.entries)
    decreases |s|, 3
  {
    hide TagOf, Groups, WellFormed;
    if s != [] {
      var first := Step(k, s).value;
      StepIsWellFormed(k, s);
      if first.used <= |s| {
        ParsedIsWellFormed(k, s[first.used..]);
      }
    }
  }

  /** Encoding what was read keeps the fields: it is read back the same, without what was skipped. */
  lemma {:induction false} ReencodeKeepsFields(k: Kind, s: Bytes)
    requires Parse(k, s).Ok? && |EncodeAll(Parse(k, s).value.entries)| < SAFE_INTEGER
    ensures Parse(k, EncodeAll(Parse(k, s).value.entries)) == Ok(Parsed(Parse(k, s).value.entries, 0))
  {
    hide Parse, EncodeAll, AllWellFormed;
    ParsedIsWellFormed(k, s);
    ParseInvertsEncode(k, Parse(k, s).value.entries);
  }

  lemma {:induction false} StepIsWellFormed(k: Kind, s: Bytes)
    requires s != [] && Step(k, s).Ok?
    ensures AllWellFormed(k, Step(k, s).value.value)
    decreases |s|, 1
  {
    hide VarintOf, Groups;
    var tag := TagOf(s).value;
    FieldInRange(s);
    PayloadIsWellFormed(k, tag.value, s[tag.used..]);
  }

  lemma {:induction false} FieldInRange(s: Bytes)
    requires TagOf(s).Ok?
    ensures TagOf(s).value.value.field < FIELD_LIMIT && TagOf(s).value.value.wire < 8
  {
  }

  lemma {:induction false} PayloadIsWellFormed(k: Kind, tag: Tag, body: Bytes)
    requires tag.field < FIELD_LIMIT && Payload(ShapeOf(k, tag), tag, body).Ok?
    ensures AllWellFormed(k, Payload(ShapeOf(k, tag), tag, body).value.value)
    decreases |body|, 2
  {
    hide Groups;
    var shape := ShapeOf(k, tag);
    ShapeWire(k, tag);
    if shape.Nested? {
      ParsedIsWellFormed(shape.kind, BytesOf(body).value.value);
    }
  }

  /** The shape of a field fixes its wire type. */
  lemma {:induction false} ShapeWire(k: Kind, tag: Tag)
    ensures ShapeOf(k, tag) == Number ==> tag.wire == 0
    ensures ShapeOf(k, tag) == Double ==> tag.wire == 1
    ensures ShapeOf(k, tag) == Blob || ShapeOf(k, tag).Nested? ==> tag.wire == 2
  {
  }

  // ---------- unrecognised fields ----------

  /** A well-formed field of a wire type the decoders can skip. */
  datatype Extra =
    | ExtraVarint(n: nat)
    | ExtraFixed64(bytes: Bytes)
    | ExtraDelimited(bytes: Bytes)
    | ExtraFixed32(bytes: Bytes)
  {
    function Wire(): nat {
      match this
      case ExtraVarint(_) => 0
      case ExtraFixed64(_) => 1
      case ExtraDelimited(_) => 2
      case ExtraFixed32(_) => 5
    }

    predicate Legal() {
      match this
      case ExtraVarint(n) => n < SAFE_INTEGER
      case ExtraFixed64(bytes) => |bytes| == 8
      case ExtraDelimited(bytes) => |bytes| < SAFE_INTEGER
      case ExtraFixed32(bytes) => |bytes| == 4
    }

    function Encode(): Bytes {
      match this
      case ExtraVarint(n) => EncodeVarint(n)
      case ExtraFixed64(bytes) => bytes
      case ExtraDelimited(bytes) => EncodeDelimited(bytes)
      case ExtraFixed32(bytes) => bytes
    }
  }

  function EncodeExtra(field: nat, x: Extra): Bytes {
    EncodeTag(Tag(field, x.Wire())) + x.Encode()
  }

  lemma {:induction false} ExtraIsSkipped(k: Kind, field: nat, x: Extra)
    requires field < FIELD_LIMIT && x.Legal() && ShapeOf(k, Tag(field, x.Wire())) == Unknown
    ensures Parse(k, EncodeExtra(field, x)) == Ok(Parsed([], 0))
  {
    var tag, body := Tag(field, x.Wire()), x.Encode();
    assert body == body + [];
    match x {
      case ExtraVarint(n) => VarintRoundTrip(n, []);
      case ExtraDelimited(bytes) => DelimitedRoundTrip(bytes, []);
      case _ =>
    }
    assert Payload(Unknown, tag, body) == Ok(Read([], |body|));
    ParseSingle(k, tag, body, []);
  }

  /** Inserting an unrecognised field at a field boundary changes nothing, for any bytes after it. */
  lemma {:induction false} UnknownFieldIgnored(k: Kind, s: Bytes, field: nat, x: Extra, t: Bytes)
    requires Parse(k, s).Ok? && Parse(k, s).value.overshoot == 0
    requires field < FIELD_LIMIT && x.Legal() && ShapeOf(k, Tag(field, x.Wire())) == Unknown
    ensures Parse(k, s + EncodeExtra(field, x) + t) == Parse(k, s + t)
  {
    ExtraIsSkipped(k, field, x);
    InsertNothing(k, s, EncodeExtra(field, x), t);
  }

  lemma {:induction false} InsertNothing(k: Kind, s: Bytes, u: Bytes, t: Bytes)
    requires Parse(k, s).Ok? && Parse(k, s).value.overshoot == 0
    requires Parse(k, u) == Ok(Parsed([], 0))
    ensures Parse(k, s + u + t) == Parse(k, s + t)
  {
    ParseConcat(k, u, t);
    ResumeNothing(Parse(k, t));
    assert s + u + t == s + (u + t);
    ParseConcat(k, s, u + t);
    ParseConcat(k, s, t);
    assert t[0..] == t && (u + t)[0..] == u + t;
  }

  // ---------- when concatenation is plain ----------

  /** A lone tag of field 15 and wire type 1 is accepted as a whole span, eight bytes past its end. */
  lemma {:induction false} LoneTagAccepted()
    ensures Parse(SpanKind, [121]) == Ok(Parsed([], 8))
  {
    assert Groups([121]) == Some(Read(121, 1));
    assert TagOf([121]) == Ok(Read(Tag(15, 1), 1));
    assert Step(SpanKind, [121]) == Ok(Read([], 9));
    assert From(SpanKind, [121], 9) == Ok(Parsed([], 8));
    SkippedStep(SpanKind, [121], 9);
  }

  lemma {:induction false} SkippedStep(k: Kind, s: Bytes, used: nat)
    requires s != [] && Step(k, s) == Ok(Read([], used))
    ensures Parse(k, s) == From(k, s, used)
  {
    ResumeNothing(From(k, s, used));
  }

  /** Nine bytes with their continuation bit set, as the payload of field 15, which no message knows. */
  function Fragile(): Bytes {
    EncodeExtra(15, ExtraDelimited(seq(9, _ => 128)))
  }

  lemma {:induction false} FragileIs()
    ensures Fragile() == [122, 9, 128, 128, 128, 128, 128, 128, 128, 128, 128]
  {
    assert EncodeTag(Tag(15, 2)) == [122] && EncodeVarint(9) == [9];
  }

  lemma {:induction false} OnlyContinuations(s: Bytes)
    requires forall i | 0 <= i < |s| :: s[i] == 128
    ensures Groups(s) == None
  {
    if s != [] {
      OnlyContinuations(s[1..]);
    }
  }

  lemma {:induction false} BrokenOff(k: Kind, s: Bytes)
    requires s != [] && forall i | 0 <= i < |s| :: s[i] == 128
    ensures Parse(k, s) == Err(TruncatedVarint)
  {
    OnlyContinuations(s);
  }

  lemma {:induction false} SkipsNine(k: Kind, s: Bytes)
    requires |s| >= 9 && s[0] == 9
    ensures Step(k, s) == Ok(Read([], 9))
  {
    assert Groups(s) == Some(Read(9, 1));
    assert TagOf(s) == Ok(Read(Tag(1, 1), 1));
  }

  /** Read from its middle, it breaks off inside a number. */
  lemma {:induction false} FragileBreaks(k: Kind, swallowed: nat)
    requires 1 <= swallowed <= 8
    ensures From(k, Fragile(), swallowed) == Err(TruncatedVarint)
  {
    hide Step, Parse, EncodeExtra;
    FragileIs();
    var rest := Fragile()[swallowed..];
    if swallowed == 1 {
      SkipsNine(k, rest);
      BrokenOff(k, rest[9..]);
      SkippedStep(k, rest, 9);
    } else {
      BrokenOff(k, rest);
    }
  }

  /**
   Decoding a message and what follows it separately is decoding both together, for every
   continuation, if and only if the message ends where its cursor stops.
   */
  lemma {:induction false} PlainConcatIff(k: Kind, s: Bytes)
    requires Parse(k, s).Ok?
    ensures (forall t :: Parse(k, s + t) == Resume(Parse(k, s).value.entries, Parse(k, t)))
       <==> Parse(k, s).value.overshoot == 0
  {
    var p := Parse(k, s).value;
    if p.overshoot == 0 {
      forall t
        ensures Parse(k, s + t) == Resume(p.entries, Parse(k, t))
      {
        ParseConcat(k, s, t);
        assert t[0..] == t;
      }
    } else {
      WellFormedThenBroken(k, s);
      assert Resume(p.entries, Parse(k, Fragile())).Ok?;
    }
  }

  /** Otherwise there is a well-formed message, of no known field, that turns into an error behind it. */
  lemma {:induction false} WellFormedThenBroken(k: Kind, s: Bytes)
    requires Parse(k, s).Ok? && Parse(k, s).value.overshoot > 0
    ensures Parse(k, Fragile()) == Ok(Parsed([], 0)) && Parse(k, s + Fragile()) == Err(TruncatedVarint)
  {
    ExtraIsSkipped(k, 15, ExtraDelimited(seq(9, _ => 128)));
    ParseConcat(k, s, Fragile());
    FragileBreaks(k, Parse(k, s).value.overshoot);
  }
}
