/** What the receiver keeps of a request: which spans, in which order, and what of each. */
module OtlpCapture {
  import opened Wrappers
  import opened ProtoWire
  import opened Otlp
  import opened Selection
  import Text

  /** Span `span` of scope `scope` of resource `resource`. */
  datatype Place = Place(resource: nat, scope: nat, span: nat)

  predicate Before(p: Place, q: Place) {
    || p.resource < q.resource
    || (p.resource == q.resource && p.scope < q.scope)
    || (p.resource == q.resource && p.scope == q.scope && p.span < q.span)
  }

  predicate IsPlace(request: seq<ResourceSpans>, p: Place) {
    && p.resource < |request| && p.scope < |request[p.resource].scopeSpans|
    && p.span < |request[p.resource].scopeSpans[p.scope].spans|
  }

  function SpanAt(request: seq<ResourceSpans>, p: Place): Span
    requires IsPlace(request, p)
  {
    request[p.resource].scopeSpans[p.scope].spans[p.span]
  }

  /** `c` is what is kept of `span`: its trimmed name, whether it has a parent, and its attributes. */
  ghost predicate Keeps(c: CapturedSpan, span: Span, text: Bytes -> string) {
    && span.name.Some? && c.name == Text.Trim(text(span.name.value))
    && (c.parent <==> span.parentSpanId.Some? && span.parentSpanId.value != [])
    && KeepsAttributes(c.attributes, span.attributes.GetOr([]), text)
  }

  /** Every entry with a key that is not blank is kept under its trimmed key, unless a later one has the same. */
  ghost predicate KeepsAttributes(attributes: map<string, Option<AnyValue>>, kvs: seq<KeyValue>,
                                  text: Bytes -> string) {
    && (forall key | key in attributes :: key != "" && exists i :: LastWithKey(kvs, i, key, text))
    && forall i, key | key != "" && LastWithKey(kvs, i, key, text) ::
         key in attributes && attributes[key] == kvs[i].value
  }

  ghost predicate LastWithKey(kvs: seq<KeyValue>, i: int, key: string, text: Bytes -> string) {
    0 <= i < |kvs| && HasKey(kvs[i], key, text) && forall j | i < j < |kvs| :: !HasKey(kvs[j], key, text)
  }

  predicate HasKey(kv: KeyValue, key: string, text: Bytes -> string) {
    kv.key.Some? && Text.Trim(text(kv.key.value)) == key
  }

  lemma {:induction false} LastOfKey(kvs: seq<KeyValue>, key: string, text: Bytes -> string) returns (i: nat)
    requires exists j :: 0 <= j < |kvs| && HasKey(kvs[j], key, text)
    ensures LastWithKey(kvs, i, key, text)
  {
    hide HasKey;
    i := |kvs| - 1;
    while !HasKey(kvs[i], key, text)
      decreases i
      invariant i < |kvs| && forall j | i < j < |kvs| :: !HasKey(kvs[j], key, text)
    {
      i := i - 1;
    }
  }

  lemma {:induction false} AttributesKept(kvs: seq<KeyValue>, text: Bytes -> string)
    ensures KeepsAttributes(AttributesOf(kvs, text), kvs, text)
  {
    hide AttributesOf;
    var attributes := AttributesOf(kvs, text);
    forall key | key in attributes
      ensures key != "" && exists i :: LastWithKey(kvs, i, key, text)
    {
      AttributePresent(kvs, text, key);
      var kv :| kv in kvs && AttributeKey(kv, text) == key;
      var j :| 0 <= j < |kvs| && kvs[j] == kv;
      assert HasKey(kvs[j], key, text);
      var i := LastOfKey(kvs, key, text);
    }
    forall i, key | key != "" && LastWithKey(kvs, i, key, text)
      ensures key in attributes && attributes[key] == kvs[i].value
    {
      forall j | i < j < |kvs|
        ensures AttributeKey(kvs[j], text) != key
      {
        assert !HasKey(kvs[j], key, text);
      }
      LastAttributeWins(kvs, text, key, i);
    }
  }

  predicate HasName(span: Span, text: Bytes -> string) {
    span.name.Some? && Text.Trim(text(span.name.value)) != ""
  }

  /** The places of the spans that have a name. */
  function NamedIn(spans: seq<Span>, text: Bytes -> string): nat -> bool {
    (i: nat) => i < |spans| && HasName(spans[i], text)
  }

  /** What is captured of `spans` is kept of those at `at`. */
  ghost predicate KeepsAt(spans: seq<Span>, text: Bytes -> string, at: seq<nat>) {
    && |Captured(spans, text)| == |at|
    && forall k | 0 <= k < |at| :: at[k] < |spans| && Keeps(Captured(spans, text)[k], spans[at[k]], text)
  }

  /** The spans of a list that have a name are captured, in order, and nothing else is. */
  lemma {:induction false} CapturedSpans(spans: seq<Span>, text: Bytes -> string) returns (at: seq<nat>)
    ensures Selects(at, |spans|, NamedIn(spans, text)) && KeepsAt(spans, text, at)
  {
    if spans == [] {
      at := [];
    } else {
      hide Selects, KeepsAt, HasName;
      var n := |spans| - 1;
      var before := CapturedSpans(spans[..n], text);
      at := before + (if NamedIn(spans, text)(n) then [n] else []);
      SelectsLast(before, n, NamedIn(spans[..n], text), NamedIn(spans, text));
      KeepsLast(spans, text, before);
    }
  }

  lemma {:induction false} KeepsLast(spans: seq<Span>, text: Bytes -> string, before: seq<nat>)
    requires spans != [] && KeepsAt(spans[..|spans| - 1], text, before)
    ensures KeepsAt(spans, text, before + (if NamedIn(spans, text)(|spans| - 1) then [|spans| - 1] else []))
  {
    hide Captured, HasName, Keeps;
    LastCaptured(spans, text);
  }

  lemma {:induction false} LastCaptured(spans: seq<Span>, text: Bytes -> string)
    requires spans != []
    ensures var n := |spans| - 1;
            var before, all := Captured(spans[..n], text), Captured(spans, text);
            if HasName(spans[n], text)
            then |all| == |before| + 1 && all[..|before|] == before && Keeps(all[|before|], spans[n], text)
            else all == before
  {
    hide AttributesOf, KeepsAttributes;
    AttributesKept(spans[|spans| - 1].attributes.GetOr([]), text);
  }

  // ---------- the spans of a request ----------

  /** `places` tells, span by span, where in the request `spans` are. */
  predicate Locates(request: seq<ResourceSpans>, places: seq<Place>, spans: seq<Span>) {
    && |places| == |spans|
    && forall k | 0 <= k < |places| :: IsPlace(request, places[k]) && SpanAt(request, places[k]) == spans[k]
  }

  /** The first `m` scopes of one resource. */
  lemma {:induction false} PlacesOfScopes(request: seq<ResourceSpans>, i: nat, m: nat) returns (places: seq<Place>)
    requires i < |request| && m <= |request[i].scopeSpans|
    ensures Locates(request, places, SpansOfScopes(request[i].scopeSpans[..m]))
    ensures forall p: Place :: p in places <==> IsPlace(request, p) && p.resource == i && p.scope < m
    ensures forall k, l | 0 <= k < l < |places| :: Before(places[k], places[l])
  {
    var scopes := request[i].scopeSpans;
    if m == 0 {
      places := [];
    } else {
      var before := PlacesOfScopes(request, i, m - 1);
      var spans := scopes[m - 1].spans;
      var here := seq(|spans|, l requires 0 <= l < |spans| => Place(i, m - 1, l));
      places := before + here;
      assert scopes[..m][..m - 1] == scopes[..m - 1];
      forall p: Place
        ensures p in places <==> IsPlace(request, p) && p.resource == i && p.scope < m
      {
        if IsPlace(request, p) && p.resource == i && p.scope == m - 1 {
          assert here[p.span] == p;
        }
      }
    }
  }

  /** The first `n` resources: every span once, in order. */
  lemma {:induction false} PlacesOfResources(request: seq<ResourceSpans>, n: nat) returns (places: seq<Place>)
    requires n <= |request|
    ensures Locates(request, places, SpansOfRequest(request[..n]))
    ensures forall p: Place :: p in places <==> IsPlace(request, p) && p.resource < n
    ensures n == |request| ==> forall p: Place :: p in places <==> IsPlace(request, p)
    ensures forall k, l | 0 <= k < l < |places| :: Before(places[k], places[l])
  {
    if n == 0 {
      places := [];
    } else {
      var before := PlacesOfResources(request, n - 1);
      var scopes := request[n - 1].scopeSpans;
      var here := PlacesOfScopes(request, n - 1, |scopes|);
      places := before + here;
      assert scopes[..|scopes|] == scopes;
      assert request[..n][..n - 1] == request[..n - 1];
    }
  }

  /**
   From an accepted body exactly the spans with a name are captured, in the order of resources, scopes and spans,
   each with its trimmed name, with `parent` set exactly if it has a non-empty parent id, and with its attributes.
   */
  lemma {:induction false} CapturedInOrder(body: Bytes, text: Bytes -> string) returns (places: seq<Place>)
    requires DecodeRequestTree(body).Ok?
    ensures var request := DecodeRequestTree(body).value;
            && DecodeSpec(body, text).Ok? && |DecodeSpec(body, text).value| == |places|
            && (forall k, l | 0 <= k < l < |places| :: Before(places[k], places[l]))
            && (forall p: Place :: p in places <==> IsPlace(request, p) && HasName(SpanAt(request, p), text))
            && forall k | 0 <= k < |places| ::
                 IsPlace(request, places[k]) && Keeps(DecodeSpec(body, text).value[k], SpanAt(request, places[k]), text)
  {
    hide Captured, SpansOfRequest, Keeps, HasName, IsPlace, SpanAt, Before, DecodeRequestTree;
    var request := DecodeRequestTree(body).value;
    assert request[..|request|] == request;
    var all := PlacesOfResources(request, |request|);
    var at := CapturedSpans(SpansOfRequest(request), text);
    places := seq(|at|, k requires 0 <= k < |at| => all[at[k]]);
    forall p: Place | IsPlace(request, p) && HasName(SpanAt(request, p), text)
      ensures p in places
    {
      assert p in all;
      var i :| 0 <= i < |all| && all[i] == p;
      assert i in at;
      var k :| 0 <= k < |at| && at[k] == i;
      assert places[k] == p;
    }
  }
}
