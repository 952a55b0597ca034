/** The key-order-independent form of JSON trees that schema signatures are made of. */
module CanonicalJson {
  import opened Sorting

  /** A JSON tree; an object is the sequence of its fields.  Atoms carry their JSON text. */
  datatype Json = Atom(text: string) | Arr(items: seq<Json>) | Obj(fields: seq<Field>)
  datatype Field = Field(key: string, value: Json)

  type Order = (string, string) -> bool

  function KeyOf(f: Field): string {
    f.key
  }

  /** Objects have distinct keys, at every depth. */
  ghost predicate Proper(j: Json) {
    match j
    case Atom(_) => true
    case Arr(items) => forall i | 0 <= i < |items| :: Proper(items[i])
    case Obj(fields) => KeysDistinct(fields, KeyOf) && forall i | 0 <= i < |fields| :: ProperField(fields[i])
  }

  ghost predicate ProperField(f: Field) {
    Proper(f.value)
  }

  /** `stableJson`: keys sorted at every depth, array order kept. */
  function StableJson(j: Json, leq: Order): Json {
    match j
    case Atom(_) => j
    case Arr(items) => Arr(seq(|items|, i requires 0 <= i < |items| => StableJson(items[i], leq)))
    case Obj(fields) => Obj(Sort(StableFields(fields, leq), KeyOf, leq))
  }

  function StableFields(fields: seq<Field>, leq: Order): seq<Field> {
    seq(|fields|, i requires 0 <= i < |fields| => StableField(fields[i], leq))
  }

  function StableField(f: Field, leq: Order): Field {
    Field(f.key, StableJson(f.value, leq))
  }

  /** Equal up to the order of object keys, at every depth; array order counts. */
  predicate SameUpToOrder(a: Json, b: Json)
    decreases a
  {
    match (a, b)
    case (Atom(s), Atom(t)) => s == t
    case (Arr(x), Arr(y)) => |x| == |y| && forall i | 0 <= i < |x| :: SameUpToOrder(x[i], y[i])
    case (Obj(f), Obj(g)) => SameFields(f, g)
    case _ => false
  }

  predicate SameFields(f: seq<Field>, g: seq<Field>)
    decreases f
  {
    && (forall i | 0 <= i < |f| :: FieldIn(f[i], g))
    && (forall j | 0 <= j < |g| :: HasKey(f, g[j].key))
  }

  predicate HasKey(f: seq<Field>, key: string) {
    exists i | 0 <= i < |f| :: f[i].key == key
  }

  predicate FieldIn(f: Field, g: seq<Field>)
    decreases f
  {
    exists j | 0 <= j < |g| :: f.key == g[j].key && SameUpToOrder(f.value, g[j].value)
  }

  // ---------- sorting fields ----------

  lemma {:induction false} SameMembersSameMultiset(a: seq<Field>, b: seq<Field>)
    requires KeysDistinct(a, KeyOf) && KeysDistinct(b, KeyOf) && forall f :: f in a <==> f in b
    ensures multiset(a) == multiset(b)
  {
    forall f
      ensures multiset(a)[f] == multiset(b)[f]
    {
      if f in a {
        var i :| 0 <= i < |a| && a[i] == f;
        var j :| 0 <= j < |b| && b[j] == f;
        OnceIn(a, i, KeyOf);
        OnceIn(b, j, KeyOf);
      }
    }
  }

  lemma {:induction false} SortedFieldsEqual(a: seq<Field>, b: seq<Field>, leq: Order)
    requires TotalOrder(leq) && KeysDistinct(a, KeyOf) && KeysDistinct(b, KeyOf)
    ensures Sort(a, KeyOf, leq) == Sort(b, KeyOf, leq) <==> forall f :: f in a <==> f in b
  {
    var x, y := Sort(a, KeyOf, leq), Sort(b, KeyOf, leq);
    SortSorts(a, KeyOf, leq);
    SortSorts(b, KeyOf, leq);
    if x == y {
      forall f
        ensures f in a <==> f in b
      {
        assert f in a <==> f in multiset(a);
        assert f in b <==> f in multiset(b);
      }
    } else if forall f :: f in a <==> f in b {
      SameMembersSameMultiset(a, b);
      PermutedDistinct(b, y, KeyOf);
      SortedUnique(x, y, KeyOf, leq);
    }
  }

  lemma {:induction false} StableFieldsKeys(fields: seq<Field>, leq: Order)
    ensures |StableFields(fields, leq)| == |fields|
    ensures forall i | 0 <= i < |fields| :: StableFields(fields, leq)[i] == StableField(fields[i], leq)
    ensures KeysDistinct(fields, KeyOf) ==> KeysDistinct(StableFields(fields, leq), KeyOf)
  {
  }

  // ---------- canonical form ----------

  /** Two trees have the same stable form exactly when they are equal up to key order. */
  lemma {:induction false} StableIsCanonical(a: Json, b: Json, leq: Order)
    requires TotalOrder(leq) && Proper(a) && Proper(b)
    ensures StableJson(a, leq) == StableJson(b, leq) <==> SameUpToOrder(a, b)
    decreases a
  {
    hide TotalOrder, Sort, SameFields, KeysDistinct, StableFields;
    match (a, b)
    case (Arr(x), Arr(y)) =>
      var sx, sy := StableJson(a, leq).items, StableJson(b, leq).items;
      if |x| == |y| {
        forall i | 0 <= i < |x|
          ensures sx[i] == sy[i] <==> SameUpToOrder(x[i], y[i])
        {
          StableIsCanonical(x[i], y[i], leq);
        }
        assert sx == sy <==> forall i | 0 <= i < |x| :: sx[i] == sy[i];
      } else {
        assert |sx| != |sy|;
      }
    case (Obj(f), Obj(g)) =>
      StableFieldsKeys(f, leq);
      StableFieldsKeys(g, leq);
      SortedFieldsEqual(StableFields(f, leq), StableFields(g, leq), leq);
      FieldsAreCanonical(f, g, leq);
    case _ =>
  }

  /** Fields of the same key have the same stable form exactly when their values are equal up to order. */
  ghost predicate Matched(f: seq<Field>, g: seq<Field>, leq: Order) {
    forall i, j | 0 <= i < |f| && 0 <= j < |g| ::
      (StableField(f[i], leq) == StableField(g[j], leq)
       <==> f[i].key == g[j].key && SameUpToOrder(f[i].value, g[j].value))
  }

  lemma {:induction false} FieldsAreCanonical(f: seq<Field>, g: seq<Field>, leq: Order)
    requires TotalOrder(leq) && Proper(Obj(f)) && Proper(Obj(g))
    ensures (forall x :: x in StableFields(f, leq) <==> x in StableFields(g, leq)) <==> SameFields(f, g)
    decreases f
  {
    hide TotalOrder, SameUpToOrder, StableJson, SameFields, StableFields;
    assert KeysDistinct(f, KeyOf) && KeysDistinct(g, KeyOf);
    forall i, j | 0 <= i < |f| && 0 <= j < |g|
      ensures StableField(f[i], leq) == StableField(g[j], leq)
          <==> f[i].key == g[j].key && SameUpToOrder(f[i].value, g[j].value)
    {
      assert ProperField(f[i]) && ProperField(g[j]);
      assert f decreases to f[i];
      StableIsCanonical(f[i].value, g[j].value, leq);
    }
    if forall x :: x in StableFields(f, leq) <==> x in StableFields(g, leq) {
      MembersGiveFields(f, g, leq);
    }
    if SameFields(f, g) {
      FieldsGiveMembers(f, g, leq);
    }
  }

  lemma {:induction false} MembersGiveFields(f: seq<Field>, g: seq<Field>, leq: Order)
    requires Matched(f, g, leq) && forall x :: x in StableFields(f, leq) <==> x in StableFields(g, leq)
    ensures SameFields(f, g)
  {
    hide StableFields, SameUpToOrder, StableField;
    StableFieldsKeys(f, leq);
    StableFieldsKeys(g, leq);
    forall i | 0 <= i < |f|
      ensures FieldIn(f[i], g)
    {
      assert StableFields(f, leq)[i] in StableFields(g, leq);
      var j :| 0 <= j < |g| && StableFields(g, leq)[j] == StableFields(f, leq)[i];
      assert f[i].key == g[j].key && SameUpToOrder(f[i].value, g[j].value);
    }
    forall j | 0 <= j < |g|
      ensures HasKey(f, g[j].key)
    {
      assert StableFields(g, leq)[j] in StableFields(f, leq);
      var i :| 0 <= i < |f| && StableFields(f, leq)[i] == StableFields(g, leq)[j];
      assert f[i].key == g[j].key;
    }
  }

  lemma {:induction false} FieldsGiveMembers(f: seq<Field>, g: seq<Field>, leq: Order)
    requires Matched(f, g, leq) && SameFields(f, g) && KeysDistinct(g, KeyOf)
    ensures forall x :: x in StableFields(f, leq) <==> x in StableFields(g, leq)
  {
    hide StableFields, SameUpToOrder, StableField, KeysDistinct, Matched, FieldIn;
    var sf, sg := StableFields(f, leq), StableFields(g, leq);
    StableFieldsKeys(f, leq);
    StableFieldsKeys(g, leq);
    forall i | 0 <= i < |f|
      ensures sf[i] in sg
    {
      var j := Counterpart(f, g, leq, i);
      assert sg[j] == sf[i];
    }
    forall j | 0 <= j < |g|
      ensures sg[j] in sf
    {
      assert HasKey(f, g[j].key);
      var i :| 0 <= i < |f| && f[i].key == g[j].key;
      var k := Counterpart(f, g, leq, i);
      SameKeySamePlace(g, j, k);
      assert sf[i] == sg[j];
    }
  }

  /** The field of `g` with the key and the stable form of field `i` of `f`. */
  lemma {:induction false} Counterpart(f: seq<Field>, g: seq<Field>, leq: Order, i: nat) returns (j: nat)
    requires Matched(f, g, leq) && i < |f| && FieldIn(f[i], g)
    ensures j < |g| && f[i].key == g[j].key && StableField(f[i], leq) == StableField(g[j], leq)
  {
    j :| 0 <= j < |g| && f[i].key == g[j].key && SameUpToOrder(f[i].value, g[j].value);
  }

  lemma {:induction false} SameKeySamePlace(g: seq<Field>, j: nat, k: nat)
    requires KeysDistinct(g, KeyOf) && j < |g| && k < |g| && g[j].key == g[k].key
    ensures j == k
  {
    assert KeyOf(g[j]) == KeyOf(g[k]);
  }

  // ---------- idempotence ----------

  /** The stable form is itself proper and equal to the tree up to key order. */
  lemma {:induction false} StableIsSame(a: Json, leq: Order)
    requires TotalOrder(leq) && Proper(a)
    ensures Proper(StableJson(a, leq)) && SameUpToOrder(a, StableJson(a, leq))
  {
    hide TotalOrder, Sort, KeysDistinct, SameFields, StableFields;
    match a
    case Atom(_) =>
    case Arr(items) =>
      forall i | 0 <= i < |items|
        ensures Proper(StableJson(items[i], leq)) && SameUpToOrder(items[i], StableJson(items[i], leq))
      {
        StableIsSame(items[i], leq);
      }
    case Obj(fields) =>
      forall i | 0 <= i < |fields|
        ensures ProperField(StableField(fields[i], leq))
            && SameUpToOrder(fields[i].value, StableField(fields[i], leq).value)
      {
        assert ProperField(fields[i]);
        StableIsSame(fields[i].value, leq);
      }
      SortedIsSame(fields, leq);
  }

  lemma {:induction false} SortedIsSame(fields: seq<Field>, leq: Order)
    requires TotalOrder(leq) && KeysDistinct(fields, KeyOf)
    requires forall i | 0 <= i < |fields| ::
               ProperField(StableField(fields[i], leq))
                   && SameUpToOrder(fields[i].value, StableField(fields[i], leq).value)
    ensures var sorted := Sort(StableFields(fields, leq), KeyOf, leq);
            Proper(Obj(sorted)) && SameFields(fields, sorted)
  {
    hide TotalOrder, Sort, SameUpToOrder, StableFields, StableJson, KeysDistinct, FieldIn, HasKey, ProperField;
    var stable := StableFields(fields, leq);
    var sorted := Sort(stable, KeyOf, leq);
    StableFieldsKeys(fields, leq);
    SortSorts(stable, KeyOf, leq);
    PermutedDistinct(stable, sorted, KeyOf);
    forall i | 0 <= i < |fields|
      ensures FieldIn(fields[i], sorted)
    {
      assert stable[i] in multiset(stable) && stable[i] in multiset(sorted);
      var j :| 0 <= j < |sorted| && sorted[j] == stable[i];
      IsFieldIn(fields[i], sorted, j);
    }
    forall j | 0 <= j < |sorted|
      ensures ProperField(sorted[j]) && HasKey(fields, sorted[j].key)
    {
      assert sorted[j] in multiset(sorted) && sorted[j] in multiset(stable);
      var i :| 0 <= i < |fields| && stable[i] == sorted[j];
      IsKeyOf(fields, i);
    }
  }

  lemma {:induction false} IsFieldIn(f: Field, g: seq<Field>, j: nat)
    requires j < |g| && f.key == g[j].key && SameUpToOrder(f.value, g[j].value)
    ensures FieldIn(f, g)
  {
  }

  lemma {:induction false} IsKeyOf(f: seq<Field>, i: nat)
    requires i < |f|
    ensures HasKey(f, f[i].key)
  {
  }

  lemma {:induction false} StableIsIdempotent(a: Json, leq: Order)
    requires TotalOrder(leq) && Proper(a)
    ensures StableJson(StableJson(a, leq), leq) == StableJson(a, leq)
  {
    StableIsSame(a, leq);
    StableIsCanonical(a, StableJson(a, leq), leq);
  }
}
