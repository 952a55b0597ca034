/** The index of named schemas: a structural signature names a schema only while it is unique. */
module SchemaRegistry {
  import opened Wrappers
  import opened CanonicalJson
  import opened Sorting

  /** One call of `registerNamedSchema`; objects are compared by identity. */
  datatype Registration = Registration(ref: nat, name: string, schema: Json)

  /** The text `JSON.stringify` gives a stable form stands for the form itself. */
  type Signature = Json

  datatype Index = Index(
    nameByObject: map<nat, string>,
    nameBySignature: map<Signature, string>,
    duplicates: set<Signature>)

  const EMPTY := Index(map[], map[], {})

  function SchemaSignature(schema: Json, leq: Order): Signature {
    StableJson(schema, leq)
  }

  function Register(index: Index, r: Registration, leq: Order): Index {
    var byObject := index.nameByObject[r.ref := r.name];
    var signature := SchemaSignature(r.schema, leq);
    if signature in index.duplicates then index.(nameByObject := byObject)
    else if signature in index.nameBySignature then
      Index(byObject, index.nameBySignature - {signature}, index.duplicates + {signature})
    else index.(nameByObject := byObject, nameBySignature := index.nameBySignature[signature := r.name])
  }

  /** The index after a sequence of registrations. */
  function After(log: seq<Registration>, leq: Order): Index {
    if log == [] then EMPTY else Register(After(log[..|log| - 1], leq), log[|log| - 1], leq)
  }

  // ---------- the specification ----------

  /** The positions registered under a signature. */
  function Positions(log: seq<Registration>, signature: Signature, leq: Order): set<nat> {
    set i: nat | i < |log| && SchemaSignature(log[i].schema, leq) == signature
  }

  ghost predicate OnlyPosition(log: seq<Registration>, signature: Signature, leq: Order, i: nat) {
    i < |log| && Positions(log, signature, leq) == {i}
  }

  /** Signatures seen once are named, signatures seen more often are duplicates. */
  ghost predicate SignatureOk(index: Index, log: seq<Registration>, leq: Order, s: Signature) {
    && (s in index.duplicates <==> |Positions(log, s, leq)| >= 2)
    && (s in index.nameBySignature <==> |Positions(log, s, leq)| == 1)
    && (s in index.nameBySignature ==>
          exists i: nat :: OnlyPosition(log, s, leq, i) && index.nameBySignature[s] == log[i].name)
  }

  ghost predicate IndexInv(index: Index, log: seq<Registration>, leq: Order) {
    forall s :: SignatureOk(index, log, leq, s)
  }

  lemma {:induction false} PositionsAppend(log: seq<Registration>, r: Registration, s: Signature, leq: Order)
    ensures Positions(log + [r], s, leq)
         == Positions(log, s, leq) + (if SchemaSignature(r.schema, leq) == s then {|log| as nat} else {})
    ensures |log| !in Positions(log, s, leq)
  {
  }

  lemma {:induction false} RegisterKeepsSignature(index: Index, log: seq<Registration>, r: Registration, leq: Order,
                                                  s: Signature)
    requires SignatureOk(index, log, leq, s) && SignatureOk(index, log, leq, SchemaSignature(r.schema, leq))
    ensures SignatureOk(Register(index, r, leq), log + [r], leq, s)
  {
    hide SchemaSignature, Positions;
    var next := Register(index, r, leq);
    PositionsAppend(log, r, s, leq);
    if s in next.nameBySignature {
      if s == SchemaSignature(r.schema, leq) {
        assert Positions(log, s, leq) == {};
        assert OnlyPosition(log + [r], s, leq, |log|);
      } else {
        var i: nat :| OnlyPosition(log, s, leq, i) && index.nameBySignature[s] == log[i].name;
        assert OnlyPosition(log + [r], s, leq, i) && (log + [r])[i] == log[i];
      }
    }
  }

  lemma {:induction false} RegisterKeepsInv(index: Index, log: seq<Registration>, r: Registration, leq: Order)
    requires IndexInv(index, log, leq)
    ensures IndexInv(Register(index, r, leq), log + [r], leq)
  {
    hide SignatureOk, Register, SchemaSignature;
    forall s
      ensures SignatureOk(Register(index, r, leq), log + [r], leq, s)
    {
      RegisterKeepsSignature(index, log, r, leq, s);
    }
  }

  lemma {:induction false} AfterInv(log: seq<Registration>, leq: Order)
    ensures IndexInv(After(log, leq), log, leq)
  {
    if log != [] {
      var n := |log| - 1;
      AfterInv(log[..n], leq);
      RegisterKeepsInv(After(log[..n], leq), log[..n], log[n], leq);
      assert log == log[..n] + [log[n]];
    } else {
      assert forall s :: Positions([], s, leq) == {};
    }
  }

  // ---------- lookups ----------

  function NamedSchema(index: Index, ref: nat, schema: Json, allowStructuralFallback: bool,
                       leq: Order): Option<string> {
    if ref in index.nameByObject then Some(index.nameByObject[ref])
    else if allowStructuralFallback && SchemaSignature(schema, leq) in index.nameBySignature then
      Some(index.nameBySignature[SchemaSignature(schema, leq)])
    else None
  }

  /** Position `i` holds a definition equal to `schema` up to key order, and no other position does. */
  ghost predicate UniquelyDefinedAt(log: seq<Registration>, schema: Json, i: nat) {
    i < |log| && SameUpToOrder(log[i].schema, schema)
    && forall j | 0 <= j < |log| && SameUpToOrder(log[j].schema, schema) :: j == i
  }

  lemma {:induction false} PositionsAreMatches(log: seq<Registration>, schema: Json, leq: Order)
    requires TotalOrder(leq) && Proper(schema) && forall r | r in log :: Proper(r.schema)
    ensures forall i: nat :: i in Positions(log, SchemaSignature(schema, leq), leq)
                             <==> i < |log| && SameUpToOrder(log[i].schema, schema)
  {
    forall i: nat | i < |log|
      ensures SchemaSignature(log[i].schema, leq) == SchemaSignature(schema, leq)
          <==> SameUpToOrder(log[i].schema, schema)
    {
      assert log[i] in log;
      StableIsCanonical(log[i].schema, schema, leq);
    }
  }

  /**
   Structural fallback names a schema if and only if exactly one registered definition is equal to it
   up to key order, and the name is that definition's: no definition is ever confused with another.
   */
  lemma {:induction false} NamedIffUnique(log: seq<Registration>, schema: Json, ref: nat, name: string, leq: Order)
    requires TotalOrder(leq) && Proper(schema) && forall r | r in log :: Proper(r.schema)
    requires forall r | r in log :: r.ref != ref
    ensures NamedSchema(After(log, leq), ref, schema, true, leq) == Some(name)
       <==> exists i: nat :: UniquelyDefinedAt(log, schema, i) && log[i].name == name
    ensures NamedSchema(After(log, leq), ref, schema, false, leq) == None
  {
    hide TotalOrder, SameUpToOrder, SchemaSignature, After, Positions, Proper;
    var s := SchemaSignature(schema, leq);
    var index := After(log, leq);
    AfterInv(log, leq);
    assert SignatureOk(index, log, leq, s);
    ObjectsKnown(log, leq, ref);
    PositionsAreMatches(log, schema, leq);
    if s in index.nameBySignature {
      var i: nat :| OnlyPosition(log, s, leq, i) && index.nameBySignature[s] == log[i].name;
      assert i in Positions(log, s, leq);
      assert UniquelyDefinedAt(log, schema, i);
      assert forall j: nat | UniquelyDefinedAt(log, schema, j) :: j == i;
    } else {
      forall i: nat | UniquelyDefinedAt(log, schema, i)
        ensures false
      {
        UniquePosition(log, schema, s, leq, i);
      }
    }
  }

  lemma {:induction false} UniquePosition(log: seq<Registration>, schema: Json, s: Signature, leq: Order, i: nat)
    requires UniquelyDefinedAt(log, schema, i)
    requires forall j: nat :: j in Positions(log, s, leq) <==> j < |log| && SameUpToOrder(log[j].schema, schema)
    ensures |Positions(log, s, leq)| == 1
  {
    hide SameUpToOrder, SchemaSignature, Positions;
    assert Positions(log, s, leq) == {i};
  }

  lemma {:induction false} ObjectsKnown(log: seq<Registration>, leq: Order, ref: nat)
    ensures ref in After(log, leq).nameByObject <==> exists r :: r in log && r.ref == ref
  {
    if log != [] {
      var n := |log| - 1;
      ObjectsKnown(log[..n], leq, ref);
      assert log == log[..n] + [log[n]];
      assert log[n] in log;
    }
  }

  lemma {:induction false} LastObjectName(log: seq<Registration>, leq: Order, i: nat)
    requires i < |log| && forall j | i < j < |log| :: log[j].ref != log[i].ref
    ensures var names := After(log, leq).nameByObject; log[i].ref in names && names[log[i].ref] == log[i].name
  {
    hide SchemaSignature;
    var n := |log| - 1;
    var before := After(log[..n], leq);
    assert Register(before, log[n], leq).nameByObject == before.nameByObject[log[n].ref := log[n].name];
    if i < n {
      LastObjectName(log[..n], leq, i);
    }
  }

  /** A registered object is named by its last registration, whatever its structure. */
  lemma {:induction false} LastRegistrationNames(log: seq<Registration>, leq: Order, i: nat, schema: Json,
                                                 fallback: bool)
    requires i < |log| && forall j | i < j < |log| :: log[j].ref != log[i].ref
    ensures NamedSchema(After(log, leq), log[i].ref, schema, fallback, leq) == Some(log[i].name)
  {
    hide After;
    LastObjectName(log, leq, i);
  }

  // ---------- the module-level maps ----------

  class Registry {
    var schemaNameByObject: map<nat, string>
    var schemaNameBySignature: map<Signature, string>
    var duplicateSchemaSignatures: set<Signature>
    const leq: Order
    ghost var log: seq<Registration>

    ghost function Value(): Index
      reads this
    {
      Index(schemaNameByObject, schemaNameBySignature, duplicateSchemaSignatures)
    }

    ghost predicate Valid()
      reads this
    {
      Value() == After(log, leq)
    }

    constructor (order: Order)
      ensures Valid() && log == [] && leq == order
    {
      schemaNameByObject := map[];
      schemaNameBySignature := map[];
      duplicateSchemaSignatures := {};
      leq := order;
      log := [];
    }

    method RegisterNamedSchema(ref: nat, name: string, schema: Json)
      requires Valid()
      modifies this
      ensures Valid() && log == old(log) + [Registration(ref, name, schema)]
    {
      assert (log + [Registration(ref, name, schema)])[..|log|] == log;
      log := log + [Registration(ref, name, schema)];
      schemaNameByObject := schemaNameByObject[ref := name];
      var signature := SchemaSignature(schema, leq);
      if signature in duplicateSchemaSignatures {
        return;
      }
      if signature in schemaNameBySignature {
        schemaNameBySignature := schemaNameBySignature - {signature};
        duplicateSchemaSignatures := duplicateSchemaSignatures + {signature};
        return;
      }
      schemaNameBySignature := schemaNameBySignature[signature := name];
    }

    method Lookup(ref: nat, schema: Json, allowStructuralFallback: bool) returns (r: Option<string>)
      requires Valid()
      ensures r == NamedSchema(After(log, leq), ref, schema, allowStructuralFallback, leq)
    {
      r := if ref in schemaNameByObject then Some(schemaNameByObject[ref])
           else if allowStructuralFallback && SchemaSignature(schema, leq) in schemaNameBySignature then
             Some(schemaNameBySignature[SchemaSignature(schema, leq)])
           else None;
    }
  }
}
