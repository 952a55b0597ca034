/**
 Nested translation maps and their dotted-key form.  A JavaScript object is the sequence of its
 own entries in insertion order; keys are non-empty and dot-free.
 */
module TranslationTree {
  import opened Wrappers

  datatype Tree = Leaf(text: string) | Node(entries: Entries)

  type Entries = seq<(string, Tree)>

  /** A `Map<string, string>`: entries in insertion order, keys distinct. */
  type Flat = seq<(string, string)>

  /** One leaf: the keys on the way to it, and its text. */
  type Update = (seq<string>, string)

  // ---------- Map and object operations ----------

  function Set<V>(m: seq<(string, V)>, key: string, value: V): (r: seq<(string, V)>) {
    if m == [] then [(key, value)]
    else if m[0].0 == key then [(key, value)] + m[1..]
    else [m[0]] + Set(m[1..], key, value)
  }

  function Get<V>(m: seq<(string, V)>, key: string): Option<V> {
    if m == [] then None
    else if m[0].0 == key then Some(m[0].1)
    else Get(m[1..], key)
  }

  predicate DistinctKeys<V>(m: seq<(string, V)>) {
    forall i, j | 0 <= i < j < |m| :: m[i].0 != m[j].0
  }

  predicate Absent<V>(m: seq<(string, V)>, key: string) {
    forall i | 0 <= i < |m| :: m[i].0 != key
  }

  lemma {:induction false} SetAbsent<V>(m: seq<(string, V)>, key: string, value: V)
    requires Absent(m, key)
    ensures Set(m, key, value) == m + [(key, value)] && Get(m, key) == None
  {
    if m != [] {
      SetAbsent(m[1..], key, value);
      assert m == [m[0]] + m[1..];
    }
  }

  lemma {:induction false} GetAfterSet<V>(m: seq<(string, V)>, key: string, value: V, other: string)
    ensures Get(Set(m, key, value), other) == if other == key then Some(value) else Get(m, other)
  {
    if m != [] && m[0].0 != key {
      GetAfterSet(m[1..], key, value, other);
    }
  }

  lemma {:induction false} SetAfter<V>(m: seq<(string, V)>, key: string, before: V, value: V)
    requires Absent(m, key)
    ensures Set(m + [(key, before)], key, value) == m + [(key, value)]
    ensures Get(m + [(key, before)], key) == Some(before)
  {
    var all := m + [(key, before)];
    if m != [] {
      SetAfter(m[1..], key, before, value);
      assert all[1..] == m[1..] + [(key, before)];
    }
  }

  // ---------- dotted keys ----------

  predicate KeyOk(key: string) {
    key != "" && '.' !in key
  }

  function FullKey(prefix: string, key: string): string {
    if prefix != "" then prefix + "." + key else key
  }

  /** `dottedKey.split(".")` */
  function Split(s: string): (parts: seq<string>)
    ensures |parts| >= 1
  {
    if s == "" then [""]
    else
      var rest := Split(s[1..]);
      if s[0] == '.' then [""] + rest else [[s[0]] + rest[0]] + rest[1..]
  }

  lemma {:induction false} SplitDotFree(key: string)
    requires '.' !in key
    ensures Split(key) == [key]
  {
    if key != "" {
      SplitDotFree(key[1..]);
      assert [key[0]] + key[1..] == key;
    }
  }

  lemma {:induction false} SplitDot(s: string, key: string)
    requires '.' !in key
    ensures Split(s + "." + key) == Split(s) + [key]
  {
    var whole := s + "." + key;
    if s == "" {
      assert whole[1..] == key;
      SplitDotFree(key);
    } else {
      assert whole[1..] == s[1..] + "." + key;
      SplitDot(s[1..], key);
    }
  }

  /** The parts a dotted prefix stands for; the empty prefix is the root. */
  function Parts(prefix: string): seq<string> {
    if prefix == "" then [] else Split(prefix)
  }

  lemma {:induction false} PartsOfFullKey(prefix: string, key: string)
    requires KeyOk(key)
    ensures FullKey(prefix, key) != "" && Parts(FullKey(prefix, key)) == Parts(prefix) + [key]
  {
    if prefix == "" {
      SplitDotFree(key);
    } else {
      SplitDot(prefix, key);
    }
  }

  function Dot(prefix: string, path: seq<string>): string
    decreases |path|
  {
    if path == [] then prefix else Dot(FullKey(prefix, path[0]), path[1..])
  }

  predicate PathOk(path: seq<string>) {
    forall i | 0 <= i < |path| :: KeyOk(path[i])
  }

  /** Splitting undoes dotting, so distinct paths have distinct dotted keys. */
  lemma {:induction false} SplitDotted(prefix: string, path: seq<string>)
    requires PathOk(path)
    ensures Parts(Dot(prefix, path)) == Parts(prefix) + path
    decreases |path|
  {
    hide Split, Parts, FullKey;
    if path != [] {
      PartsOfFullKey(prefix, path[0]);
      SplitDotted(FullKey(prefix, path[0]), path[1..]);
      assert path == [path[0]] + path[1..];
    }
  }

  lemma {:induction false} DotNonEmpty(prefix: string, path: seq<string>)
    requires prefix != "" || (path != [] && KeyOk(path[0]))
    ensures Dot(prefix, path) != ""
    decreases |path|
  {
    if path != [] {
      DotNonEmpty(FullKey(prefix, path[0]), path[1..]);
    }
  }

  // ---------- flatten ----------

  /** `flattenTranslations` as the source runs it, `out` being the Map it fills. */
  function FlattenInto(entries: Entries, prefix: string, out: Flat): Flat
    decreases entries
  {
    if entries == [] then out
    else FlattenInto(entries[1..], prefix, FlattenEntry(entries[0], prefix, out))
  }

  function FlattenEntry(entry: (string, Tree), prefix: string, out: Flat): Flat
    decreases entry
  {
    match entry.1
    case Leaf(text) => Set(out, FullKey(prefix, entry.0), text)
    case Node(inner) => FlattenInto(inner, FullKey(prefix, entry.0), out)
  }

  function Flatten(root: Entries): Flat {
    FlattenInto(root, "", [])
  }

  method FlattenTranslations(entries: Entries, prefix: string, before: Flat) returns (out: Flat)
    ensures out == FlattenInto(entries, prefix, before)
    decreases entries
  {
    out := before;
    for i := 0 to |entries|
      invariant FlattenInto(entries, prefix, before) == FlattenInto(entries[i..], prefix, out)
    {
      var fullKey := FullKey(prefix, entries[i].0);
      assert entries decreases to entries[i];
      match entries[i].1 {
        case Leaf(text) => out := Set(out, fullKey, text);
        case Node(inner) => out := FlattenTranslations(inner, fullKey, out);
      }
      assert entries[i..][1..] == entries[i + 1..];
    }
  }

  // ---------- set one nested value ----------

  /** The nested map a key leads to; anything else is replaced by an empty one. */
  function Inner(entries: Entries, key: string): Entries {
    match Get<Tree>(entries, key)
    case Some(Node(inner)) => inner
    case _ => []
  }

  /** `setNestedValue` as a function: descend along `parts`, creating maps where there are none. */
  function SetNested(entries: Entries, parts: seq<string>, value: string): Entries
    requires parts != []
    decreases |parts|
  {
    if |parts| == 1 then Set(entries, parts[0], Leaf(value))
    else Set(entries, parts[0], Node(SetNested(Inner(entries, parts[0]), parts[1..], value)))
  }

  predicate HasMap(entries: Entries, path: seq<string>)
    decreases |path|
  {
    path != [] ==> Get<Tree>(entries, path[0]).Some? && Get<Tree>(entries, path[0]).value.Node?
                   && HasMap(Inner(entries, path[0]), path[1..])
  }

  /** The map the cursor stands on after walking `path`. */
  function MapAt(entries: Entries, path: seq<string>): Entries
    requires HasMap(entries, path)
    decreases |path|
  {
    if path == [] then entries else MapAt(Inner(entries, path[0]), path[1..])
  }

  /** `cursor[key] = value`, seen from the root. */
  function AssignAt(entries: Entries, path: seq<string>, key: string, value: Tree): Entries
    requires HasMap(entries, path)
    decreases |path|
  {
    if path == [] then Set(entries, key, value)
    else Set(entries, path[0], Node(AssignAt(Inner(entries, path[0]), path[1..], key, value)))
  }

  method SetNestedValue(root: Entries, dottedKey: string, value: string) returns (next: Entries)
    ensures next == SetNested(root, Split(dottedKey), value)
  {
    var parts := Split(dottedKey);
    var last := |parts| - 1;
    next := root;
    for index := 0 to last
      invariant HasMap(next, parts[..index])
      invariant SetNested(next, parts, value) == SetNested(root, parts, value)
    {
      var path, key := parts[..index], parts[index];
      assert parts == path + [key] + parts[index + 1..] && parts[..index + 1] == path + [key];
      match Get<Tree>(MapAt(next, path), key) {
        case Some(Node(_)) =>
          CursorDescends(next, path, key);
        case _ =>
          CursorCreates(next, path, key, parts[index + 1..], value);
          next := AssignAt(next, path, key, Node([]));
      }
    }
    assert parts == parts[..last] + [parts[last]];
    CursorAssigns(next, parts[..last], parts[last], value);
    next := AssignAt(next, parts[..last], parts[last], Leaf(value));
  }

  lemma {:induction false} GetSet<V>(m: seq<(string, V)>, key: string, before: V, value: V)
    ensures Get(Set(m, key, before), key) == Some(before)
    ensures Set(Set(m, key, before), key, value) == Set(m, key, value)
  {
    if m != [] && m[0].0 != key {
      GetSet(m[1..], key, before, value);
    }
  }

  lemma {:induction false} CursorDescends(entries: Entries, path: seq<string>, key: string)
    requires HasMap(entries, path) && HasMap(MapAt(entries, path), [key])
    ensures HasMap(entries, path + [key])
    decreases |path|
  {
    if path == [] {
      assert path + [key] == [key];
    } else {
      CursorDescends(Inner(entries, path[0]), path[1..], key);
      assert (path + [key])[1..] == path[1..] + [key];
    }
  }

  /** Creating a missing map does not change what the whole assignment will produce. */
  lemma {:induction false} CursorCreates(entries: Entries, path: seq<string>, key: string, rest: seq<string>,
                                         value: string)
    requires HasMap(entries, path) && rest != []
    requires Inner(MapAt(entries, path), key) == []
    ensures var next := AssignAt(entries, path, key, Node([]));
            && HasMap(next, path + [key])
            && SetNested(next, path + [key] + rest, value) == SetNested(entries, path + [key] + rest, value)
    decreases |path|
  {
    var parts := path + [key] + rest;
    if path == [] {
      assert parts[0] == key && parts[1..] == rest && path + [key] == [key];
      GetSet(entries, key, Node([]), Node(SetNested([], rest, value)));
    } else {
      var inner := Inner(entries, path[0]);
      CursorCreates(inner, path[1..], key, rest, value);
      assert parts[1..] == path[1..] + [key] + rest;
      assert (path + [key])[1..] == path[1..] + [key];
      GetSet(entries, path[0], Node(AssignAt(inner, path[1..], key, Node([]))),
          Node(SetNested(inner, parts[1..], value)));
    }
  }

  lemma {:induction false} CursorAssigns(entries: Entries, path: seq<string>, key: string, value: string)
    requires HasMap(entries, path)
    ensures AssignAt(entries, path, key, Leaf(value)) == SetNested(entries, path + [key], value)
    decreases |path|
  {
    if path == [] {
      assert path + [key] == [key];
    } else {
      CursorAssigns(Inner(entries, path[0]), path[1..], key, value);
      assert (path + [key])[1..] == path[1..] + [key];
    }
  }

  // ---------- the leaves of a tree ----------

  function Under(key: string, ups: seq<Update>): seq<Update> {
    seq(|ups|, i requires 0 <= i < |ups| => ([key] + ups[i].0, ups[i].1))
  }

  function Leaves(entries: Entries): seq<Update> {
    if entries == [] then []
    else LeavesOfEntry(entries[0]) + Leaves(entries[1..])
  }

  function LeavesOfEntry(entry: (string, Tree)): seq<Update> {
    match entry.1
    case Leaf(text) => [([entry.0], text)]
    case Node(inner) => Under(entry.0, Leaves(inner))
  }

  function Dotted(prefix: string, ups: seq<Update>): Flat {
    seq(|ups|, i requires 0 <= i < |ups| => (Dot(prefix, ups[i].0), ups[i].1))
  }

  predicate Proper(entries: Entries) {
    && DistinctKeys(entries)
    && forall i | 0 <= i < |entries| :: ProperEntry(entries[i])
  }

  predicate ProperEntry(entry: (string, Tree)) {
    KeyOk(entry.0) && (entry.1.Node? ==> Proper(entry.1.entries))
  }

  predicate NoEmptyInner(entries: Entries) {
    forall i | 0 <= i < |entries| :: NoEmptyEntry(entries[i])
  }

  predicate NoEmptyEntry(entry: (string, Tree)) {
    entry.1.Node? ==> entry.1.entries != [] && NoEmptyInner(entry.1.entries)
  }

  /** Every leaf's path is non-empty, made of legal keys, and starts with one of the map's keys. */
  predicate Rooted(ups: seq<Update>, entries: Entries) {
    forall i | 0 <= i < |ups| ::
      PathOk(ups[i].0) && ups[i].0 != [] && exists j | 0 <= j < |entries| :: entries[j].0 == ups[i].0[0]
  }

  lemma {:induction false} LeavesRooted(entries: Entries)
    requires Proper(entries)
    ensures Rooted(Leaves(entries), entries)
  {
    if entries != [] {
      var head, rest := LeavesOfEntry(entries[0]), entries[1..];
      LeavesRooted(rest);
      assert entries decreases to entries[0];
      if entries[0].1.Node? {
        LeavesRooted(entries[0].1.entries);
      }
      forall i | 0 <= i < |Leaves(entries)|
        ensures var up := Leaves(entries)[i];
                PathOk(up.0) && up.0 != [] && exists j | 0 <= j < |entries| :: entries[j].0 == up.0[0]
      {
        if i < |head| {
          assert Leaves(entries)[i] == head[i] && entries[0].0 == head[i].0[0];
        } else {
          var up := Leaves(rest)[i - |head|];
          var j :| 0 <= j < |rest| && rest[j].0 == up.0[0];
          assert entries[j + 1].0 == up.0[0];
        }
      }
    }
  }

  /** With legal keys no two leaves share a dotted key, so flattening only ever appends. */
  lemma {:induction false} FlattenAppends(entries: Entries, prefix: string, out: Flat)
    requires Proper(entries)
    requires forall i | 0 <= i < |Leaves(entries)| :: Absent(out, Dot(prefix, Leaves(entries)[i].0))
    ensures FlattenInto(entries, prefix, out) == out + Dotted(prefix, Leaves(entries))
    decreases entries
  {
    hide Dot, FlattenEntry, LeavesOfEntry, ProperEntry, Leaves, Absent;
    if entries == [] {
      NoLeaves();
    } else {
      var head, rest := LeavesOfEntry(entries[0]), entries[1..];
      assert entries decreases to entries[0];
      LeavesCons(entries);
      assert forall i | 0 <= i < |head| :: Leaves(entries)[i] == head[i];
      FlattenEntryAppends(entries[0], prefix, out);
      var next := out + Dotted(prefix, head);
      forall i | 0 <= i < |Leaves(rest)|
        ensures Absent(next, Dot(prefix, Leaves(rest)[i].0))
      {
        assert Leaves(entries)[|head| + i] == Leaves(rest)[i];
        OtherSubtree(entries, prefix, i);
        AbsentFromBoth(out, Dotted(prefix, head), Dot(prefix, Leaves(rest)[i].0));
      }
      FlattenAppends(rest, prefix, next);
      assert Dotted(prefix, Leaves(entries)) == Dotted(prefix, head) + Dotted(prefix, Leaves(rest));
    }
  }

  lemma {:induction false} AbsentFromBoth(a: Flat, b: Flat, key: string)
    requires Absent(a, key) && Absent(b, key)
    ensures Absent(a + b, key)
  {
  }

  lemma {:induction false} FlattenEntryAppends(entry: (string, Tree), prefix: string, out: Flat)
    requires ProperEntry(entry)
    requires forall i | 0 <= i < |LeavesOfEntry(entry)| :: Absent(out, Dot(prefix, LeavesOfEntry(entry)[i].0))
    ensures FlattenEntry(entry, prefix, out) == out + Dotted(prefix, LeavesOfEntry(entry))
    decreases entry
  {
    var ups := LeavesOfEntry(entry);
    match entry.1
    case Leaf(text) =>
      assert ups == [([entry.0], text)];
      assert Dot(FullKey(prefix, entry.0), ups[0].0[1..]) == FullKey(prefix, entry.0);
      SetAbsent(out, FullKey(prefix, entry.0), text);
    case Node(inner) =>
      var below := Leaves(inner);
      forall i | 0 <= i < |below|
        ensures Dot(FullKey(prefix, entry.0), below[i].0) == Dot(prefix, ups[i].0)
      {
        assert ups[i].0[1..] == below[i].0;
      }
      FlattenAppends(inner, FullKey(prefix, entry.0), out);
  }

  lemma {:induction false} OtherSubtree(entries: Entries, prefix: string, i: nat)
    requires Proper(entries) && entries != [] && i < |Leaves(entries[1..])|
    ensures Absent(Dotted(prefix, LeavesOfEntry(entries[0])), Dot(prefix, Leaves(entries[1..])[i].0))
  {
    var head, rest := LeavesOfEntry(entries[0]), entries[1..];
    LeavesRooted(rest);
    LeavesRooted([entries[0]]);
    assert Leaves([entries[0]]) == head + Leaves([]);
    var up := Leaves(rest)[i];
    var j :| 0 <= j < |rest| && rest[j].0 == up.0[0];
    assert entries[j + 1].0 == up.0[0];
    forall h | 0 <= h < |head|
      ensures Dot(prefix, head[h].0) != Dot(prefix, up.0)
    {
      assert Leaves([entries[0]])[h] == head[h];
      SplitDotted(prefix, head[h].0);
      SplitDotted(prefix, up.0);
      assert (Parts(prefix) + head[h].0)[|Parts(prefix)|] == entries[0].0;
      assert (Parts(prefix) + up.0)[|Parts(prefix)|] == rest[j].0;
    }
  }

  // ---------- replaying the leaves rebuilds the tree ----------

  function Replay(root: Entries, flat: Flat): Entries
    decreases |flat|
  {
    if flat == [] then root
    else Replay(SetNested(root, Split(flat[0].0), flat[0].1), flat[1..])
  }

  function ReplayPaths(root: Entries, ups: seq<Update>): Entries
    requires forall i | 0 <= i < |ups| :: ups[i].0 != []
    decreases |ups|
  {
    if ups == [] then root
    else ReplayPaths(SetNested(root, ups[0].0, ups[0].1), ups[1..])
  }

  lemma {:induction false} ReplayDotted(root: Entries, ups: seq<Update>)
    requires forall i | 0 <= i < |ups| :: ups[i].0 != [] && PathOk(ups[i].0)
    ensures Replay(root, Dotted("", ups)) == ReplayPaths(root, ups)
    decreases |ups|
  {
    if ups != [] {
      SplitDotted("", ups[0].0);
      DotNonEmpty("", ups[0].0);
      assert [] + ups[0].0 == ups[0].0;
      assert Dotted("", ups)[1..] == Dotted("", ups[1..]);
      ReplayDotted(SetNested(root, ups[0].0, ups[0].1), ups[1..]);
    }
  }

  lemma {:induction false} ReplaySplit(root: Entries, a: seq<Update>, b: seq<Update>)
    requires forall i | 0 <= i < |a| :: a[i].0 != []
    requires forall i | 0 <= i < |b| :: b[i].0 != []
    ensures ReplayPaths(root, a + b) == ReplayPaths(ReplayPaths(root, a), b)
    decreases |a|
  {
    if a == [] {
      assert a + b == b;
    } else {
      assert (a + b)[1..] == a[1..] + b;
      ReplaySplit(SetNested(root, a[0].0, a[0].1), a[1..], b);
    }
  }

  lemma {:induction false} ReplayUnder(root: Entries, key: string, inner: Entries, ups: seq<Update>)
    requires Absent(root, key)
    requires forall i | 0 <= i < |ups| :: ups[i].0 != []
    ensures ReplayPaths(root + [(key, Node(inner))], Under(key, ups)) == root + [(key, Node(ReplayPaths(inner, ups)))]
    decreases |ups|
  {
    if ups != [] {
      var next := SetNested(inner, ups[0].0, ups[0].1);
      assert ([key] + ups[0].0)[1..] == ups[0].0;
      SetAfter(root, key, Node(inner), Node(next));
      assert Under(key, ups)[1..] == Under(key, ups[1..]);
      ReplayUnder(root, key, next, ups[1..]);
    }
  }

  lemma {:induction false} ReplayFreshUnder(root: Entries, key: string, ups: seq<Update>)
    requires Absent(root, key) && ups != []
    requires forall i | 0 <= i < |ups| :: ups[i].0 != []
    ensures ReplayPaths(root, Under(key, ups)) == root + [(key, Node(ReplayPaths([], ups)))]
  {
    var next := SetNested([], ups[0].0, ups[0].1);
    assert ([key] + ups[0].0)[1..] == ups[0].0;
    SetAbsent<Tree>(root, key, Node(next));
    assert Under(key, ups)[1..] == Under(key, ups[1..]);
    ReplayUnder(root, key, next, ups[1..]);
  }

  lemma {:induction false} ReplayRebuilds(root: Entries, entries: Entries)
    requires Proper(entries) && NoEmptyInner(entries)
    requires forall i | 0 <= i < |entries| :: Absent(root, entries[i].0)
    ensures Rooted(Leaves(entries), entries)
    ensures ReplayPaths(root, Leaves(entries)) == root + entries
    decreases entries
  {
    hide ProperEntry, NoEmptyEntry, Leaves, LeavesOfEntry;
    LeavesRooted(entries);
    if entries == [] {
      NoLeaves();
    } else {
      hide ReplayPaths;
      var head, rest := LeavesOfEntry(entries[0]), entries[1..];
      assert entries decreases to entries[0];
      LeavesCons(entries);
      ReplayEntry(root, entries[0]);
      ReplayRebuilds(root + [entries[0]], rest);
      ReplaySplit(root, head, Leaves(rest));
      assert root + [entries[0]] + rest == root + entries;
    }
  }

  lemma {:induction false} LeavesExist(entries: Entries)
    requires entries != [] && ReplaysFrom(Leaves(entries), entries)
    ensures Leaves(entries) != []
  {
  }

  ghost predicate ReplaysFrom(ups: seq<Update>, entries: Entries) {
    (forall i | 0 <= i < |ups| :: ups[i].0 != []) && ReplayPaths([], ups) == entries
  }

  lemma {:induction false} ReplayEntry(root: Entries, entry: (string, Tree))
    requires ProperEntry(entry) && NoEmptyEntry(entry) && Absent(root, entry.0)
    ensures forall i | 0 <= i < |LeavesOfEntry(entry)| :: LeavesOfEntry(entry)[i].0 != []
    ensures ReplayPaths(root, LeavesOfEntry(entry)) == root + [entry]
    decreases entry
  {
    match entry.1
    case Leaf(text) => SetAbsent(root, entry.0, entry.1);
    case Node(inner) =>
      ReplayRebuilds([], inner);
      assert [] + inner == inner;
      LeavesExist(inner);
      ReplayFreshUnder(root, entry.0, Leaves(inner));
  }

  // ---------- the round trips ----------

  /** The tree with every leaf text replaced by `f(dotted key, text)`, without empty inner maps. */
  function Relabel(entries: Entries, prefix: string, f: (string, string) -> string): (r: Entries)
    ensures forall i | 0 <= i < |r| :: exists j | 0 <= j < |entries| :: entries[j].0 == r[i].0
    decreases entries
  {
    if entries == [] then []
    else
      var rest := Relabel(entries[1..], prefix, f);
      assert forall j | 0 <= j < |entries[1..]| :: entries[1..][j] == entries[j + 1];
      RelabelEntry(entries[0], prefix, f) + rest
  }

  function RelabelEntry(entry: (string, Tree), prefix: string, f: (string, string) -> string): (r: Entries)
    ensures |r| <= 1 && (r != [] ==> r[0].0 == entry.0)
    decreases entry
  {
    var fullKey := FullKey(prefix, entry.0);
    match entry.1
    case Leaf(text) => [(entry.0, Leaf(f(fullKey, text)))]
    case Node(inner) =>
      var next := Relabel(inner, fullKey, f);
      if next == [] then [] else [(entry.0, Node(next))]
  }

  function Relabelled(prefix: string, ups: seq<Update>, f: (string, string) -> string): seq<Update> {
    seq(|ups|, i requires 0 <= i < |ups| => (ups[i].0, f(Dot(prefix, ups[i].0), ups[i].1)))
  }

  lemma {:induction false} RelabelLeaves(entries: Entries, prefix: string, f: (string, string) -> string)
    requires Proper(entries)
    ensures Leaves(Relabel(entries, prefix, f)) == Relabelled(prefix, Leaves(entries), f)
    ensures Proper(Relabel(entries, prefix, f)) && NoEmptyInner(Relabel(entries, prefix, f))
    decreases entries
  {
    hide RelabelEntry, Relabelled, Proper, ProperEntry, NoEmptyInner, NoEmptyEntry, Leaves, LeavesOfEntry, Absent;
    if entries == [] {
      NothingIsEmpty();
      NoLeaves();
      NothingRelabelled(prefix, f);
    } else {
      assert entries decreases to entries[0];
      var head, rest := RelabelEntry(entries[0], prefix, f), Relabel(entries[1..], prefix, f);
      ProperParts(entries);
      RelabelEntryLeaves(entries[0], prefix, f);
      RelabelLeaves(entries[1..], prefix, f);
      LeavesCons(entries);
      RelabelledConcat(prefix, LeavesOfEntry(entries[0]), Leaves(entries[1..]), f);
      KeysOfRelabel(entries, prefix, f);
      JoinEntries(head, rest);
    }
  }

  lemma {:induction false} NothingRelabelled(prefix: string, f: (string, string) -> string)
    ensures Relabelled(prefix, [], f) == []
  {
  }

  lemma {:induction false} ProperParts(entries: Entries)
    requires Proper(entries) && entries != []
    ensures ProperEntry(entries[0]) && Proper(entries[1..]) && Absent(entries[1..], entries[0].0)
  {
    hide ProperEntry;
  }

  lemma {:induction false} KeysOfRelabel(entries: Entries, prefix: string, f: (string, string) -> string)
    requires entries != [] && Absent(entries[1..], entries[0].0)
    ensures Absent(Relabel(entries[1..], prefix, f), entries[0].0)
  {
    hide Relabel;
  }

  lemma {:induction false} JoinEntries(head: Entries, rest: Entries)
    requires |head| <= 1 && Proper(rest) && NoEmptyInner(rest)
    requires head != [] ==> ProperEntry(head[0]) && NoEmptyEntry(head[0]) && Absent(rest, head[0].0)
    ensures Leaves(head + rest) == (if head == [] then [] else LeavesOfEntry(head[0])) + Leaves(rest)
    ensures Proper(head + rest) && NoEmptyInner(head + rest)
  {
    hide ProperEntry, NoEmptyInner, NoEmptyEntry, Leaves, LeavesOfEntry;
    if head == [] {
      assert head + rest == rest && [] + Leaves(rest) == Leaves(rest);
    } else {
      assert (head + rest)[0] == head[0] && (head + rest)[1..] == rest;
      LeavesCons(head + rest);
      NoEmptyInnerCons(head + rest);
    }
  }

  lemma {:induction false} NoLeaves()
    ensures Leaves([]) == []
  {
  }

  lemma {:induction false} LeavesCons(entries: Entries)
    requires entries != []
    ensures Leaves(entries) == LeavesOfEntry(entries[0]) + Leaves(entries[1..])
  {
  }

  lemma {:induction false} RelabelledConcat(prefix: string, a: seq<Update>, b: seq<Update>,
                                            f: (string, string) -> string)
    ensures Relabelled(prefix, a + b, f) == Relabelled(prefix, a, f) + Relabelled(prefix, b, f)
  {
  }

  lemma {:induction false} RelabelEntryLeaves(entry: (string, Tree), prefix: string, f: (string, string) -> string)
    requires ProperEntry(entry)
    ensures var r := RelabelEntry(entry, prefix, f);
            var ups := Relabelled(prefix, LeavesOfEntry(entry), f);
            if r == [] then ups == [] else LeavesOfEntry(r[0]) == ups && ProperEntry(r[0]) && NoEmptyEntry(r[0])
    decreases entry
  {
    var fullKey := FullKey(prefix, entry.0);
    var ups := LeavesOfEntry(entry);
    match entry.1
    case Leaf(text) =>
      assert ups == [([entry.0], text)];
      assert ups[0].0[1..] == [];
      assert Dot(prefix, ups[0].0) == fullKey;
    case Node(inner) =>
      RelabelLeaves(inner, fullKey, f);
      forall i | 0 <= i < |ups|
        ensures Dot(prefix, ups[i].0) == Dot(fullKey, Leaves(inner)[i].0)
      {
        assert ups[i].0[1..] == Leaves(inner)[i].0;
      }
      assert Under(entry.0, Relabelled(fullKey, Leaves(inner), f)) == Relabelled(prefix, ups, f);
  }

  lemma {:induction false} FlattenIsDotted(entries: Entries)
    requires Proper(entries)
    ensures Flatten(entries) == Dotted("", Leaves(entries))
  {
    FlattenAppends(entries, "", []);
    assert [] + Dotted("", Leaves(entries)) == Dotted("", Leaves(entries));
  }

  function WithTexts(flat: Flat, f: (string, string) -> string): Flat {
    seq(|flat|, i requires 0 <= i < |flat| => (flat[i].0, f(flat[i].0, flat[i].1)))
  }

  /** Replaying a flattened tree with other texts rebuilds it with those texts, and flattens back to them. */
  lemma {:induction false} RebuildWithTexts(entries: Entries, f: (string, string) -> string)
    requires Proper(entries)
    ensures var flat := WithTexts(Flatten(entries), f);
            Replay([], flat) == Relabel(entries, "", f) && Flatten(Replay([], flat)) == flat
  {
    var next := Relabel(entries, "", f);
    RelabelLeaves(entries, "", f);
    FlattenIsDotted(entries);
    FlattenIsDotted(next);
    assert Dotted("", Leaves(next)) == WithTexts(Flatten(entries), f);
    ReplayRebuilds([], next);
    ReplayDotted([], Leaves(next));
    assert [] + next == next;
  }

  function SameText(key: string, text: string): string {
    text
  }

  lemma {:induction false} RelabelSame(entries: Entries, prefix: string)
    ensures Relabel(entries, prefix, SameText) == entries <==> NoEmptyInner(entries)
    decreases entries
  {
    hide RelabelEntry, NoEmptyEntry, NoEmptyInner;
    if entries == [] {
      NothingIsEmpty();
    } else {
      assert entries decreases to entries[0];
      var head, rest := RelabelEntry(entries[0], prefix, SameText), Relabel(entries[1..], prefix, SameText);
      RelabelEntrySame(entries[0], prefix);
      RelabelSame(entries[1..], prefix);
      RelabelShrinks(entries[1..], prefix);
      assert entries == [entries[0]] + entries[1..];
      SameParts(head, rest, entries[0], entries[1..]);
      NoEmptyInnerCons(entries);
    }
  }

  lemma {:induction false} NothingIsEmpty()
    ensures NoEmptyInner([])
  {
  }

  lemma {:induction false} SameParts<T>(head: seq<T>, rest: seq<T>, first: T, later: seq<T>)
    requires |head| <= 1 && |rest| <= |later|
    ensures head + rest == [first] + later <==> head == [first] && rest == later
  {
    if head + rest == [first] + later {
      assert |head| == 1;
      assert head == (head + rest)[..1] && rest == (head + rest)[1..];
      assert later == ([first] + later)[1..];
    }
  }

  lemma {:induction false} NoEmptyInnerCons(entries: Entries)
    requires entries != []
    ensures NoEmptyInner(entries) <==> NoEmptyEntry(entries[0]) && NoEmptyInner(entries[1..])
  {
    assert forall i | 0 <= i < |entries[1..]| :: entries[1..][i] == entries[i + 1];
    assert forall i | 1 <= i < |entries| :: entries[i] == entries[1..][i - 1];
  }

  lemma {:induction false} RelabelShrinks(entries: Entries, prefix: string)
    ensures |Relabel(entries, prefix, SameText)| <= |entries|
  {
    if entries != [] {
      RelabelShrinks(entries[1..], prefix);
    }
  }

  lemma {:induction false} RelabelEntrySame(entry: (string, Tree), prefix: string)
    ensures RelabelEntry(entry, prefix, SameText) == [entry] <==> NoEmptyEntry(entry)
    decreases entry
  {
    if entry.1.Node? {
      RelabelSame(entry.1.entries, FullKey(prefix, entry.0));
    }
  }

  /** Flattening loses exactly the empty inner maps: the round trip holds if and only if there are none. */
  lemma {:induction false} TreeRoundTrip(entries: Entries)
    requires Proper(entries)
    ensures Replay([], Flatten(entries)) == entries <==> NoEmptyInner(entries)
  {
    RebuildWithTexts(entries, SameText);
    assert WithTexts(Flatten(entries), SameText) == Flatten(entries);
    RelabelSame(entries, "");
  }
}
