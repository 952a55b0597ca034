/** What splitting a key and setting one nested value do to any tree, told by the paths of its texts. */
module TreeAccess {
  import opened Wrappers
  import opened TranslationTree

  /** The parts with dots between them. */
  function WithDots(parts: seq<string>): string
    requires parts != []
  {
    if |parts| == 1 then parts[0] else parts[0] + "." + WithDots(parts[1..])
  }

  lemma {:induction false} WithDotsFirst(first: string, parts: seq<string>)
    requires parts != []
    ensures WithDots([first] + parts) == first + "." + WithDots(parts)
  {
    assert ([first] + parts)[1..] == parts;
  }

  lemma {:induction false} WithDotsLonger(c: char, parts: seq<string>)
    requires parts != []
    ensures WithDots([[c] + parts[0]] + parts[1..]) == [c] + WithDots(parts)
  {
    hide WithDots;
    var first, later := parts[0], parts[1..];
    assert parts == [first] + later;
    if later == [] {
      OneWithDots(first);
      OneWithDots([c] + first);
      assert [first] + later == [first] && [[c] + first] + later == [[c] + first];
    } else {
      WithDotsFirst(first, later);
      WithDotsFirst([c] + first, later);
      assert [c] + first + "." + WithDots(later) == [c] + (first + "." + WithDots(later));
    }
  }

  lemma {:induction false} OneWithDots(part: string)
    ensures WithDots([part]) == part
  {
  }

  /** A key is cut at every dot: put together again the parts are the key, and none of them holds a dot. */
  lemma {:induction false} SplitJoins(key: string)
    ensures Split(key) != [] && WithDots(Split(key)) == key
    ensures forall part | part in Split(key) :: '.' !in part
  {
    hide WithDots;
    if key == "" {
      OneWithDots("");
    } else {
      SplitJoins(key[1..]);
      var rest := Split(key[1..]);
      assert key == [key[0]] + key[1..];
      WithDotsFirst("", rest);
      WithDotsLonger(key[0], rest);
      NoDotAdded(key[0], rest);
    }
  }

  lemma {:induction false} NoDotAdded(c: char, parts: seq<string>)
    requires parts != [] && forall part | part in parts :: '.' !in part
    ensures forall part | part in [""] + parts :: '.' !in part
    ensures c != '.' ==> forall part | part in [[c] + parts[0]] + parts[1..] :: '.' !in part
  {
    assert parts[0] in parts && forall part | part in parts[1..] :: part in parts;
  }

  /** The text at the end of a path. */
  function TextAt(entries: Entries, path: seq<string>): Option<string>
    decreases |path|
  {
    if path == [] then None
    else
      match Get<Tree>(entries, path[0])
      case None => None
      case Some(Leaf(text)) => if |path| == 1 then Some(text) else None
      case Some(Node(inner)) => TextAt(inner, path[1..])
  }

  predicate OnTheWay(a: seq<string>, b: seq<string>) {
    a <= b || b <= a
  }

  lemma {:induction false} TextBelow(entries: Entries, path: seq<string>)
    requires |path| > 1
    ensures TextAt(entries, path) == TextAt(Inner(entries, path[0]), path[1..])
  {
  }

  /**
   Setting a value puts it at the end of its path, takes away what stood on the way there or below it, and leaves every
   other text alone, in any tree.
   */
  lemma {:induction false} SetsOneText(entries: Entries, path: seq<string>, value: string, other: seq<string>)
    requires path != []
    ensures TextAt(SetNested(entries, path, value), other) ==
      if other == path then Some(value)
      else if OnTheWay(path, other) then None
      else TextAt(entries, other)
    decreases |path|
  {
    hide Get, Set;
    if other != [] {
      var key := path[0];
      var below := if |path| == 1 then Leaf(value) else Node(SetNested(Inner(entries, key), path[1..], value));
      GetAfterSet<Tree>(entries, key, below, other[0]);
      if other[0] == key {
        assert path == [key] + path[1..] && other == [key] + other[1..];
        assert OnTheWay(path, other) <==> OnTheWay(path[1..], other[1..]);
        if |path| > 1 {
          SetsOneText(Inner(entries, key), path[1..], value, other[1..]);
          if |other| > 1 {
            TextBelow(entries, other);
          }
        }
      }
    }
  }
}
