/** What the argument scanner finds in any text, well formed or not, told by the positions of its characters. */
module ArgumentPositions {
  import opened Wrappers
  import opened Text
  import opened Selection
  import opened ArgumentScanner

  lemma {:induction false} QuotesAre(c: char)
    ensures IsQuote(c) <==> c as int == 34 || c as int == 39 || c as int == 96
  {
  }

  /** Inside which quotes the character at `i` stands, and whether it is escaped. */
  function QuotesAt(s: string, i: nat): Quoting
    requires i <= |s|
  {
    if i == 0 then QUIET
    else
      var q, c := QuotesAt(s, i - 1), s[i - 1];
      match q.quote
      case None => if c in "'\"`" then Quoting(Some(c), false) else q
      case Some(quote) =>
        if q.escaped then Quoting(Some(quote), false)
        else if c == '\\' then Quoting(Some(quote), true)
        else if c == quote then QUIET
        else q
  }

  predicate Unquoted(s: string, i: nat)
    requires i <= |s|
  {
    QuotesAt(s, i).quote == None
  }

  /** How many brackets of a kind are open before `i`; a closing one without an open one does not count. */
  function OpenAt(s: string, i: nat, open: char, close: char): nat
    requires i <= |s|
  {
    if i == 0 then 0
    else
      var before := OpenAt(s, i - 1, open, close);
      if !Unquoted(s, i - 1) then before
      else if s[i - 1] == open then before + 1
      else if s[i - 1] == close && before > 0 then before - 1
      else before
  }

  /** A comma outside all quotes and brackets. */
  predicate Separates(s: string, i: nat) {
    && i < |s| && s[i] == ',' && Unquoted(s, i)
    && OpenAt(s, i, '(', ')') == 0 && OpenAt(s, i, '[', ']') == 0 && OpenAt(s, i, '{', '}') == 0
  }

  /** The texts between the separators from `start` on, trimmed; the last one only if it is not blank. */
  function Between(s: string, start: nat, separators: seq<nat>): seq<string>
    requires start <= |s| && forall k | 0 <= k < |separators| :: start <= separators[k] < |s|
    requires forall k, l | 0 <= k < l < |separators| :: separators[k] < separators[l]
    decreases |separators|
  {
    if separators == [] then if Trim(s[start..]) == "" then [] else [Trim(s[start..])]
    else [Trim(s[start..separators[0]])] + Between(s, separators[0] + 1, separators[1..])
  }

  lemma {:induction false} NothingBetween(s: string, start: nat)
    requires start <= |s|
    ensures Between(s, start, []) == if Blank(s[start..]) then [] else [Trim(s[start..])]
  {
  }

  lemma {:induction false} BetweenFirst(s: string, start: nat, i: nat, later: seq<nat>)
    requires start <= i < |s| && forall k | 0 <= k < |later| :: i + 1 <= later[k] < |s|
    requires forall k, l | 0 <= k < l < |later| :: later[k] < later[l]
    ensures Between(s, start, [i] + later) == [Trim(s[start..i])] + Between(s, i + 1, later)
  {
    hide Trim;
    var all := [i] + later;
    assert all[0] == i && all[1..] == later;
    assert forall k | 1 <= k < |all| :: all[k] == later[k - 1];
  }

  function DepthsAt(s: string, i: nat): Depths
    requires i <= |s|
  {
    Depths(OpenAt(s, i, '(', ')'), OpenAt(s, i, '[', ']'), OpenAt(s, i, '{', '}'))
  }

  lemma {:induction false} NextAt(s: string, i: nat)
    requires i < |s|
    ensures var q := QuotesAt(s, i);
            && (q.quote.Some? ==> QuotesAt(s, i + 1) == Consume(q, s[i]) && DepthsAt(s, i + 1) == DepthsAt(s, i))
            && (q.quote.None? ==> q == QUIET)
            && (q.quote.None? && IsQuote(s[i]) ==>
                  QuotesAt(s, i + 1) == q.(quote := Some(s[i])) && DepthsAt(s, i + 1) == DepthsAt(s, i))
            && (q.quote.None? && !IsQuote(s[i]) ==>
                  QuotesAt(s, i + 1) == q && DepthsAt(s, i + 1) == Move(DepthsAt(s, i), s[i]))
  {
    UnquotedIsQuiet(s, i);
  }

  lemma {:induction false} UnquotedIsQuiet(s: string, i: nat)
    requires i <= |s|
    ensures Unquoted(s, i) ==> QuotesAt(s, i) == QUIET
  {
    if i > 0 {
      UnquotedIsQuiet(s, i - 1);
    }
  }

  lemma {:induction false} SplitFrom(s: string, start: nat, i: nat) returns (at: seq<nat>)
    requires start <= i <= |s|
    ensures forall k | 0 <= k < |at| :: i <= at[k] < |s| && Separates(s, at[k])
    ensures forall k, l | 0 <= k < l < |at| :: at[k] < at[l]
    ensures forall j | i <= j < |s| && Separates(s, j) :: j in at
    ensures SplitIn(s[i..], s[start..i], DepthsAt(s, i), QuotesAt(s, i)) == Between(s, start, at)
    decreases |s| - i
  {
    hide SplitIn, Trim, Separates, QuotesAt, DepthsAt, Move, IsQuote, Consume, Between;
    if i == |s| {
      at := [];
      NothingBetween(s, start);
      SplitNothing(s[start..], DepthsAt(s, i), QuotesAt(s, i));
      assert s[i..] == "" && s[start..i] == s[start..];
    } else {
      assert s[i..] == [s[i]] + s[i + 1..] && s[start..i] + [s[i]] == s[start..i + 1];
      SplitStep(s[i], s[i + 1..], s[start..i], DepthsAt(s, i), QuotesAt(s, i));
      NextAt(s, i);
      SeparatesIff(s, i);
      if Separates(s, i) {
        var later := SplitFrom(s, i + 1, i + 1);
        at := [i] + later;
        assert s[i + 1..i + 1] == "";
        BetweenFirst(s, start, i, later);
      } else {
        at := SplitFrom(s, start, i + 1);
      }
    }
  }

  lemma {:induction false} SeparatesIff(s: string, i: nat)
    requires i < |s|
    ensures Separates(s, i) <==> QuotesAt(s, i).quote == None && s[i] == ',' && DepthsAt(s, i).Top()
    ensures s[i] == ',' ==> !IsQuote(s[i]) && Move(DepthsAt(s, i), s[i]) == DepthsAt(s, i)
  {
  }

  /** Any text is split at exactly the commas outside quotes and brackets. */
  lemma {:induction false} SplitsAtSeparators(source: string) returns (at: seq<nat>)
    ensures Selects(at, |source|, (i: nat) => Separates(source, i))
    ensures SplitIn(source, "", TOP, QUIET) == Between(source, 0, at)
  {
    hide SplitIn, Separates, Between;
    at := SplitFrom(source, 0, 0);
    assert source[0..] == source && source[0..0] == "";
  }

  // ---------- the closing parenthesis ----------

  /** The parentheses opened before `i` and not closed, the one of the call included. */
  function NestingAt(s: string, i: nat): int
    requires i <= |s|
  {
    if i == 0 then 1
    else
      var before := NestingAt(s, i - 1);
      if !Unquoted(s, i - 1) then before
      else if s[i - 1] == '(' then before + 1
      else if s[i - 1] == ')' then before - 1
      else before
  }

  /** A closing parenthesis outside quotes that matches the one of the call. */
  predicate Closes(s: string, i: nat) {
    i < |s| && s[i] == ')' && Unquoted(s, i) && NestingAt(s, i) == 1
  }

  lemma {:induction false} FindFrom(s: string, i: nat)
    requires i <= |s| && NestingAt(s, i) >= 1
    ensures var found := FindIn(s[i..], NestingAt(s, i), QuotesAt(s, i));
            match found
            case None => forall j | i <= j < |s| :: !Closes(s, j)
            case Some(k) => Closes(s, i + k) && forall j | i <= j < i + k :: !Closes(s, j)
    decreases |s| - i
  {
    hide FindIn, QuotesAt, IsQuote;
    if i == |s| {
      assert s[i..] == "";
      FindNothing(NestingAt(s, i), QuotesAt(s, i));
    } else {
      assert s[i..] == [s[i]] + s[i + 1..];
      FindStep(s[i], s[i + 1..], NestingAt(s, i), QuotesAt(s, i));
      NextAt(s, i);
      BracketsAreNoQuotes();
      if !Closes(s, i) {
        FindFrom(s, i + 1);
      }
    }
  }

  lemma {:induction false} BracketsAreNoQuotes()
    ensures !IsQuote('(') && !IsQuote(')')
  {
  }

  /** In any text the parenthesis found is the first that closes the call, and none is found only if none does. */
  lemma {:induction false} FindsFirstClosing(source: string)
    ensures match FindIn(source, 1, QUIET)
            case None => forall j: nat :: !Closes(source, j)
            case Some(k) => Closes(source, k) && forall j: nat | j < k :: !Closes(source, j)
  {
    hide FindIn;
    assert source[0..] == source;
    FindFrom(source, 0);
  }
}
