/**
 The quote- and bracket-aware scanner of call arguments: it finds the parenthesis that closes a
 call and splits the text between into arguments.  A grammar of argument texts, which knows
 nothing of the scanner's state, says what these two are meant to invert.
 */
module ArgumentScanner {
  import opened Wrappers
  import opened Text

  predicate IsQuote(ch: char) {
    ch == '\'' || ch == '"' || ch == '`'
  }

  // ---------- the scan state ----------

  datatype Quoting = Quoting(quote: Option<char>, escaped: bool)

  const QUIET := Quoting(None, false)

  function Consume(q: Quoting, ch: char): Quoting
    requires q.quote.Some?
  {
    if q.escaped then q.(escaped := false)
    else if ch == '\\' then q.(escaped := true)
    else if Some(ch) == q.quote then q.(quote := None)
    else q
  }

  class QuoteScanState {
    var quote: Option<char>
    var escaped: bool

    constructor ()
      ensures Value() == QUIET
    {
      quote := None;
      escaped := false;
    }

    function Value(): Quoting
      reads this
    {
      Quoting(quote, escaped)
    }

    method BeginQuotedSection(ch: char) returns (begun: bool)
      modifies this
      ensures begun == IsQuote(ch)
      ensures Value() == if begun then old(Value()).(quote := Some(ch)) else old(Value())
    {
      if ch != '\'' && ch != '"' && ch != '`' {
        return false;
      }
      quote := Some(ch);
      return true;
    }

    method ConsumeQuotedChar(ch: char) returns (consumed: bool)
      modifies this
      ensures consumed == old(quote).Some?
      ensures Value() == if consumed then Consume(old(Value()), ch) else old(Value())
    {
      if quote == None {
        return false;
      }
      if escaped {
        escaped := false;
        return true;
      }
      if ch == '\\' {
        escaped := true;
        return true;
      }
      if Some(ch) == quote {
        quote := None;
      }
      return true;
    }
  }

  // ---------- the closing parenthesis ----------

  function FoundAfter(found: Option<nat>, by': nat): Option<nat> {
    match found
    case Some(i) => Some(i + by')
    case None => None
  }

  /** Where the parenthesis closing `depth` open ones stands in `s`. */
  function FindIn(s: string, depth: nat, q: Quoting): Option<nat>
    decreases |s|
  {
    if s == "" then None
    else if q.quote.Some? then FoundAfter(FindIn(s[1..], depth, Consume(q, s[0])), 1)
    else if IsQuote(s[0]) then FoundAfter(FindIn(s[1..], depth, q.(quote := Some(s[0]))), 1)
    else if s[0] == '(' then FoundAfter(FindIn(s[1..], depth + 1, q), 1)
    else if s[0] == ')' && depth <= 1 then Some(0)
    else if s[0] == ')' then FoundAfter(FindIn(s[1..], depth - 1, q), 1)
    else FoundAfter(FindIn(s[1..], depth, q), 1)
  }

  function After(source: string, index: nat): string {
    if index > |source| then "" else source[index..]
  }

  lemma {:induction false} AfterStep(source: string, i: nat)
    ensures i >= |source| ==> After(source, i) == ""
    ensures i < |source| ==> After(source, i) == [source[i]] + After(source, i + 1)
  {
  }

  lemma {:induction false} FindNothing(depth: nat, q: Quoting)
    ensures FindIn("", depth, q) == None
  {
  }

  lemma {:induction false} FindStep(ch: char, tail: string, depth: nat, q: Quoting)
    ensures FindIn([ch] + tail, depth, q) ==
      if q.quote.Some? then FoundAfter(FindIn(tail, depth, Consume(q, ch)), 1)
      else if IsQuote(ch) then FoundAfter(FindIn(tail, depth, q.(quote := Some(ch))), 1)
      else if ch == '(' then FoundAfter(FindIn(tail, depth + 1, q), 1)
      else if ch == ')' && depth <= 1 then Some(0)
      else if ch == ')' then FoundAfter(FindIn(tail, depth - 1, q), 1)
      else FoundAfter(FindIn(tail, depth, q), 1)
  {
    assert ([ch] + tail)[1..] == tail;
  }

  method FindMatchingParen(source: string, openIndex: nat) returns (r: int)
    ensures r == match FindIn(After(source, openIndex + 1), 1, QUIET)
                 case Some(i) => openIndex + 1 + i
                 case None => -1
  {
    hide FindIn, After, Consume;
    var depth := 1;
    var state := new QuoteScanState();
    var i := openIndex + 1;
    while i < |source|
      invariant openIndex < i && (i <= |source| || i == openIndex + 1) && depth >= 1
      invariant FindIn(After(source, openIndex + 1), 1, QUIET)
             == FoundAfter(FindIn(After(source, i), depth, state.Value()), i - openIndex - 1)
    {
      var ch := source[i];
      AfterStep(source, i);
      FindStep(ch, After(source, i + 1), depth, state.Value());
      var consumed := state.ConsumeQuotedChar(ch);
      if !consumed {
        var begun := state.BeginQuotedSection(ch);
        if begun {
        } else if ch == '(' {
          depth := depth + 1;
        } else if ch == ')' {
          depth := depth - 1;
          if depth == 0 {
            return i;
          }
        }
      }
      i := i + 1;
    }
    AfterStep(source, i);
    assert FindIn("", depth, state.Value()) == None by {
      FindNothing(depth, state.Value());
    }
    return -1;
  }

  // ---------- the top-level arguments ----------

  datatype Depths = Depths(paren: nat, bracket: nat, brace: nat) {
    predicate Top() {
      paren == 0 && bracket == 0 && brace == 0
    }
  }

  function Less(n: nat): nat {
    if n > 0 then n - 1 else 0
  }

  /** Brackets change the depth of their kind; a stray closing one is ignored. */
  function Move(d: Depths, ch: char): Depths {
    if ch == '(' then d.(paren := d.paren + 1)
    else if ch == ')' then d.(paren := Less(d.paren))
    else if ch == '[' then d.(bracket := d.bracket + 1)
    else if ch == ']' then d.(bracket := Less(d.bracket))
    else if ch == '{' then d.(brace := d.brace + 1)
    else if ch == '}' then d.(brace := Less(d.brace))
    else d
  }

  function SplitIn(s: string, current: string, d: Depths, q: Quoting): seq<string>
    decreases |s|
  {
    if s == "" then (if Blank(current) then [] else [Trim(current)])
    else if q.quote.Some? then SplitIn(s[1..], current + [s[0]], d, Consume(q, s[0]))
    else if IsQuote(s[0]) then SplitIn(s[1..], current + [s[0]], d, q.(quote := Some(s[0])))
    else if s[0] == ',' && d.Top() then [Trim(current)] + SplitIn(s[1..], "", d, q)
    else SplitIn(s[1..], current + [s[0]], Move(d, s[0]), q)
  }

  const TOP := Depths(0, 0, 0)

  lemma {:induction false} SplitNothing(current: string, d: Depths, q: Quoting)
    ensures SplitIn("", current, d, q) == if Blank(current) then [] else [Trim(current)]
  {
  }

  lemma {:induction false} SplitStep(ch: char, tail: string, current: string, d: Depths, q: Quoting)
    ensures SplitIn([ch] + tail, current, d, q) ==
      if q.quote.Some? then SplitIn(tail, current + [ch], d, Consume(q, ch))
      else if IsQuote(ch) then SplitIn(tail, current + [ch], d, q.(quote := Some(ch)))
      else if ch == ',' && d.Top() then [Trim(current)] + SplitIn(tail, "", d, q)
      else SplitIn(tail, current + [ch], Move(d, ch), q)
  {
    assert ([ch] + tail)[1..] == tail;
  }

  method SplitTopLevelArguments(source: string) returns (out: seq<string>)
    ensures out == SplitIn(source, "", TOP, QUIET)
  {
    hide SplitIn, Trim, IsQuote;
    out := [];
    var current := "";
    var parenDepth, bracketDepth, braceDepth := 0, 0, 0;
    var state := new QuoteScanState();
    for i := 0 to |source|
      invariant parenDepth >= 0 && bracketDepth >= 0 && braceDepth >= 0
      invariant SplitIn(source, "", TOP, QUIET)
             == out + SplitIn(source[i..], current, Depths(parenDepth, bracketDepth, braceDepth), state.Value())
    {
      var ch := source[i];
      assert source[i..] == [ch] + source[i + 1..];
      SplitStep(ch, source[i + 1..], current, Depths(parenDepth, bracketDepth, braceDepth), state.Value());
      if state.quote.Some? {
        current := current + [ch];
        var _ := state.ConsumeQuotedChar(ch);
        continue;
      }
      var begun := state.BeginQuotedSection(ch);
      if begun {
        current := current + [ch];
        continue;
      }
      if ch == '(' {
        parenDepth := parenDepth + 1;
      } else if ch == ')' {
        if parenDepth > 0 {
          parenDepth := parenDepth - 1;
        }
      } else if ch == '[' {
        bracketDepth := bracketDepth + 1;
      } else if ch == ']' {
        if bracketDepth > 0 {
          bracketDepth := bracketDepth - 1;
        }
      } else if ch == '{' {
        braceDepth := braceDepth + 1;
      } else if ch == '}' {
        if braceDepth > 0 {
          braceDepth := braceDepth - 1;
        }
      } else if ch == ',' && parenDepth == 0 && bracketDepth == 0 && braceDepth == 0 {
        out := out + [Trim(current)];
        current := "";
        continue;
      }
      current := current + [ch];
    }
    assert source[|source|..] == "";
    SplitNothing(current, Depths(parenDepth, bracketDepth, braceDepth), state.Value());
    if !Blank(current) {
      out := out + [Trim(current)];
    }
  }

  // ---------- the grammar of argument texts ----------

  datatype QuotedChar = Bare(c: char) | Escaped(c: char)

  datatype Piece = Other(c: char) | Quoted(q: char, body: seq<QuotedChar>) | Group(open: char, inner: seq<Piece>)

  function Closing(open: char): char {
    if open == '(' then ')' else if open == '[' then ']' else '}'
  }

  function PrintBody(body: seq<QuotedChar>): string {
    if body == [] then ""
    else (match body[0] case Bare(c) => [c] case Escaped(c) => ['\\', c]) + PrintBody(body[1..])
  }

  function Print(p: Piece): string
    decreases p
  {
    match p
    case Other(c) => [c]
    case Quoted(q, body) => [q] + PrintBody(body) + [q]
    case Group(open, inner) => [open] + PrintAll(inner) + [Closing(open)]
  }

  function PrintAll(ps: seq<Piece>): string
    decreases ps
  {
    if ps == [] then "" else Print(ps[0]) + PrintAll(ps[1..])
  }

  /** Quotes closed and brackets balanced; commas only where `commas` allows them, or inside a group or quotes. */
  predicate PieceOk(p: Piece, commas: bool)
    decreases p
  {
    match p
    case Other(c) => !IsQuote(c) && c !in "()[]{}" && (c == ',' ==> commas)
    case Quoted(q, body) =>
      IsQuote(q) && forall i | 0 <= i < |body| && body[i].Bare? :: body[i].c != q && body[i].c != '\\'
    case Group(open, inner) => open in "([{" && AllOk(inner, true)
  }

  predicate AllOk(ps: seq<Piece>, commas: bool)
    decreases ps
  {
    forall i | 0 <= i < |ps| :: PieceOk(ps[i], commas)
  }

  // ---------- the scanner reads what the grammar prints ----------

  lemma {:induction false} FindBody(body: seq<QuotedChar>, q: char, rest: string, depth: nat)
    requires PieceOk(Quoted(q, body), true)
    ensures FindIn(PrintBody(body) + [q] + rest, depth, Quoting(Some(q), false))
         == FoundAfter(FindIn(rest, depth, QUIET), |PrintBody(body)| + 1)
  {
    hide FindIn;
    var s := PrintBody(body) + [q] + rest;
    if body == [] {
      assert s == [q] + rest;
      FindStep(q, rest, depth, Quoting(Some(q), false));
    } else {
      var tail := PrintBody(body[1..]) + [q] + rest;
      FindBody(body[1..], q, rest, depth);
      match body[0]
      case Bare(c) =>
        assert s == [c] + tail;
        FindStep(c, tail, depth, Quoting(Some(q), false));
      case Escaped(c) =>
        assert s == ['\\'] + ([c] + tail);
        FindStep('\\', [c] + tail, depth, Quoting(Some(q), false));
        FindStep(c, tail, depth, Quoting(Some(q), true));
    }
  }

  lemma {:induction false} FindPiece(p: Piece, rest: string, depth: nat)
    requires PieceOk(p, true) && depth >= 1
    ensures FindIn(Print(p) + rest, depth, QUIET) == FoundAfter(FindIn(rest, depth, QUIET), |Print(p)|)
    decreases p, 0
  {
    hide FindIn, AllOk, PrintAll, PrintBody;
    match p
    case Other(c) => FindStep(c, rest, depth, QUIET);
    case Quoted(q, body) =>
      var tail := PrintBody(body) + [q] + rest;
      assert Print(p) + rest == [q] + tail;
      FindStep(q, tail, depth, QUIET);
      FindBody(body, q, rest, depth);
    case Group(open, inner) =>
      var close := [Closing(open)] + rest;
      var within := if open == '(' then depth + 1 else depth;
      assert Print(p) + rest == [open] + (PrintAll(inner) + close);
      FindStep(open, PrintAll(inner) + close, depth, QUIET);
      FindPieces(inner, close, within);
      FindStep(Closing(open), rest, within, QUIET);
  }

  lemma {:induction false} FindPieces(ps: seq<Piece>, rest: string, depth: nat)
    requires AllOk(ps, true) && depth >= 1
    ensures FindIn(PrintAll(ps) + rest, depth, QUIET) == FoundAfter(FindIn(rest, depth, QUIET), |PrintAll(ps)|)
    decreases ps, 1
  {
    hide FindIn, Print, PieceOk;
    if ps == [] {
      assert "" + rest == rest;
    } else {
      assert PrintAll(ps) + rest == Print(ps[0]) + (PrintAll(ps[1..]) + rest);
      FindPiece(ps[0], PrintAll(ps[1..]) + rest, depth);
      FindPieces(ps[1..], rest, depth);
    }
  }

  lemma {:induction false} SplitBody(body: seq<QuotedChar>, q: char, rest: string, current: string, d: Depths)
    requires PieceOk(Quoted(q, body), true)
    ensures SplitIn(PrintBody(body) + [q] + rest, current, d, Quoting(Some(q), false))
         == SplitIn(rest, current + PrintBody(body) + [q], d, QUIET)
  {
    hide SplitIn;
    var s := PrintBody(body) + [q] + rest;
    var inside := Quoting(Some(q), false);
    if body == [] {
      assert s == [q] + rest && current + PrintBody(body) + [q] == current + [q];
      SplitStep(q, rest, current, d, inside);
    } else {
      var tail := PrintBody(body[1..]) + [q] + rest;
      match body[0]
      case Bare(c) =>
        SplitBody(body[1..], q, rest, current + [c], d);
        assert s == [c] + tail;
        SplitStep(c, tail, current, d, inside);
        assert current + [c] + PrintBody(body[1..]) + [q] == current + PrintBody(body) + [q];
      case Escaped(c) =>
        SplitBody(body[1..], q, rest, current + ['\\'] + [c], d);
        assert s == ['\\'] + ([c] + tail);
        SplitStep('\\', [c] + tail, current, d, inside);
        SplitStep(c, tail, current + ['\\'], d, Quoting(Some(q), true));
        assert current + ['\\'] + [c] + PrintBody(body[1..]) + [q] == current + PrintBody(body) + [q];
    }
  }

  lemma {:induction false} SplitPiece(p: Piece, rest: string, current: string, d: Depths)
    requires PieceOk(p, !d.Top())
    ensures SplitIn(Print(p) + rest, current, d, QUIET) == SplitIn(rest, current + Print(p), d, QUIET)
    decreases p, 0
  {
    hide SplitIn, AllOk, PrintAll, PrintBody, Trim;
    match p
    case Other(c) => SplitStep(c, rest, current, d, QUIET);
    case Quoted(q, body) =>
      var tail := PrintBody(body) + [q] + rest;
      assert Print(p) + rest == [q] + tail;
      SplitStep(q, tail, current, d, QUIET);
      SplitBody(body, q, rest, current + [q], d);
      assert current + [q] + PrintBody(body) + [q] == current + Print(p);
    case Group(open, inner) =>
      var close := [Closing(open)] + rest;
      var within := Move(d, open);
      assert Move(within, Closing(open)) == d && !within.Top();
      assert Print(p) + rest == [open] + (PrintAll(inner) + close);
      SplitStep(open, PrintAll(inner) + close, current, d, QUIET);
      SplitPieces(inner, close, current + [open], within);
      SplitStep(Closing(open), rest, current + [open] + PrintAll(inner), within, QUIET);
      assert current + [open] + PrintAll(inner) + [Closing(open)] == current + Print(p);
  }

  lemma {:induction false} SplitPieces(ps: seq<Piece>, rest: string, current: string, d: Depths)
    requires AllOk(ps, !d.Top())
    ensures SplitIn(PrintAll(ps) + rest, current, d, QUIET) == SplitIn(rest, current + PrintAll(ps), d, QUIET)
    decreases ps, 1
  {
    if ps == [] {
      assert "" + rest == rest && current + "" == current;
    } else {
      assert PrintAll(ps) + rest == Print(ps[0]) + (PrintAll(ps[1..]) + rest);
      SplitPiece(ps[0], PrintAll(ps[1..]) + rest, current, d);
      SplitPieces(ps[1..], rest, current + Print(ps[0]), d);
      assert current + Print(ps[0]) + PrintAll(ps[1..]) == current + PrintAll(ps);
    }
  }

  // ---------- the round trip ----------

  /** One argument: trimmed text without top-level commas. */
  predicate ArgumentOk(ps: seq<Piece>) {
    AllOk(ps, false) && Trim(PrintAll(ps)) == PrintAll(ps)
  }

  function Texts(args: seq<seq<Piece>>): seq<string> {
    seq(|args|, i requires 0 <= i < |args| => PrintAll(args[i]))
  }

  function Joined(args: seq<seq<Piece>>): string {
    if args == [] then ""
    else if |args| == 1 then PrintAll(args[0])
    else PrintAll(args[0]) + ", " + Joined(args[1..])
  }

  lemma {:induction false} FindSeparator(more: string, depth: nat)
    ensures FindIn(", " + more, depth, QUIET) == FoundAfter(FindIn(more, depth, QUIET), 2)
  {
    assert (", " + more)[1..] == " " + more && (" " + more)[1..] == more;
  }

  lemma {:induction false} FindJoined(args: seq<seq<Piece>>, rest: string, depth: nat)
    requires (forall i | 0 <= i < |args| :: ArgumentOk(args[i])) && depth >= 1
    ensures FindIn(Joined(args) + rest, depth, QUIET) == FoundAfter(FindIn(rest, depth, QUIET), |Joined(args)|)
  {
    hide FindIn, Trim, AllOk, PrintAll;
    if args == [] {
      assert "" + rest == rest;
    } else {
      CommasAllowed(args[0]);
      if |args| == 1 {
        FindPieces(args[0], rest, depth);
      } else {
        var more := Joined(args[1..]) + rest;
        assert Joined(args) + rest == PrintAll(args[0]) + (", " + more);
        FindPieces(args[0], ", " + more, depth);
        FindSeparator(more, depth);
        FindJoined(args[1..], rest, depth);
      }
    }
  }

  lemma {:induction false} CommasAllowed(ps: seq<Piece>)
    requires AllOk(ps, false)
    ensures AllOk(ps, true)
  {
    forall i | 0 <= i < |ps|
      ensures PieceOk(ps[i], true)
    {
      assert PieceOk(ps[i], false);
    }
  }

  lemma {:induction false} TrimLeadingSpace(text: string)
    requires Trim(text) == text
    ensures Trim(" " + text) == text
  {
    TrimFixed(text);
    assert (" " + text)[1..] == text;
  }

  lemma {:induction false} SplitSeparator(more: string, current: string)
    ensures SplitIn(", " + more, current, TOP, QUIET) == [Trim(current)] + SplitIn(more, " ", TOP, QUIET)
  {
    assert (", " + more)[1..] == " " + more && (" " + more)[1..] == more && "" + [' '] == " ";
  }

  lemma {:induction false} SplitEnd(current: string, d: Depths, q: Quoting)
    ensures SplitIn("", current, d, q) == if Blank(current) then [] else [Trim(current)]
  {
  }

  lemma {:induction false} SplitJoined(args: seq<seq<Piece>>, current: string)
    requires args != [] && (forall i | 0 <= i < |args| :: ArgumentOk(args[i])) && (current == "" || current == " ")
    ensures var n := |args| - 1;
            SplitIn(Joined(args), current, TOP, QUIET)
              == if PrintAll(args[n]) == "" then Texts(args)[..n] else Texts(args)
  {
    hide SplitIn, Trim, AllOk, PrintAll, Texts, Joined;
    var text := PrintAll(args[0]);
    assert ArgumentOk(args[0]);
    TrimLeadingSpace(text);
    assert "" + text == text;
    JoinedCons(args);
    if |args| == 1 {
      SplitPieces(args[0], "", current, TOP);
      assert text + "" == text;
      SplitEnd(current + text, TOP, QUIET);
      assert [text][..0] == [];
    } else {
      var rest := args[1..];
      var more := Joined(rest);
      SplitPieces(args[0], ", " + more, current, TOP);
      SplitSeparator(more, current + text);
      SplitJoined(rest, " ");
      assert [text] + Texts(rest)[..|rest| - 1] == ([text] + Texts(rest))[..|rest|];
    }
  }

  lemma {:induction false} JoinedCons(args: seq<seq<Piece>>)
    requires args != []
    ensures |args| == 1 ==> Joined(args) == PrintAll(args[0]) && Texts(args) == [PrintAll(args[0])]
    ensures |args| > 1 ==> Joined(args) == PrintAll(args[0]) + (", " + Joined(args[1..]))
    ensures |args| > 1 ==> Texts(args) == [PrintAll(args[0])] + Texts(args[1..]) && |Texts(args[1..])| == |args| - 1
  {
  }

  /** The scanner finds the end of any printed call, whatever surrounds it. */
  lemma {:induction false} FindsClosingParen(before: string, args: seq<seq<Piece>>, rest: string)
    requires forall i | 0 <= i < |args| :: ArgumentOk(args[i])
    ensures FindIn(After(before + "(" + Joined(args) + ")" + rest, |before| + 1), 1, QUIET) == Some(|Joined(args)|)
  {
    var source := before + "(" + Joined(args) + ")" + rest;
    assert source[|before| + 1..] == Joined(args) + (")" + rest);
    FindJoined(args, ")" + rest, 1);
  }

  /** Splitting a printed argument list gives the arguments back, except that an empty last one is dropped. */
  lemma {:induction false} SplitInvertsJoin(args: seq<seq<Piece>>)
    requires forall i | 0 <= i < |args| :: ArgumentOk(args[i])
    ensures SplitIn(Joined(args), "", TOP, QUIET) == Texts(args)
       <==> args == [] || PrintAll(args[|args| - 1]) != ""
  {
    if args != [] {
      SplitJoined(args, "");
    }
  }
}
