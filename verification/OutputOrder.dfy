/** Which lines a text has, and in which order they are handled. */
module OutputOrder {
  import opened Selection
  import opened OutputLines

  // ---------- the lines of a text ----------

  predicate IsBreak(s: string) {
    s == "\n" || s == "\r\n"
  }

  /** The pieces with the line breaks between them. */
  function Glue(pieces: seq<string>, breaks: seq<string>): string
    requires |pieces| == |breaks| + 1
    decreases |pieces|
  {
    if breaks == [] then pieces[0] else pieces[0] + breaks[0] + Glue(pieces[1..], breaks[1..])
  }

  /** `piece` holds no line break, and `breaks` is the whole of the one after it: no CR is left before an LF. */
  predicate Cut(piece: string, breaks: string) {
    OneLine(piece) && IsBreak(breaks) && (breaks == "\n" ==> piece == "" || piece[|piece| - 1] != '\r')
  }

  /** `pieces` and `breaks` cut `text` into its lines. */
  ghost predicate Cuts(pieces: seq<string>, breaks: seq<string>, text: string) {
    && |pieces| == |breaks| + 1 && Glue(pieces, breaks) == text && OneLine(pieces[|breaks|])
    && forall i | 0 <= i < |breaks| :: Cut(pieces[i], breaks[i])
  }

  lemma {:induction false} CutsOne(text: string)
    requires OneLine(text)
    ensures Cuts([text], [], text)
  {
  }

  lemma {:induction false} CutsCons(piece: string, first: string, pieces: seq<string>, breaks: seq<string>,
                                    text: string)
    requires Cut(piece, first) && Cuts(pieces, breaks, text)
    ensures Cuts([piece] + pieces, [first] + breaks, piece + first + text)
  {
    hide Cut, OneLine;
    assert ([piece] + pieces)[1..] == pieces && ([first] + breaks)[1..] == breaks;
  }

  /** The pieces of a text are what its line breaks, LF or CR LF, leave of it, with nothing lost. */
  lemma {:induction false} PiecesAreCut(text: string, open: string) returns (breaks: seq<string>)
    requires OneLine(open)
    ensures Cuts(Pieces(text, open), breaks, open + text)
    decreases |text|
  {
    hide Cuts, Cut;
    if text == "" {
      breaks := [];
      assert open + text == open;
      CutsOne(open);
    } else if text[0] == '\n' {
      var later := PiecesAreCut(text[1..], "");
      var first := OpenEnds(open);
      breaks := [first] + later;
      assert "" + text[1..] == text[1..];
      CutsCons(DropCr(open), first, Pieces(text[1..], ""), later, text[1..]);
      assert DropCr(open) + first + text[1..] == open + text;
    } else {
      breaks := PiecesAreCut(text[1..], open + [text[0]]);
      assert open + [text[0]] + text[1..] == open + text;
    }
  }

  lemma {:induction false} OpenEnds(open: string) returns (first: string)
    requires OneLine(open)
    ensures Cut(DropCr(open), first) && DropCr(open) + first == open + "\n"
  {
    first := if open != "" && open[|open| - 1] == '\r' then "\r\n" else "\n";
  }

  /** There is only one way to cut a text. */
  lemma {:induction false} CutIsUnique(p: seq<string>, b: seq<string>, p': seq<string>, b': seq<string>, text: string)
    requires Cuts(p, b, text) && Cuts(p', b', text)
    ensures p == p' && b == b'
    decreases |p|
  {
    BreaksIff(p, b, text);
    BreaksIff(p', b', text);
    if b == [] {
      assert p == [text] && p' == [text];
    } else {
      SameFirst(p[0], b[0], Glue(p[1..], b[1..]), p'[0], b'[0], Glue(p'[1..], b'[1..]), text);
      CutIsUnique(p[1..], b[1..], p'[1..], b'[1..], Glue(p[1..], b[1..]));
    }
  }

  lemma {:induction false} SameFirst(p: string, b: string, rest: string, p': string, b': string, rest': string,
                                     text: string)
    requires Cut(p, b) && Cut(p', b') && text == p + b + rest == p' + b' + rest'
    ensures p == p' && b == b' && rest == rest'
  {
    var k, k' := |p + b| - 1, |p' + b'| - 1;
    assert text[k] == '\n' && text[k'] == '\n';
    assert forall i | 0 <= i < k :: text[i] == (p + b)[i] && text[i] != '\n';
    assert forall i | 0 <= i < k' :: text[i] == (p' + b')[i] && text[i] != '\n';
    assert k == k' && p + b == text[..k + 1] == p' + b';
    assert rest == text[k + 1..] == rest';
    SameBreak(p, b, p', b');
  }

  lemma {:induction false} SameBreak(p: string, b: string, p': string, b': string)
    requires Cut(p, b) && Cut(p', b') && p + b == p' + b'
    ensures p == p' && b == b'
  {
    var line := p + b;
    assert b == "\r\n" ==> line[|line| - 2] == '\r';
    assert b' == "\r\n" ==> line[|line| - 2] == '\r';
    assert b == "\n" && p != "" ==> line[|line| - 2] == p[|p| - 1];
    assert b' == "\n" && p' != "" ==> line[|line| - 2] == p'[|p'| - 1];
    assert p == line[..|line| - |b|] && p' == line[..|line| - |b'|];
  }

  lemma {:induction false} BreaksIff(p: seq<string>, b: seq<string>, text: string)
    requires Cuts(p, b, text)
    ensures b == [] <==> OneLine(text)
    ensures b == [] ==> p == [text]
  {
    if b != [] {
      assert Cut(p[0], b[0]);
      assert text[|p[0]| + |b[0]| - 1] == '\n';
    }
  }

  /** The lines that are not empty. */
  function NonEmptyIn(lines: seq<string>): nat -> bool {
    (i: nat) => i < |lines| && lines[i] != ""
  }

  lemma {:induction false} NonEmptyInOrder(lines: seq<string>) returns (at: seq<nat>)
    ensures Selects(at, |lines|, NonEmptyIn(lines))
    ensures |NonEmpty(lines)| == |at|
    ensures forall k | 0 <= k < |at| :: at[k] < |lines| && NonEmpty(lines)[k] == lines[at[k]]
  {
    if lines == [] {
      at := [];
    } else {
      hide Selects;
      var n := |lines| - 1;
      at := NonEmptyInOrder(lines[..n]);
      SelectsLast(at, n, NonEmptyIn(lines[..n]), NonEmptyIn(lines));
      at := at + (if lines[n] != "" then [n] else []);
    }
  }

  // ---------- the order across the streams ----------

  function On(stream: Stream, lines: seq<string>): seq<(Stream, string)> {
    seq(|lines|, i requires 0 <= i < |lines| => (stream, lines[i]))
  }

  lemma {:induction false} HandleAllInOrder(s: State, stream: Stream, lines: seq<string>)
    ensures HandleAll(s, stream, lines) == s.(handled := s.handled + On(stream, NonEmpty(lines)))
    decreases |lines|
  {
    if lines == [] {
      assert s.handled + On(stream, NonEmpty(lines)) == s.handled;
    } else {
      hide NonEmpty, State.Handle, On;
      var next := s.Handle(stream, lines[0]);
      HandleAllInOrder(next, stream, lines[1..]);
      HandlesOne(s, stream, lines[0]);
      assert lines == [lines[0]] + lines[1..];
      NonEmptyConcat([lines[0]], lines[1..]);
      OnConcat(stream, NonEmpty([lines[0]]), NonEmpty(lines[1..]));
      assert next.handled + On(stream, NonEmpty(lines[1..]))
          == s.handled + (On(stream, NonEmpty([lines[0]])) + On(stream, NonEmpty(lines[1..])));
    }
  }

  lemma {:induction false} HandlesOne(s: State, stream: Stream, line: string)
    ensures s.Handle(stream, line) == s.(handled := s.handled + On(stream, NonEmpty([line])))
  {
    hide NonEmpty;
    NonEmptyOne(line);
    assert line == "" ==> s.handled + [] == s.handled;
  }

  lemma {:induction false} OnConcat(stream: Stream, a: seq<string>, b: seq<string>)
    ensures On(stream, a + b) == On(stream, a) + On(stream, b)
  {
  }

  /**
   A chunk hands over the lines it finishes, after those before it; the text that is left open is buffered for its
   stream, and the other stream's buffer is left alone.
   */
  lemma {:induction false} ChunkInOrder(s: State, c: Chunk)
    ensures var pieces := Pieces((if c.stream == Stdout then s.stdout else s.stderr) + c.text, "");
            var n := |pieces| - 1;
            && OnChunk(s, c).handled == s.handled + On(c.stream, NonEmpty(pieces[..n]))
            && OnChunk(s, c).stdout == (if c.stream == Stdout then pieces[n] else s.stdout)
            && OnChunk(s, c).stderr == (if c.stream == Stderr then pieces[n] else s.stderr)
  {
    hide HandleAll, NonEmpty, Pieces, On;
    var parsed := CollectOutputLines(s.Buffer(c.stream), c.text);
    HandleAllInOrder(s.WithBuffer(c.stream, parsed.carry), c.stream, parsed.lines);
  }

  /** A flush hands over what is left open, stdout before stderr; without `flushPartial` nothing happens. */
  lemma {:induction false} FlushInOrder(s: State)
    ensures Flush(s, false) == s
    ensures Flush(s, true) ==
      State("", "", s.handled + (if s.stdout == "" then [] else [(Stdout, s.stdout)])
                              + (if s.stderr == "" then [] else [(Stderr, s.stderr)]))
  {
  }
}
