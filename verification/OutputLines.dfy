/** Splitting a child's output into lines while it arrives in chunks on two streams. */
module OutputLines {

  datatype Stream = Stdout | Stderr

  /** One chunk of text read from a stream. */
  datatype Chunk = Chunk(stream: Stream, text: string)

  function DropCr(piece: string): string {
    if piece != "" && piece[|piece| - 1] == '\r' then piece[..|piece| - 1] else piece
  }

  /** Splitting on an optional CR followed by LF; `open` is the piece already begun. */
  function Pieces(text: string, open: string): (r: seq<string>)
    ensures r != []
    decreases |text|
  {
    if text == "" then [open]
    else if text[0] == '\n' then [DropCr(open)] + Pieces(text[1..], "")
    else Pieces(text[1..], open + [text[0]])
  }

  function Last(pieces: seq<string>): string
    requires pieces != []
  {
    pieces[|pieces| - 1]
  }

  function Front(pieces: seq<string>): seq<string>
    requires pieces != []
  {
    pieces[..|pieces| - 1]
  }

  datatype Collected = Collected(carry: string, lines: seq<string>)

  /** `collectOutputLines` */
  function CollectOutputLines(carry: string, chunk: string): Collected {
    var parts := Pieces(carry + chunk, "");
    Collected(Last(parts), Front(parts))
  }

  predicate OneLine(s: string) {
    '\n' !in s
  }

  lemma {:induction false} OpenPiece(carry: string, text: string, open: string)
    requires OneLine(carry)
    ensures Pieces(carry + text, open) == Pieces(text, open + carry)
    decreases |carry|
  {
    if carry == "" {
      assert carry + text == text && open + carry == open;
    } else {
      assert (carry + text)[1..] == carry[1..] + text;
      OpenPiece(carry[1..], text, open + [carry[0]]);
      assert open + [carry[0]] + carry[1..] == open + carry;
    }
  }

  /** The last, unfinished piece of a text is all that matters for what follows, even a CR at its end. */
  lemma {:induction false} PiecesConcat(a: string, b: string, open: string)
    requires OneLine(open)
    ensures Pieces(a + b, open) == Front(Pieces(a, open)) + Pieces(Last(Pieces(a, open)) + b, "")
    decreases |a|
  {
    if a == "" {
      assert a + b == b && "" + open == open;
      OpenPiece(open, b, "");
    } else {
      assert (a + b)[1..] == a[1..] + b;
      if a[0] == '\n' {
        PiecesConcat(a[1..], b, "");
        var rest := Pieces(a[1..], "");
        assert Pieces(a, open) == [DropCr(open)] + rest;
        assert Front(Pieces(a, open)) == [DropCr(open)] + Front(rest);
      } else {
        PiecesConcat(a[1..], b, open + [a[0]]);
      }
    }
  }

  // ---------- the buffers and the listener ----------

  /** The unfinished text per stream, and the non-empty lines handled so far. */
  datatype State = State(stdout: string, stderr: string, handled: seq<(Stream, string)>) {
    function Buffer(stream: Stream): string {
      if stream == Stdout then stdout else stderr
    }

    function WithBuffer(stream: Stream, text: string): State {
      if stream == Stdout then this.(stdout := text) else this.(stderr := text)
    }

    /** `onLine` ignores empty lines. */
    function Handle(stream: Stream, line: string): State {
      if line == "" then this else this.(handled := handled + [(stream, line)])
    }
  }

  function HandleAll(s: State, stream: Stream, lines: seq<string>): State
    decreases |lines|
  {
    if lines == [] then s else HandleAll(s.Handle(stream, lines[0]), stream, lines[1..])
  }

  function OnChunk(s: State, c: Chunk): State {
    var parsed := CollectOutputLines(s.Buffer(c.stream), c.text);
    HandleAll(s.WithBuffer(c.stream, parsed.carry), c.stream, parsed.lines)
  }

  function FlushStream(s: State, stream: Stream): State {
    if s.Buffer(stream) == "" then s
    else s.WithBuffer(stream, "").Handle(stream, s.Buffer(stream))
  }

  function Flush(s: State, flushPartial: bool): State {
    if flushPartial then FlushStream(FlushStream(s, Stdout), Stderr) else s
  }

  class OutputBuffers {
    var state: State

    constructor ()
      ensures state == State("", "", [])
    {
      state := State("", "", []);
    }

    method OnLine(stream: Stream, line: string)
      modifies this
      ensures state == old(state).Handle(stream, line)
    {
      if line == "" {
        return;
      }
      state := state.(handled := state.handled + [(stream, line)]);
    }

    method Receive(c: Chunk)
      modifies this
      ensures state == OnChunk(old(state), c)
    {
      var parsed := CollectOutputLines(state.Buffer(c.stream), c.text);
      state := state.WithBuffer(c.stream, parsed.carry);
      for i := 0 to |parsed.lines|
        invariant HandleAll(state, c.stream, parsed.lines[i..]) == OnChunk(old(state), c)
      {
        assert parsed.lines[i..][1..] == parsed.lines[i + 1..];
        OnLine(c.stream, parsed.lines[i]);
      }
    }

    method FlushOutputLineBuffers(flushPartial: bool)
      modifies this
      ensures state == Flush(old(state), flushPartial)
    {
      if !flushPartial {
        return;
      }
      if state.stdout != "" {
        var line := state.stdout;
        state := state.(stdout := "");
        OnLine(Stdout, line);
      }
      if state.stderr != "" {
        var line := state.stderr;
        state := state.(stderr := "");
        OnLine(Stderr, line);
      }
    }
  }

  // ---------- chunking does not matter ----------

  function Received(chunks: seq<Chunk>, stream: Stream): string {
    if chunks == [] then ""
    else
      Received(chunks[..|chunks| - 1], stream)
      + (if chunks[|chunks| - 1].stream == stream then chunks[|chunks| - 1].text else "")
  }

  function Run(chunks: seq<Chunk>): State {
    if chunks == [] then State("", "", []) else OnChunk(Run(chunks[..|chunks| - 1]), chunks[|chunks| - 1])
  }

  function NonEmpty(lines: seq<string>): seq<string> {
    if lines == [] then []
    else NonEmpty(lines[..|lines| - 1]) + (if lines[|lines| - 1] == "" then [] else [lines[|lines| - 1]])
  }

  function HandledOf(handled: seq<(Stream, string)>, stream: Stream): seq<string> {
    if handled == [] then []
    else
      var last := handled[|handled| - 1];
      HandledOf(handled[..|handled| - 1], stream) + (if last.0 == stream then [last.1] else [])
  }

  lemma {:induction false} HandledAppend(handled: seq<(Stream, string)>, p: (Stream, string), stream: Stream)
    ensures HandledOf(handled + [p], stream) == HandledOf(handled, stream) + (if p.0 == stream then [p.1] else [])
  {
    assert (handled + [p])[..|handled|] == handled;
  }

  lemma {:induction false} NonEmptyAppend(lines: seq<string>, line: string)
    ensures NonEmpty(lines + [line]) == NonEmpty(lines) + (if line == "" then [] else [line])
  {
    assert (lines + [line])[..|lines|] == lines;
  }

  lemma {:induction false} NonEmptyConcat(a: seq<string>, b: seq<string>)
    ensures NonEmpty(a + b) == NonEmpty(a) + NonEmpty(b)
  {
    if b == [] {
      assert a + b == a;
    } else {
      hide NonEmpty;
      var n := |b| - 1;
      NonEmptyConcat(a, b[..n]);
      assert a + b == (a + b[..n]) + [b[n]] && b == b[..n] + [b[n]];
      NonEmptyAppend(a + b[..n], b[n]);
      NonEmptyAppend(b[..n], b[n]);
    }
  }

  lemma {:induction false} HandleAllAppends(s: State, stream: Stream, lines: seq<string>, other: Stream)
    ensures var t := HandleAll(s, stream, lines);
            && t.stdout == s.stdout && t.stderr == s.stderr
            && HandledOf(t.handled, other)
                == HandledOf(s.handled, other) + (if other == stream then NonEmpty(lines) else [])
    decreases |lines|
  {
    hide HandledOf, NonEmpty, State.Handle;
    if lines == [] {
      NoLines();
      assert HandledOf(s.handled, other) + [] == HandledOf(s.handled, other);
    } else {
      var next := s.Handle(stream, lines[0]);
      HandleOne(s, stream, lines[0], other);
      HandleAllAppends(next, stream, lines[1..], other);
      assert lines == [lines[0]] + lines[1..];
      NonEmptyConcat([lines[0]], lines[1..]);
    }
  }

  lemma {:induction false} NoLines()
    ensures NonEmpty([]) == []
  {
  }

  lemma {:induction false} HandleOne(s: State, stream: Stream, line: string, other: Stream)
    ensures var t := s.Handle(stream, line);
            && t.stdout == s.stdout && t.stderr == s.stderr
            && HandledOf(t.handled, other)
                == HandledOf(s.handled, other) + (if other == stream then NonEmpty([line]) else [])
  {
    hide HandledOf, NonEmpty;
    HandledAppend(s.handled, (stream, line), other);
    NonEmptyOne(line);
  }

  /** `s` is where stream `stream` stands after `text`: finished lines handled, the rest buffered. */
  ghost predicate Stands(s: State, stream: Stream, text: string) {
    var pieces := Pieces(text, "");
    s.Buffer(stream) == Last(pieces) && HandledOf(s.handled, stream) == NonEmpty(Front(pieces))
  }

  lemma {:induction false} ChunkArrives(s: State, stream: Stream, text: string, c: Chunk)
    requires Stands(s, stream, text)
    ensures Stands(OnChunk(s, c), stream, text + (if c.stream == stream then c.text else ""))
  {
    hide HandledOf, NonEmpty, Pieces, HandleAll;
    var parsed := CollectOutputLines(s.Buffer(c.stream), c.text);
    HandleAllAppends(s.WithBuffer(c.stream, parsed.carry), c.stream, parsed.lines, stream);
    if c.stream == stream {
      PiecesConcat(text, c.text, "");
      var pieces, more := Pieces(text, ""), Pieces(Last(Pieces(text, "")) + c.text, "");
      assert Last(Front(pieces) + more) == Last(more);
      assert Front(Front(pieces) + more) == Front(pieces) + Front(more);
      NonEmptyConcat(Front(pieces), Front(more));
    } else {
      assert text + "" == text;
    }
  }

  /** After any chunks, a stream has handled the finished lines of its text and buffers the unfinished one. */
  lemma {:induction false} RunMeans(chunks: seq<Chunk>, stream: Stream)
    ensures Stands(Run(chunks), stream, Received(chunks, stream))
  {
    hide Stands, OnChunk;
    if chunks == [] {
      NothingReceived(stream);
    } else {
      var n := |chunks| - 1;
      RunMeans(chunks[..n], stream);
      ChunkArrives(Run(chunks[..n]), stream, Received(chunks[..n], stream), chunks[n]);
    }
  }

  lemma {:induction false} NothingReceived(stream: Stream)
    ensures Stands(Run([]), stream, "")
  {
    assert Front([""]) == [];
  }

  lemma {:induction false} FlushMeans(s: State, flushed: Stream, stream: Stream)
    ensures var t := FlushStream(s, flushed);
            && t.Buffer(stream) == (if flushed == stream then "" else s.Buffer(stream))
            && HandledOf(t.handled, stream)
                 == HandledOf(s.handled, stream)
                     + (if flushed == stream && s.Buffer(stream) != "" then [s.Buffer(stream)] else [])
  {
    hide HandledOf;
    HandledAppend(s.handled, (flushed, s.Buffer(flushed)), stream);
    var all := HandledOf(s.handled, stream);
    assert all + [] == all;
  }

  /**
   Chunk independence: however the two streams were cut and interleaved, after the final flush each
   stream has handled exactly the non-empty lines of its whole text, and nothing is left over.
   */
  lemma {:induction false} ChunkingDoesNotMatter(chunks: seq<Chunk>, stream: Stream)
    ensures var done := Flush(Run(chunks), true);
            && HandledOf(done.handled, stream) == NonEmpty(Pieces(Received(chunks, stream), ""))
            && done.Buffer(stream) == ""
  {
    hide HandledOf, Pieces, FlushStream, Run, Received, NonEmpty;
    var s := Run(chunks);
    var pieces := Pieces(Received(chunks, stream), "");
    RunMeans(chunks, stream);
    assert pieces == Front(pieces) + [Last(pieces)];
    NonEmptyConcat(Front(pieces), [Last(pieces)]);
    NonEmptyOne(Last(pieces));
    FlushMeans(s, Stdout, stream);
    FlushMeans(FlushStream(s, Stdout), Stderr, stream);
  }

  lemma {:induction false} NonEmptyOne(line: string)
    ensures NonEmpty([line]) == if line == "" then [] else [line]
  {
    assert [line][..0] == [];
  }
}
