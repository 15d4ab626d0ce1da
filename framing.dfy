/**
 * Line-delimited framing of the byte stream on a peer connection. Every frame is one
 * encoded message followed by a single line feed; a reader appends what `recv` returns
 * to a buffer and splits complete lines off its front, keeping the unfinished tail.
 */
module Framing {
  import opened Text

  newtype byte = x: int | 0 <= x < 256

  /** The frame delimiter `b'\n'`. */
  const Newline: byte := 10

  /** Position of the first delimiter. */
  function IndexOf(s: seq<byte>): (i: nat)
    requires Newline in s
    ensures i < |s| && s[i] == Newline && Newline !in s[..i]
  {
    if s[0] == Newline then 0 else assert s == [s[0]] + s[1..]; 1 + IndexOf(s[1..])
  }

  /** `buf.split(b'\n', 1)` on a buffer holding a delimiter: the line before it and the rest. */
  function SplitFirst(buf: seq<byte>): (parts: (seq<byte>, seq<byte>))
    requires Newline in buf
    ensures buf == parts.0 + [Newline] + parts.1
    ensures Newline !in parts.0
  {
    var i := IndexOf(buf);
    assert buf == buf[..i] + [Newline] + buf[i + 1..];
    (buf[..i], buf[i + 1..])
  }

  /** The split is the only one whose line holds no delimiter. */
  lemma SplitUnique(buf: seq<byte>, line: seq<byte>, rest: seq<byte>)
    requires buf == line + [Newline] + rest && Newline !in line
    ensures Newline in buf && SplitFirst(buf) == (line, rest)
  {
    assert buf[|line|] == Newline;
    var (l, r) := SplitFirst(buf);
    assert l == buf[..|l|] == line;
    assert r == buf[|l| + 1..] == rest;
  }

  /** Complete lines of a buffer, in order: what repeated splitting dispatches. */
  function Frames(buf: seq<byte>): seq<seq<byte>>
    decreases |buf|
  {
    if Newline in buf then
      var (line, rest) := SplitFirst(buf);
      [line] + Frames(rest)
    else []
  }

  /** The unfinished tail that repeated splitting keeps. */
  function Leftover(buf: seq<byte>): seq<byte>
    decreases |buf|
  {
    if Newline in buf then Leftover(SplitFirst(buf).1) else buf
  }

  /** One split step: the first line is the first frame, and the rest frames as before. */
  lemma FramesStep(buf: seq<byte>)
    requires Newline in buf
    ensures Frames(buf) == [SplitFirst(buf).0] + Frames(SplitFirst(buf).1)
    ensures Leftover(buf) == Leftover(SplitFirst(buf).1)
  {
  }

  /** The wire form of a sequence of lines: each followed by the delimiter. */
  function Unframe(lines: seq<seq<byte>>): seq<byte> {
    if lines == [] then [] else lines[0] + [Newline] + Unframe(lines[1..])
  }

  /** No line holds the delimiter. */
  predicate Undelimited(lines: seq<seq<byte>>) {
    forall i :: 0 <= i < |lines| ==> Newline !in lines[i]
  }

  /** Splitting loses nothing and keeps order: the frames, re-delimited, then the tail give back the buffer. */
  lemma {:induction false} FramesRebuild(buf: seq<byte>)
    ensures Unframe(Frames(buf)) + Leftover(buf) == buf
    decreases |buf|
  {
    if Newline in buf {
      var (line, rest) := SplitFirst(buf);
      FramesRebuild(rest);
      assert Frames(buf)[1..] == Frames(rest);
    }
  }

  /** No dispatched frame and no retained tail holds a delimiter. */
  lemma {:induction false} FramesUndelimited(buf: seq<byte>)
    ensures Undelimited(Frames(buf)) && Newline !in Leftover(buf)
    decreases |buf|
  {
    if Newline in buf {
      var (line, rest) := SplitFirst(buf);
      FramesUndelimited(rest);
    }
  }

  /**
   * Framing inverts the wire form: delimiter-free lines written one after another, followed
   * by a delimiter-free tail, are read back as exactly those lines, with that tail kept.
   */
  lemma {:induction false} FramesOfUnframe(lines: seq<seq<byte>>, tail: seq<byte>)
    requires Undelimited(lines) && Newline !in tail
    ensures Frames(Unframe(lines) + tail) == lines
    ensures Leftover(Unframe(lines) + tail) == tail
  {
    if lines != [] {
      var rest := Unframe(lines[1..]) + tail;
      assert Unframe(lines) + tail == lines[0] + [Newline] + rest;
      SplitUnique(Unframe(lines) + tail, lines[0], rest);
      FramesOfUnframe(lines[1..], tail);
    }
  }

  /** Appending bytes after a delimiter does not change the first line. */
  lemma SplitAppend(a: seq<byte>, b: seq<byte>)
    requires Newline in a
    ensures Newline in a + b
    ensures SplitFirst(a + b) == (SplitFirst(a).0, SplitFirst(a).1 + b)
  {
    var (line, rest) := SplitFirst(a);
    assert a + b == line + [Newline] + (rest + b);
    SplitUnique(a + b, line, rest + b);
  }

  /**
   * Framing does not depend on how the stream is cut into chunks: framing `a` and then
   * framing its tail followed by `b` gives the frames and the tail of `a + b`.
   */
  lemma FramesAppend(a: seq<byte>, b: seq<byte>)
    ensures Frames(a + b) == Frames(a) + Frames(Leftover(a) + b)
    ensures Leftover(a + b) == Leftover(Leftover(a) + b)
  {
    FramesOfAppend(a, b);
    LeftoverOfAppend(a, b);
  }

  lemma {:induction false} FramesOfAppend(a: seq<byte>, b: seq<byte>)
    ensures Frames(a + b) == Frames(a) + Frames(Leftover(a) + b)
    decreases |a|
  {
    if Newline in a {
      FramesOfAppend(SplitFirst(a).1, b);
      FramesOfAppendStep(a, b);
    } else {
      FramesNone(a);
    }
  }

  /** The step of the induction above: the first line of `a` is the first frame of `a + b`. */
  lemma FramesOfAppendStep(a: seq<byte>, b: seq<byte>)
    requires Newline in a
    requires Frames(SplitFirst(a).1 + b) == Frames(SplitFirst(a).1) + Frames(Leftover(SplitFirst(a).1) + b)
    ensures Frames(a + b) == Frames(a) + Frames(Leftover(a) + b)
  {
    var line, rest := SplitFirst(a).0, SplitFirst(a).1;
    var tail := Frames(Leftover(rest) + b);
    assert Frames(a + b) == [line] + Frames(rest + b) by {
      SplitAppend(a, b);
      FramesStep(a + b);
    }
    assert Frames(a) == [line] + Frames(rest) && Leftover(a) == Leftover(rest) by {
      FramesStep(a);
    }
    Associative([line], Frames(rest), tail);
  }

  lemma {:induction false} LeftoverOfAppend(a: seq<byte>, b: seq<byte>)
    ensures Leftover(a + b) == Leftover(Leftover(a) + b)
    decreases |a|
  {
    if Newline in a {
      var rest := SplitFirst(a).1;
      SplitAppend(a, b);
      FramesStep(a);
      FramesStep(a + b);
      LeftoverOfAppend(rest, b);
    } else {
      FramesNone(a);
    }
  }

  /** A buffer without a delimiter yields no frame and is kept whole. */
  lemma FramesNone(a: seq<byte>)
    requires Newline !in a
    ensures Frames(a) == [] && Leftover(a) == a
  {
  }

  /** A delimiter in a prefix is a delimiter in the whole. */
  lemma NewlineInPrefix(a: seq<byte>, b: seq<byte>)
    requires Newline in a
    ensures Newline in a + b
  {
    var k := IndexOf(a);
    assert (a + b)[k] == Newline;
  }

  /** One result of `recv`: bytes (an empty result means the peer closed), or an error. */
  datatype Read = Data(bytes: seq<byte>) | Failed

  /** A read that hands over bytes; any other ends a reading loop. */
  predicate Delivers(r: Read) {
    r.Data? && r.bytes != []
  }

  /**
   * The bytes a connection delivers before its first close or error. A script of chunks
   * that runs out stands for a peer that closes after its last read.
   */
  function Received(chunks: seq<Read>): seq<byte> {
    if chunks == [] || !Delivers(chunks[0]) then [] else chunks[0].bytes + Received(chunks[1..])
  }

  /** Reading on from position `i`: a delivering read contributes its bytes, any other ends the stream. */
  lemma ReceivedFrom(chunks: seq<Read>, i: nat)
    requires i <= |chunks|
    ensures i < |chunks| && Delivers(chunks[i]) ==>
      Received(chunks[i..]) == chunks[i].bytes + Received(chunks[i + 1..])
    ensures !(i < |chunks| && Delivers(chunks[i])) ==> Received(chunks[i..]) == []
  {
    if i < |chunks| {
      assert chunks[i..][1..] == chunks[i + 1..];
    }
  }

  /** The first read that delivers nothing is an error rather than a close. */
  predicate EndsInFailure(chunks: seq<Read>) {
    chunks != [] && (chunks[0].Failed? || (Delivers(chunks[0]) && EndsInFailure(chunks[1..])))
  }

  /** How waiting for the first complete frame ended. */
  datatype Await =
    | Framed(buffer: seq<byte>, next: nat)  // a delimiter arrived; chunks[next..] are still unread
    | Closed(partial: seq<byte>)           // the peer closed before any delimiter
    | Broken                               // a read raised before any delimiter

  /**
   * The loop `while b'\n' not in buffer: data = recv(); if not data: ...; buffer += data`
   * of both handshake sides: it gathers chunks until the buffer holds a delimiter.
   */
  method ReadUntilDelimiter(chunks: seq<Read>) returns (a: Await)
    ensures a.Framed? <==> Newline in Received(chunks)
    ensures a.Framed? ==>
      0 < a.next <= |chunks| && Newline in a.buffer && a.buffer + Received(chunks[a.next..]) == Received(chunks)
    ensures a.Closed? <==> Newline !in Received(chunks) && !EndsInFailure(chunks)
    ensures a.Closed? ==> a.partial == Received(chunks)
  {
    var buffer: seq<byte> := [];
    var i := 0;
    while Newline !in buffer
      invariant i <= |chunks|
      invariant buffer + Received(chunks[i..]) == Received(chunks)
      invariant EndsInFailure(chunks[i..]) == EndsInFailure(chunks)
      invariant i == 0 <==> buffer == []
      decreases |chunks| - i
    {
      if i == |chunks| || !Delivers(chunks[i]) {
        assert Received(chunks[i..]) == [];
        assert buffer == Received(chunks);
        if i < |chunks| && chunks[i].Failed? {
          return Broken;
        }
        return Closed(buffer);
      }
      ReceivedFrom(chunks, i);
      Associative(buffer, chunks[i].bytes, Received(chunks[i + 1..]));
      assert EndsInFailure(chunks[i..]) == EndsInFailure(chunks[i + 1..]) by {
        assert chunks[i..][1..] == chunks[i + 1..];
      }
      buffer := buffer + chunks[i].bytes;
      i := i + 1;
    }
    NewlineInPrefix(buffer, Received(chunks[i..]));
    return Framed(buffer, i);
  }
}
