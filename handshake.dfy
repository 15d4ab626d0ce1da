/**
 * The introduction exchange that binds a fresh connection to a peer name before any other
 * traffic: each side sends `{"type": "introduce", "username": <own name>}` and accepts the
 * other only if the first frame it reads is such a dict.
 */
module Handshake {
  import opened Wrappers
  import opened Json
  import opened Framing
  import opened Messages
  import opened Text

  /** The remote address `accept` reports. */
  datatype Address = Address(host: string, port: int)

  /** `connection_request_callback(peer_username, addr)`, when one is set. */
  type Admission = Option<(Value, Address) -> bool>

  /** With no callback set every introduced peer is accepted. */
  predicate Admits(admission: Admission, peer: Value, addr: Address) {
    admission.None? || admission.value(peer, addr)
  }

  /** What `if message and message.get("type") == "introduce"` decides about the first frame. */
  datatype Intro = Introduced(peer: Value) | NotIntroduced | IntroRaises

  function Introduction(decoded: Option<Value>): (r: Intro)
    ensures r.Introduced? <==>
      Accepted(decoded) && decoded.value.Obj? && Kind(decoded.value) == Str("introduce")
    ensures r.Introduced? ==> r.peer == Field(decoded.value.fields, "username")
    ensures r == IntroRaises <==> Accepted(decoded) && !decoded.value.Obj?
  {
    if !Accepted(decoded) then NotIntroduced
    else if !decoded.value.Obj? then IntroRaises
    else if Kind(decoded.value) == Str("introduce") then Introduced(Field(decoded.value.fields, "username"))
    else NotIntroduced
  }

  /** The decision about a whole received stream: its first complete line, if there is one. */
  function FirstIntroduction(decode: seq<byte> -> Option<Value>, stream: seq<byte>): Intro {
    if Newline in stream then Introduction(decode(SplitFirst(stream).0)) else NotIntroduced
  }

  /** Each side accepts the other's introduction, under the name it was sent with. */
  lemma IntroductionRoundTrip(name: string)
    ensures Introduction(Some(IntroduceRecord(name))) == Introduced(Str(name))
  {
    var fields := IntroduceRecord(name).fields;
    assert Assoc.UniqueKeys(fields);
    Assoc.LookupAt(fields, 0);
    Assoc.LookupAt(fields, 1);
  }

  /**
   * Splitting the first line off a buffer that already holds a delimiter, and then reading
   * on, loses nothing: the first line is the stream's first frame, and the rest of the
   * buffer followed by the later bytes frames into the remaining frames.
   */
  lemma FirstFrameThenTail(buf: seq<byte>, later: seq<byte>)
    requires Newline in buf
    ensures Newline in buf + later
    ensures SplitFirst(buf + later).0 == SplitFirst(buf).0
    ensures Frames(buf + later) == [SplitFirst(buf).0] + Frames(SplitFirst(buf).1 + later)
  {
    SplitAppend(buf, later);
    FramesStep(buf + later);
  }

  /**
   * The buffer `listen_to_peer` starts from, as written: `connect_to_peer` keeps only the
   * first line of what it read (`line, _ = data.split(b'\n', 1)`) and the listening loop
   * starts from an empty buffer.
   */
  const InitiatorStartAsWritten: seq<byte> := []

  /**
   * As written, the initiator frames the later bytes alone, where the stream it was sent
   * frames into the introduction, then the complete lines already read behind it, then the
   * unfinished rest of that read joined to the later bytes. When the read ended on a
   * delimiter, the frames lost are exactly the complete lines read behind the introduction.
   */
  lemma InitiatorAsWrittenLoses(buf: seq<byte>, later: seq<byte>)
    requires Newline in buf
    ensures var tail := SplitFirst(buf).1;
      Frames(buf + later) == [SplitFirst(buf).0] + Frames(tail) + Frames(Leftover(tail) + later)
    ensures Frames(InitiatorStartAsWritten + later) == Frames(later)
    ensures var tail := SplitFirst(buf).1;
      Leftover(tail) == [] ==>
        Frames(buf + later) == [SplitFirst(buf).0] + Frames(tail) + Frames(InitiatorStartAsWritten + later)
  {
    StreamAfterIntroduction(buf, later);
    var tail := SplitFirst(buf).1;
    assert InitiatorStartAsWritten + later == later;
    if Leftover(tail) == [] {
      assert Leftover(tail) + later == InitiatorStartAsWritten + later;
    }
  }

  /** The stream after a first line already read: the lines read behind it, then the rest. */
  lemma StreamAfterIntroduction(buf: seq<byte>, later: seq<byte>)
    requires Newline in buf
    ensures var tail := SplitFirst(buf).1;
      Frames(buf + later) == [SplitFirst(buf).0] + Frames(tail) + Frames(Leftover(tail) + later)
  {
    var line, tail := SplitFirst(buf).0, SplitFirst(buf).1;
    FirstFrameThenTail(buf, later);
    FramesAppend(tail, later);
    Associative([line], Frames(tail), Frames(Leftover(tail) + later));
  }

  /**
   * The frames lost can be real: a reply read in one piece as an introduction line followed
   * by a second complete line yields two frames, but the initiator only ever frames the first.
   */
  lemma InitiatorAsWrittenLosesFrame()
    ensures var buf: seq<byte> := [1, Newline, 2, Newline];
      && Frames(buf) == [[1], [2]]
      && [SplitFirst(buf).0] + Frames(InitiatorStartAsWritten) == [[1]]
  {
    var buf: seq<byte> := [1, Newline, 2, Newline];
    SplitUnique(buf, [1], [2, Newline]);
    SplitUnique([2, Newline], [2], []);
    FramesStep(buf);
    FramesStep([2, Newline]);
    assert Frames([]) == [];
  }
}
