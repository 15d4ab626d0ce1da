/**
 * What the peer manager does with one decoded frame (`process_message`), the records it
 * builds for sending, and the read loops that frame a connection's stream and dispatch
 * each complete line in order.
 */
module Messages {
  import opened Wrappers
  import opened Assoc
  import opened Json
  import opened Framing
  import opened Text

  /** What reaches the message callback: a display string, or the message itself. */
  datatype Output = Notice(text: string) | Raw(message: Value)

  /**
   * The effect of `process_message` on one frame: an output for the callback, or an
   * exception (`message.get` on a decoded value that is truthy but not a dict), which
   * ends the reading session.
   */
  datatype Dispatch = Deliver(output: Output) | Raise

  const InvalidWarning: string := "[WARN] Received invalid message."

  function ChatNotice(sender: Value, content: Value): string {
    "[CHAT] " + Render(sender) + ": " + Render(content)
  }

  function PresenceNotice(sender: Value, status: Value): string {
    "[PRESENCE] " + Render(sender) + " is now " + Render(status) + "."
  }

  /** The message kind of a decoded dict: its "type" field. */
  function Kind(m: Value): Value
    requires m.Obj?
  {
    Field(m.fields, "type")
  }

  /** A decoded value that passes `if not message`. */
  predicate Accepted(decoded: Option<Value>) {
    decoded.Some? && Truthy(decoded.value)
  }

  /** `process_message` on the decoder's result for one frame. */
  function Inbound(decoded: Option<Value>): (d: Dispatch)
    ensures !Accepted(decoded) ==> d == Deliver(Notice(InvalidWarning))
    ensures d == Raise <==> Accepted(decoded) && !decoded.value.Obj?
    ensures d.Deliver? && d.output.Raw? <==>
      Accepted(decoded) && decoded.value.Obj? && Kind(decoded.value) != Str("chat")
      && Kind(decoded.value) != Str("presence")
    ensures d.Deliver? && d.output.Raw? ==> decoded == Some(d.output.message)
    ensures Accepted(decoded) && decoded.value.Obj? && Kind(decoded.value) == Str("chat") ==>
      d == Deliver(Notice(ChatNotice(Field(decoded.value.fields, "sender"), Field(decoded.value.fields, "content"))))
    ensures Accepted(decoded) && decoded.value.Obj? && Kind(decoded.value) == Str("presence") ==>
      d == Deliver(Notice(PresenceNotice(Field(decoded.value.fields, "sender"), Field(decoded.value.fields, "status"))))
  {
    if !Accepted(decoded) then Deliver(Notice(InvalidWarning))
    else
      var m := decoded.value;
      if !m.Obj? then Raise
      else if Kind(m) == Str("chat") then
        Deliver(Notice(ChatNotice(Field(m.fields, "sender"), Field(m.fields, "content"))))
      else if Kind(m) == Str("presence") then
        Deliver(Notice(PresenceNotice(Field(m.fields, "sender"), Field(m.fields, "status"))))
      else Deliver(Raw(m))
  }

  const ChatFields: seq<string> := ["type", "sender", "recipient", "content"]

  /** The four fields of a chat record before `extra_fields` is applied. */
  function ChatBase(kind: Value, sender: string, recipient: Value, content: Value): Entries<string, Value> {
    [("type", kind), ("sender", Str(sender)), ("recipient", recipient), ("content", content)]
  }

  /**
   * The dict `send_chat_message` builds when it is not told to send `content` verbatim:
   * type, sender, recipient and content, in that order, then `extra_fields` applied with
   * `update`.
   */
  function ChatRecord(kind: Value, sender: string, recipient: Value, content: Value,
                      extra: Entries<string, Value>): (m: Value)
    ensures m.Obj?
  {
    Obj(Update(ChatBase(kind, sender, recipient, content), extra))
  }

  /**
   * A chat record is a dict whose first four keys are type, sender, recipient and content;
   * its other keys come from `extra_fields`.
   */
  lemma ChatRecordKeys(kind: Value, sender: string, recipient: Value, content: Value,
                       extra: Entries<string, Value>)
    ensures var m := ChatRecord(kind, sender, recipient, content, extra);
      && UniqueKeys(m.fields)
      && |m.fields| >= 4 && Keys(m.fields)[..4] == ChatFields
      && forall k :: k in Keys(m.fields) ==> k in ChatFields || k in Keys(extra)
  {
    var base := ChatBase(kind, sender, recipient, content);
    assert Keys(base) == ChatFields;
    UpdateShape(base, extra);
  }

  /**
   * Every field of a chat record holds what `extra_fields` gives it, and otherwise the
   * value `send_chat_message` put there: the kind, the sender's own name, the recipient,
   * the content.
   */
  lemma ChatRecordFields(kind: Value, sender: string, recipient: Value, content: Value,
                         extra: Entries<string, Value>, k: string)
    requires UniqueKeys(extra)
    ensures var m := ChatRecord(kind, sender, recipient, content, extra);
      Field(m.fields, k) ==
        if k in Keys(extra) then Field(extra, k)
        else if k == "type" then kind
        else if k == "sender" then Str(sender)
        else if k == "recipient" then recipient
        else if k == "content" then content
        else Null
  {
    UpdateLookup(ChatBase(kind, sender, recipient, content), extra, k);
    if k !in Keys(extra) {
      ChatBaseField(kind, sender, recipient, content, k);
    }
  }

  /** The four fields `send_chat_message` fills in itself, looked up by name. */
  lemma ChatBaseField(kind: Value, sender: string, recipient: Value, content: Value, k: string)
    ensures Field(ChatBase(kind, sender, recipient, content), k) ==
        if k == "type" then kind
        else if k == "sender" then Str(sender)
        else if k == "recipient" then recipient
        else if k == "content" then content
        else Null
  {
    var base := ChatBase(kind, sender, recipient, content);
    assert Keys(base) == ChatFields;
    assert UniqueKeys(base);
    if k == "type" { LookupAt(base, 0); }
    else if k == "sender" { LookupAt(base, 1); }
    else if k == "recipient" { LookupAt(base, 2); }
    else if k == "content" { LookupAt(base, 3); }
    else { assert k !in Keys(base); }
  }

  /** The dict `broadcast_presence` sends. */
  function PresenceRecord(sender: string, status: string): Value {
    Obj([("type", Str("presence")), ("sender", Str(sender)), ("status", Str(status))])
  }

  /** The dict both handshake sides send. */
  function IntroduceRecord(name: string): Value {
    Obj([("type", Str("introduce")), ("username", Str(name))])
  }

  /**
   * A plain chat message, once decoded by its recipient, is shown as
   * `[CHAT] <sender>: <content>`.
   */
  lemma ChatArrivesAsNotice(sender: string, recipient: Value, content: string)
    ensures Inbound(Some(ChatRecord(Str("chat"), sender, recipient, Str(content), [])))
         == Deliver(Notice("[CHAT] " + sender + ": " + content))
  {
    var m := ChatRecord(Str("chat"), sender, recipient, Str(content), []);
    ChatRecordFields(Str("chat"), sender, recipient, Str(content), [], "type");
    ChatRecordFields(Str("chat"), sender, recipient, Str(content), [], "sender");
    ChatRecordFields(Str("chat"), sender, recipient, Str(content), [], "content");
    ChatRecordKeys(Str("chat"), sender, recipient, Str(content), []);
    assert Accepted(Some(m)) && Kind(m) == Str("chat");
    assert ChatNotice(Field(m.fields, "sender"), Field(m.fields, "content")) == "[CHAT] " + sender + ": " + content;
  }

  /** A presence broadcast, once decoded, is shown as `[PRESENCE] <sender> is now <status>.` */
  lemma PresenceArrivesAsNotice(sender: string, status: string)
    ensures Inbound(Some(PresenceRecord(sender, status)))
         == Deliver(Notice("[PRESENCE] " + sender + " is now " + status + "."))
  {
    var fields := PresenceRecord(sender, status).fields;
    assert UniqueKeys(fields);
    LookupAt(fields, 0);
    LookupAt(fields, 1);
    LookupAt(fields, 2);
  }

  /**
   * The outputs the callback receives for a run of frames: one per frame, in order, up to
   * the first frame whose processing raises; nothing after it.
   */
  function Deliveries(decode: seq<byte> -> Option<Value>, lines: seq<seq<byte>>): seq<Output> {
    if lines == [] then []
    else match Inbound(decode(lines[0]))
      case Raise => []
      case Deliver(o) => [o] + Deliveries(decode, lines[1..])
  }

  /** Some frame among `lines` raises when processed. */
  predicate Halts(decode: seq<byte> -> Option<Value>, lines: seq<seq<byte>>) {
    lines != [] && (Inbound(decode(lines[0])) == Raise || Halts(decode, lines[1..]))
  }

  /** Dispatching two runs of frames one after the other is dispatching their concatenation. */
  lemma {:induction false} DeliveriesAppend(decode: seq<byte> -> Option<Value>, a: seq<seq<byte>>,
                                            b: seq<seq<byte>>)
    ensures Halts(decode, a + b) == (Halts(decode, a) || Halts(decode, b))
    ensures Deliveries(decode, a + b) ==
      if Halts(decode, a) then Deliveries(decode, a) else Deliveries(decode, a) + Deliveries(decode, b)
  {
    if a == [] {
      assert a + b == b;
    } else {
      assert (a + b)[0] == a[0] && (a + b)[1..] == a[1..] + b;
      DeliveriesAppend(decode, a[1..], b);
    }
  }

  /**
   * What the callback receives for a run of frames: frame by frame, in wire order, the
   * output of processing it, stopping just before the first frame that raises, if any.
   */
  lemma {:induction false} DeliveriesInOrder(decode: seq<byte> -> Option<Value>, lines: seq<seq<byte>>)
    ensures var outs := Deliveries(decode, lines);
      && |outs| <= |lines|
      && (forall i :: 0 <= i < |outs| ==> Inbound(decode(lines[i])) == Deliver(outs[i]))
      && (|outs| < |lines| <==> Halts(decode, lines))
      && (|outs| < |lines| ==> Inbound(decode(lines[|outs|])) == Raise)
  {
    if lines != [] {
      DeliveriesInOrder(decode, lines[1..]);
    }
  }

  /**
   * The inner loop `while b'\n' in buffer: line, buffer = buffer.split(b'\n', 1);
   * self.process_message(line, ...)`: it dispatches the buffer's complete lines in order
   * and keeps the unfinished tail, unless processing a line raises.
   */
  method DrainFrames(decode: seq<byte> -> Option<Value>, buffer: seq<byte>)
    returns (outs: seq<Output>, halted: bool, rest: seq<byte>)
    ensures outs == Deliveries(decode, Frames(buffer))
    ensures halted == Halts(decode, Frames(buffer))
    ensures !halted ==> rest == Leftover(buffer) && Newline !in rest
  {
    rest := buffer;
    outs := [];
    halted := false;
    ghost var done: seq<seq<byte>> := [];
    while Newline in rest
      invariant Frames(buffer) == done + Frames(rest)
      invariant Leftover(buffer) == Leftover(rest)
      invariant outs == Deliveries(decode, done) && !Halts(decode, done)
      decreases |rest|
    {
      var parts := SplitFirst(rest);
      FramesStep(rest);
      var line := parts.0;
      rest := parts.1;
      DeliveriesAppend(decode, done, [line]);
      DeliveriesAppend(decode, done + [line], Frames(rest));
      DeliveriesAppend(decode, done, [line] + Frames(rest));
      Associative(done, [line], Frames(rest));
      var d := Inbound(decode(line));
      SingleFrame(decode, line);
      if d.Raise? {
        halted := true;
        return;
      }
      outs := outs + [d.output];
      done := done + [line];
    }
    assert Frames(rest) == [];
    assert done == Frames(buffer);
    FramesUndelimited(buffer);
  }

  /** Dispatching a single frame. */
  lemma SingleFrame(decode: seq<byte> -> Option<Value>, line: seq<byte>)
    ensures Halts(decode, [line]) == Inbound(decode(line)).Raise?
    ensures Inbound(decode(line)).Deliver? ==> Deliveries(decode, [line]) == [Inbound(decode(line)).output]
  {
    assert [line][0] == line && [line][1..] == [];
  }

  /** Reading more bytes after a run that did not raise continues its outputs. */
  lemma StreamGrows(decode: seq<byte> -> Option<Value>, seen: seq<byte>, data: seq<byte>)
    requires !Halts(decode, Frames(seen))
    ensures Deliveries(decode, Frames(seen + data))
         == Deliveries(decode, Frames(seen)) + Deliveries(decode, Frames(Leftover(seen) + data))
    ensures Halts(decode, Frames(seen + data)) == Halts(decode, Frames(Leftover(seen) + data))
    ensures Leftover(seen + data) == Leftover(Leftover(seen) + data)
  {
    FramesAppend(seen, data);
    DeliveriesAppend(decode, Frames(seen), Frames(Leftover(seen) + data));
  }

  /** Once a frame has raised, bytes received later change nothing. */
  lemma StreamHalted(decode: seq<byte> -> Option<Value>, seen: seq<byte>, later: seq<byte>)
    requires Halts(decode, Frames(seen))
    ensures Deliveries(decode, Frames(seen + later)) == Deliveries(decode, Frames(seen))
  {
    FramesAppend(seen, later);
    DeliveriesAppend(decode, Frames(seen), Frames(Leftover(seen) + later));
  }

  /**
   * The outer read loop of an established session, `while self.running: data =
   * conn.recv(4096); if not data: break; buffer += data; ...`, started with the bytes
   * `buffer` left over from the handshake. Its outputs are those of framing the whole
   * received stream, however it was cut into reads, as long as at least one read
   * delivered bytes; frames pending in `buffer` are dispatched only after more bytes come.
   */
  method ReadFrames(decode: seq<byte> -> Option<Value>, running: bool, buffer: seq<byte>,
                    chunks: seq<Read>) returns (outs: seq<Output>)
    ensures outs == if running && Received(chunks) != [] then Deliveries(decode, Frames(buffer + Received(chunks)))
                    else []
  {
    outs := [];
    if !running {
      return;
    }
    var pending := buffer;
    var i := 0;
    ghost var seen := buffer;
    while i < |chunks| && Delivers(chunks[i])
      invariant i <= |chunks|
      invariant buffer + Received(chunks) == seen + Received(chunks[i..])
      invariant i == 0 ==> pending == buffer && seen == buffer && outs == []
      invariant i > 0 ==> Received(chunks) != []
      invariant i > 0 ==> pending == Leftover(seen) && outs == Deliveries(decode, Frames(seen))
                          && !Halts(decode, Frames(seen))
    {
      var data := chunks[i].bytes;
      ReceivedFrom(chunks, i);
      var more, halted, rest := DrainFrames(decode, pending + data);
      ghost var seen' := seen + data;
      if i == 0 {
        outs := more;
      } else {
        StreamGrows(decode, seen, data);
        outs := outs + more;
      }
      assert outs == Deliveries(decode, Frames(seen'));
      assert halted == Halts(decode, Frames(seen'));
      assert !halted ==> rest == Leftover(seen');
      ghost var after := Received(chunks[i + 1..]);
      Associative(seen, data, after);
      assert Received(chunks) != [];
      seen := seen';
      pending := rest;
      i := i + 1;
      if halted {
        StreamHalted(decode, seen, Received(chunks[i..]));
        return;
      }
    }
    ReceivedFrom(chunks, i);
    assert buffer + Received(chunks) == seen;
  }
}
