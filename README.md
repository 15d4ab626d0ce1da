# Peer network core, modelled in Dafny

This project models the peer connection manager of a small peer-to-peer chat program
(`PeerNetwork` in `network.py`) and the command parser of its console front end
(`main.py`). It also proves properties of the model.

A node has a user name and a registry from peer name to socket. Both sides of a new TCP
connection exchange an introduction, `{"type": "introduce", "username": ...}`, as the
first line-delimited frame. The responder also asks an optional admission callback. After
a successful handshake the node registers the peer and enters a reading session. The
session frames the byte stream on `\n` and hands every decoded frame to `process_message`.
When the session ends, the node closes the socket and deregisters the peer. The node also:

- sends chat messages to one peer;
- broadcasts presence records to every peer;
- lists the registered peers;
- shuts down.

Modules, one per concern:

- `Wrappers`: `Option`.
- `Assoc`: an insertion-ordered dictionary. It stands in for Python's `dict`, both for the
  registry and for JSON objects. The model needs the order: the responder's cleanup scan
  finds the *first* name mapped to a socket.
- `Text`: decimal numerals and `str.join`.
- `Json`:
  - the decoded JSON values;
  - Python truthiness (`if not message`);
  - hashability, and dictionary keys compared as Python compares them (`True == 1`);
  - `dict.get`;
  - the `str()` an f-string substitutes, with `repr` for strings inside lists and dicts.
- `Framing`:
  - the split on the first `\n` (`Framing.Frames` and `Framing.Leftover` repeat it);
  - the wire form `Framing.Unframe`;
  - the scripts of `recv` results;
  - the handshake's wait for the first delimiter (`Framing.ReadUntilDelimiter`).
- `Messages`:
  - `process_message` as a pure dispatch function;
  - the chat, presence and introduction records;
  - the inner split loop (`Messages.DrainFrames`);
  - the session's read loop (`Messages.ReadFrames`).
- `Handshake`: the acceptance rule for the first frame, and the finding below.
- `Network`:
  - the class `PeerNetwork`, with the registry, `running`, the listening socket and the
    admission callback as fields;
  - a ghost log of every message sent and every output handed on;
  - the set of sockets the node has closed;
  - one method per operation of `network.py`;
  - lemmas about how the registry evolves.
- `Cli`: `strip`/`split` over Python's whitespace set, `int()`, the per-line decision,
  and the `while True` loop.

The model abstracts the environment as follows:

- **Sockets** are numbers.
- **`recv`** results are a script, `seq<Read>`. An empty read or the end of the script is
  a close. `Failed` is a read that raises.
- **Sending** appends an event to the log.
- **The JSON codec** (`decode_message`) is the `decode` parameter of the class, and it
  returns `Option<Value>`. Encoding is not needed: a `Sent` event carries the value itself.
- **The admission callback** is an optional pure function of the name and the address.
- **A `sendall` of the handshake reply** is a boolean parameter saying whether it succeeds.
  `connect` succeeding is another such parameter.

Each method runs as one atomic step. The registry lock serialises the blocks that touch
the registry, and interleavings are not modelled.

## Behaviour worth noting

These follow the code as written:

- A responder session deregisters by socket: the first name whose socket is the closed one.
  A falsy name fails the `if to_remove:` test, so it stays registered, mapped to the closed
  socket (`Network.ResponderSessionEnd`).
- An initiator session deregisters by name, whichever socket that name maps to by then
  (`Network.ListenTeardownIgnoresOwner`).
- A decoded frame can be truthy but not a dict (a number, a string, a list). `message.get`
  then raises, which ends the session (`Messages.Inbound` returns `Raise`). On the
  initiator, the same raise escapes to the outer handler, which leaves the socket open
  (`Network.InitiatorCloses`).
- A name that cannot be hashed (a list or a dict) makes the registry assignment raise:
  - the responder has already sent its reply when this happens, and the cleanup runs;
  - the initiator does not register the peer, and the socket stays open.
- Bytes that follow the introduction line in the responder's buffer wait in the session
  buffer. They are dispatched only after the next read delivers more bytes.

## Model

| member | source | states |
|---|---|---|
| Framing.Frames | network.py:67-69 | the complete lines the inner split loop hands on, in order (the properties are the lemmas below) |
| Framing.Leftover | network.py:67-69 | the unfinished tail the inner split loop keeps in the buffer |
| Framing.SplitFirst | network.py:47 | the split gives the line before the first delimiter, and that line has no delimiter; line, delimiter and rest put back together are the buffer |
| Framing.SplitUnique | network.py:47 | any decomposition `line + "\n" + rest` with a delimiter-free line is the split |
| Framing.FramesRebuild | network.py:66-69 | nothing is lost and order is kept: the dispatched lines, each followed by `\n`, then the retained tail, give back the buffer |
| Framing.FramesUndelimited | network.py:67-69 | no dispatched line and no retained tail holds a `\n` |
| Framing.FramesOfUnframe | network.py:67-69 | framing inverts the wire form: delimiter-free lines written out and followed by a delimiter-free tail are read back as exactly those lines, and the tail is kept |
| Framing.FramesAppend | network.py:61-69 | framing does not depend on how the stream is cut into reads: frames of `a + b` are the frames of `a`, then the frames of `a`'s tail followed by `b` |
| Framing.ReadUntilDelimiter | network.py:40-45 | the wait for the first delimiter ends as one of three cases. Framed: exactly when the stream holds a `\n`, and the buffer plus the unread chunks is the stream. Closed: exactly when there is no `\n` and no failed read, and the close returns the partial bytes. Broken: when a read fails first |
| Messages.ChatRecord | network.py:174-181 | the record `send_chat_message` builds is a dict (the fields are stated by the lemmas below) |
| Messages.PresenceRecord | network.py:192-196 | the presence record: type `presence`, our own name, the status |
| Messages.IntroduceRecord | network.py:57 | the introduction both sides send: type `introduce` and our own name |
| Messages.Deliveries | network.py:67-69 | the dispatch of each frame in order, stopping at the first that raises (stated by `DeliveriesInOrder`) |
| Messages.Inbound | network.py:143-163 | `process_message`: a failed decode or falsy message gives the invalid-message warning; a truthy non-dict raises; `chat` gives `[CHAT] <sender>: <content>` and `presence` gives `[PRESENCE] <sender> is now <status>.` from the message's fields; exactly the other types pass the message through unchanged |
| Messages.ChatNotice | network.py:152 | the chat notice: `[CHAT] `, the sender's `str()`, `: `, the content's `str()` |
| Messages.PresenceNotice | network.py:156 | the presence notice: `[PRESENCE] `, the sender's `str()`, ` is now `, the status's `str()`, `.` |
| Messages.ChatArrivesAsNotice | network.py:149-152 | a chat record built by `send_chat_message` is shown by its recipient as `[CHAT] <sender>: <content>` |
| Messages.PresenceArrivesAsNotice | network.py:153-156 | a presence record built by `broadcast_presence` is shown as `[PRESENCE] <sender> is now <status>.` |
| Messages.ChatRecordKeys | network.py:174-181 | a chat record is a dict with unique keys; its first four keys are type, sender, recipient and content, and any other key comes from `extra_fields` |
| Messages.ChatRecordFields | network.py:174-181 | each field holds what `extra_fields` gives it, and otherwise the message type, our own name, the recipient, the content, or nothing |
| Messages.ChatBaseField | network.py:174-179 | the four fields before `update`, looked up by name |
| Messages.DeliveriesAppend | network.py:67-69 | dispatching two runs of frames one after the other is dispatching their concatenation, and nothing of the second run is dispatched once the first raises |
| Messages.DeliveriesInOrder | network.py:67-69 | the outputs handed on are, frame by frame in wire order, the dispatch of each frame, and stop exactly at the first frame that raises |
| Messages.DrainFrames | network.py:67-69 | the inner split loop hands on the dispatch of every complete line of the buffer in order. Unless a line raises, it keeps exactly the unfinished tail, which has no `\n` |
| Messages.StreamGrows | network.py:61-69 | after a run that did not raise, reading more bytes continues its outputs with the frames of the old tail followed by the new bytes |
| Messages.StreamHalted | network.py:61-69 | once a frame has raised, bytes received later add no output |
| Messages.ReadFrames | network.py:61-69 | the session's read loop, started on the handshake tail. Its outputs are the dispatch of the frames of the tail followed by everything received, if the node is running and some read delivered bytes; otherwise nothing |
| Handshake.Introduction | network.py:48-50 | the first frame introduces a peer exactly when it decodes to a truthy dict whose type is `introduce`; the peer is its `username` field. It raises exactly when it decodes to a truthy non-dict |
| Handshake.Admits | network.py:52-54 | a peer is admitted when no request callback is set, or when the callback accepts the name and address |
| Handshake.IntroductionRoundTrip | network.py:57-58 | the introduction each side sends is accepted by the other, under the name it was sent with |
| Handshake.FirstFrameThenTail | network.py:47 | splitting the first line off a buffer and reading on loses nothing: the line is the stream's first frame, and the rest of the buffer followed by later bytes frames into the remaining frames |
| Handshake.InitiatorAsWrittenLoses | network.py:104 | as written, the initiator frames only the bytes read after the reply, while the stream frames into the introduction, the complete lines read behind it and then the rest. When the reply's read ends on a delimiter, the frames lost are exactly the complete lines read behind the introduction |
| Handshake.InitiatorAsWrittenLosesFrame | network.py:104 | an instance: the bytes `1 \n 2 \n` read in one piece frame as two lines, and as written only the first is ever framed |
| Handshake.InitiatorStartAsWritten | network.py:124 | the initiator's session as written starts from an empty buffer, the bytes after the reply's first line having been discarded at network.py:104 |
| Network.AfterSessionEnd | network.py:80-87 | the registry after the responder's cleanup (stated by `SessionEndCutsFirst`) |
| Network.Welcome | network.py:48-55 | the peer the responder admits: the introduced name when the callback, or the default, accepts it |
| Network.InitiatorCloses | network.py:100-117 | the initiator closes the socket exactly when the peer closed without sending anything, or a complete first line is not an introduction |
| Network.TrueAndOneShareAnEntry | network.py:60 | names Python finds equal are one registry entry: `true` assigned after `1` replaces its socket and leaves one entry |
| Network.NamedAfterPut | network.py:60 | after an assignment every key still stands for a hashable name object that is that key |
| Network.NamedAfterRemove | network.py:87 | after a deletion every remaining key still stands for its name object |
| Network.PeerNames | network.py:189 | the name object of each entry, in registry order, each one equal to its entry's key as Python compares names |
| Network.NamesAfter | network.py:60 | the name object the dict keeps for each key: an assignment to a key already present keeps the old name object, and a new key stores the name given |
| Network.FirstSlot | network.py:82-85 | the position of the first entry holding the socket: no earlier entry holds it |
| Network.FindName | network.py:81-85 | the cleanup scan finds the name at the first entry whose socket is `conn`, or nothing |
| Network.SessionEndCutsFirst | network.py:80-87 | the responder's cleanup removes at most one entry: the first one holding the socket, and only if its name is truthy. All other entries are untouched, and keys stay unique |
| Network.SessionEndUnregistered | network.py:42-44 | a cleanup on a socket the registry does not hold leaves the registry alone |
| Network.ResponderSessionEnd | network.py:59-60 | a responder session that registers on a fresh socket and then ends leaves the registry as if the name had been deleted beforehand. With a falsy name, the entry stays behind |
| Network.InitiatorSessionEnd | network.py:139-141 | an initiator session that registers and then ends leaves the registry as if the name had been deleted beforehand |
| Network.ListenTeardownIgnoresOwner | network.py:139-141 | the initiator's cleanup deletes the name even when it maps to another socket, and every other name keeps its socket |
| Network.SecondHandshakeReplaces | network.py:59-60 | a second handshake under a registered name keeps the name once, in its position, mapped to the newer socket |
| Network.PeerNetwork.constructor | network.py:6-14 | a new node has an empty registry, is running, has no listening socket and no admission callback |
| Network.PeerNetwork.StartServer | network.py:16-21 | the listening socket is open |
| Network.PeerNetwork.Register | network.py:59-60 | registering assigns the name under its Python key, so an equal name (`True` for `1`) replaces the socket in place. The registry stays a dictionary, and the dict keeps the name object it first stored for a key |
| Network.PeerNetwork.ForgetSocket | network.py:80-87 | the responder's cleanup changes the registry exactly as the first-match scan and the truthiness test say |
| Network.PeerNetwork.ForgetName | network.py:139-141 | the initiator's cleanup deletes the name's key if present, and the registry stays a dictionary |
| Network.PeerNetwork.RemoveUnique | network.py:87 | deleting any key keeps the registry a dictionary whose keys stand for their name objects |
| Network.PeerNetwork.AwaitFirstLine | network.py:40-49 | the wait for the first line, and the decision about it: the same outcome as the stream's first frame |
| Network.PeerNetwork.RespondToIntroduction | network.py:36-87 | a close before any `\n` closes the socket and changes neither the registry nor the log. The peer is registered exactly when the first frame is an introduction, the callback (default: accept) admits it, the reply is sent and the name is hashable; otherwise the registry is unchanged and the socket is closed. The reply goes out exactly when the peer is admitted |
| Network.PeerNetwork.Admit | network.py:55-60 | an admitted peer is sent our introduction, and it is registered under its Python key exactly when that reply was sent and its name is hashable; otherwise the registry is unchanged |
| Network.PeerNetwork.Answer | network.py:55-73 | our introduction goes out exactly when the peer was admitted. The registry changes exactly when the peer is admitted, the reply is sent and its name is hashable; in every other case the socket is closed and the registry is unchanged |
| Network.PeerNetwork.Refuse | network.py:71-87 | refusing closes the socket and leaves a registry without that socket unchanged |
| Network.PeerNetwork.ServeResponder | network.py:61-87 | the session hands on every output of the stream's frames in order, closes the socket and runs the first-match cleanup |
| Network.PeerNetwork.HandleConnection | network.py:36-87 | an accepted connection ends closed, and no other socket is closed. On success, the reply comes first, then, as long as reads deliver bytes while the network runs, every frame after the introduction line is handed on in wire order, stopping before the first whose dispatch raises, and the registry ends as the cleanup leaves it. On failure, the registry is untouched and the log holds the reply exactly when the peer was admitted |
| Network.PeerNetwork.ConnectToPeer | network.py:89-121 | in the corrected form of the finding below: we introduce ourselves if `connect` succeeds, and the peer is registered exactly when the reply's first frame introduces a hashable name. The socket is closed exactly when the peer sent nothing or sent a first line that is not an introduction. Broken reads, partial lines and raising frames leave it open. The bytes after the first line are kept for the session |
| Network.PeerNetwork.ConnectAndListen | network.py:103-141 | in the corrected form of the finding below (network.py:104 discards the bytes after the first line and network.py:124 starts from an empty buffer): after a successful dial, as long as reads deliver bytes while the network runs, every frame after the reply's introduction line is handed on in wire order, stopping before the first whose dispatch raises, the socket is closed and the name is deregistered. Otherwise the registry is unchanged, the log holds our introduction exactly when `connect` succeeded, and the socket is closed exactly when the initiator's close rule says so |
| Network.PeerNetwork.ListenToPeer | network.py:123-141 | the initiator's session hands on every output of the stream's frames in order, closes the socket and deletes the peer's name |
| Network.PeerNetwork.SendChatMessage | network.py:165-185 | the recipient is looked up as Python compares names. An unknown recipient gets nothing. Otherwise exactly one message goes to the recipient's socket: the content verbatim, or the chat record with `extra_fields` over it. The logged event is the attempted `sendall`: a send that fails and is caught at network.py:184-185 is logged the same |
| Network.PeerNetwork.ListPeers | network.py:187-189 | the result is exactly the registered names, in registration order, each the name object the dict stored for its key |
| Network.PeerNetwork.BroadcastPresence | network.py:191-202 | the same presence record goes to every registered socket, once each, in registry order |
| Network.PeerNetwork.Shutdown | network.py:204-216 | the node stops running, sends `offline` presence to every peer, closes every registered socket, and leaves an empty registry and no listening socket |
| Assoc.Keys | network.py:189 | the keys in entry order |
| Assoc.Lookup | network.py:167 | `get` finds nothing exactly when the key is absent |
| Assoc.LookupAt | network.py:167 | in a dictionary, looking up any stored key finds its value |
| Assoc.Put | network.py:60 | after assignment the key looks up to the new value |
| Assoc.PutKeys | network.py:60 | assignment keeps the keys in order and appends the key only when it is new |
| Assoc.PutUnique | network.py:60 | assignment keeps keys unique |
| Assoc.PutOther | network.py:60 | assignment leaves every other key's value alone |
| Assoc.PutAt | network.py:60 | assigning a present key replaces its entry in place |
| Assoc.PutNew | network.py:60 | assigning an absent key appends it |
| Assoc.Remove | network.py:87 | `del d[k]`, as the lemmas below state it |
| Assoc.Update | network.py:181 | `d.update(extra)`, as `UpdateLookup` and `UpdateShape` state it |
| Assoc.RemoveOther | network.py:141 | deleting a key leaves every other key's value alone |
| Assoc.RemoveMissing | network.py:140-141 | deleting an absent key changes nothing |
| Assoc.RemoveAt | network.py:87 | deleting a key stored at one position cuts out that entry |
| Assoc.RemoveCutsOne | network.py:87 | deleting a present key removes exactly its entry, keeps keys unique, and the key is gone |
| Assoc.RemoveKeysShrink | network.py:141 | deleting introduces no key |
| Assoc.RemoveLast | network.py:141 | deleting a key that was just appended gives back the dictionary before |
| Assoc.UpdateLookup | network.py:180-181 | after `update` every key holds the value the update gives it, and otherwise its old value |
| Assoc.UpdateShape | network.py:180-181 | `update` keeps the old keys in their positions, adds only keys of the update, and keeps keys unique |
| Text.Decimal | network.py:152 | `str(n)` of an integer; `Cli.ParseIntDecimal` reads it back when it has at most 4300 digits |
| Text.Join | main.py:59 | `sep.join(parts)`; `Cli.TokensOfJoin` splits it back |
| Text.NatDigitsValue | main.py:49 | reading back a decimal numeral gives the number it was written from |
| Json.Truthy | network.py:145 | Python truthiness: `None`, `False`, `0`, the empty string, list and dict are falsy |
| Json.Hashable | network.py:60 | the values that can be dict keys: everything but lists and dicts |
| Json.PyKey | network.py:60 | the dictionary key a name is stored under; a name and its key have the same truthiness |
| Json.KeyIsEquality | network.py:60 | two hashable names get the same key exactly when Python finds them equal (`True == 1`, `False == 0`) |
| Json.Render | network.py:152 | `str()` of a value, as the f-strings substitute it |
| Json.Field | network.py:49-50 | `message.get(name)` on a dict: the field's value, or `None` when the dict has no such field |
| Json.Repr | network.py:152 | `repr` of a value inside a list or dict |
| Json.StrRepr | network.py:152 | `repr` of a string starts and ends with the quote Python chooses |
| Json.EscapedPlain | network.py:152 | printable ASCII without quotes or backslashes is never escaped |
| Json.StrReprPlain | network.py:152 | a string of such characters is shown between single quotes, unchanged |
| Json.StrReprApostrophe | network.py:152 | an example: a string with an apostrophe is shown in double quotes |
| Json.StrReprBothQuotes | network.py:152 | an example: a string with both quotes keeps single quotes and escapes the single one |
| Cli.Strip | main.py:39 | `strip()`: `lstrip` then `rstrip` (their properties follow) |
| Cli.IsSpace | main.py:39-42 | the characters `str.strip()` and `str.split()` treat as whitespace: Python's `isspace` set |
| Cli.TrimLeft | main.py:39 | `lstrip` keeps no leading separator and never lengthens the string |
| Cli.TrimLeftSuffix | main.py:39 | what `lstrip` keeps is a suffix of its input |
| Cli.TrimLeftDrops | main.py:39 | what `lstrip` removes is separators only |
| Cli.TrimRight | main.py:39 | `rstrip` keeps no trailing separator and never lengthens the string |
| Cli.TrimRightPrefix | main.py:39 | what `rstrip` keeps is a prefix of its input |
| Cli.TrimRightDrops | main.py:39 | what `rstrip` removes is separators only |
| Cli.Word | main.py:42 | the longest separator-free prefix: it stops at a separator or at the end |
| Cli.Tokens | main.py:42 | `split()` with no argument (its properties follow) |
| Cli.TokensAreWords | main.py:42 | every token of `split()` is non-empty and free of separators |
| Cli.TokensOfJoin | main.py:42 | splitting words joined by single spaces gives back the words |
| Cli.SkipIffBlank | main.py:39-41 | a line is skipped exactly when every character is a separator |
| Cli.TokensSpaces | main.py:42 | separators in front of a string change neither `lstrip()` nor `split()` |
| Cli.TokensTrailing | main.py:42 | separators after a string do not change `split()` |
| Cli.TokensOfStrip | main.py:39-42 | splitting the stripped line gives the words of the line itself |
| Cli.TokensOfSpaced | main.py:42 | words with any runs of separators around and between them split back into exactly the words |
| Cli.Decide | main.py:43-77 | the first word picks the command: `connect` with fewer than three words is a usage error, with a port `int()` refuses (not a literal, or more than 4300 digits) is a bad port, and otherwise dials the second word at that port; `send` with fewer than three words is a usage error, and otherwise sends the words from the third on, joined by single spaces, to the second; `list`, `help` and `exit` are themselves; any other word is unknown. Never a skip |
| Cli.ParseLine | main.py:39-42 | a line with no words is skipped, and any other is decided on its words |
| Cli.Reply | main.py:44-77 | the fixed messages the usage errors, the bad port, `exit` and an unknown command print |
| Cli.ParseLineOfJoin | main.py:39-42 | a line of words separated by single spaces is decided on exactly those words |
| Cli.ParseInt | main.py:49 | `int()` of a token, with Python's default limit of 4300 digits (`Cli.MaxStrDigits`); it succeeds only on a non-empty string |
| Cli.ParseIntAccepts | main.py:48-52 | `int()` succeeds exactly on the literals of at most 4300 digits: an optional leading sign, then digits ending in a digit, each underscore standing between two digits |
| Cli.ParseIntIgnoresUnderscores | main.py:49 | whatever `int()` accepts has the same value with its underscores removed |
| Cli.ParseIntDecimal | main.py:48-49 | `int(str(n)) == n` for every integer of at most 4300 digits, and `int()` refuses the decimal text of any longer one (for which Python's `str(n)` itself raises) |
| Cli.ParseIntUnderscore | main.py:48-49 | an example of the two lemmas above: `5_000` reads as 5000 |
| Cli.ParseIntRefuses | main.py:48-52 | examples of refused ports: the empty string, a lone sign, a leading, trailing or doubled underscore, a non-digit |
| Cli.ConnectRoundTrip | main.py:43-53 | `connect <host> <port>` asks to dial exactly that host and port, and is a bad port when the port has more than 4300 digits |
| Cli.SendRoundTrip | main.py:54-60 | `send <name> <words>` typed one space apart sends to that name the words 2 onwards joined by single spaces |
| Cli.SendSpaced | main.py:39-60 | the same for any runs of separators around and between the words: the message is the words joined by single spaces |
| Cli.Acted | main.py:37-41 | the commands acted on include no skip, and none before the last is `exit` |
| Cli.ActedExit | main.py:71-75 | the commands acted on end with `exit` exactly when some line asks to exit |
| Cli.ActOn | main.py:37-77 | the input loop acts on every non-blank line's command, in order, up to and including the first `exit`, and reports whether it stopped on `exit` |
| Cli.CommandLoop | main.py:37-77 | the same, over the lines typed, each decided as it is read |

## Findings

| source | as written | input that shows it | evidently intended | confidence | as-written member | corrected member |
|---|---|---|---|---|---|---|
| network.py:104 | the initiator keeps only the reply's first line and discards the rest of the buffer, and its session starts from an empty buffer (network.py:124) | a reply read in one piece as an introduction line followed by a second complete line, e.g. the bytes `1 \n 2 \n`, which frame as two lines of which only the first is ever framed | the bytes after the first line start the session's buffer, as the responder does at network.py:47 | not executed | Handshake.InitiatorAsWrittenLoses | Network.PeerNetwork.ConnectAndListen |

## Left out

- Sockets (`bind`, `listen`, `accept`, `connect`, `recv`, `sendall`, `close`): operations
  on numbered sockets, for the reasons given above.
- `accept_connections` (network.py:27-34): the accept loop only starts one
  `handle_connection` per accepted socket, and threads are not modelled.
- Threads and the registry lock: every operation is atomic, and interleavings are not
  modelled. Neither is the hazard of two threads writing to one socket at once.
- Console output and `time.sleep`: not modelled. Outputs handed to `process_message`'s
  callback or printed are the same `Delivered` event.
- `message.py`: covered by the `decode` parameter. The encoding of sent records is not
  modelled, and a `Sent` event carries the value.
- `gui.py`: not part of this model. It is user interface and file I/O.
- Network.PeerNetwork.BroadcastPresence: log events are attempted sends. A `sendall` that
  fails is not modelled, so "a failure does not skip the others" holds because every
  attempt is logged.
- Network.PeerNetwork.SendChatMessage: requires a hashable recipient. An unhashable
  `recipient_username` makes `dict.get` raise `TypeError` out of the call, and the model
  does not represent that exception.
- Network.PeerNetwork.ConnectToPeer: a failing `sendall` of our introduction is folded into
  `reachable`. Both end in the outer handler with nothing registered.
- Json.Value: has no floating-point numbers. A JSON number with a fraction or an exponent,
  and the equality of floats with integers as keys (`1.0 == 1`), are not modelled, because
  floating point is out of scope.
- Json.Value: a decoded object keeps every entry in order, so a repeated key is held twice
  and `Json.Field` finds the first value, where Python's `json` keeps the last. Decoding is
  the abstract `decode` parameter, which is not modelled.
- Json.Render: renders a number of any length, where `str()` raises `ValueError` beyond
  4300 digits. `json.loads` refuses such numbers with the same limit, so they reach the
  notices only through a `decode` other than Python's.
- Json.Repr: non-printable characters above U+00FF, which Python writes as `\uXXXX` or
  `\UXXXXXXXX`, are shown as they are, because Unicode printability is not modelled.
- Network.PeerNetwork.HandleConnection: `message_callback` and `connection_request_callback`
  are taken never to raise. A `message_callback` that raises at network.py:161 ends the
  session through the handler at network.py:76, while the model records the output as
  delivered. A raising `connection_request_callback` at network.py:54 would close the socket
  without a reply.
- Network.PeerNetwork.ConnectAndListen: the same for `message_callback` in the initiator's
  session, whose raise would end it through the handler at network.py:135.
- Messages.ReadFrames: `self.running` is read when the session starts. A concurrent
  `shutdown` that clears it mid-session is not modelled.
- Cli.ParseInt: the digit limit is Python's default, 4300 (Python 3.11 and the security
  releases before it). A limit changed by `sys.set_int_max_str_digits` or
  `PYTHONINTMAXSTRDIGITS`, and older Pythons without one, are not modelled.
- Cli.ParseInt: accepts ASCII digits only. Python's `int` also accepts other Unicode
  decimal digits and surrounding whitespace, but a token from `split()` never has
  whitespace.
- Cli.CommandLoop: decides the command for each line but does not perform it.
  - The effects of `connect`, `send`, `list` and `exit` are the methods
    `Network.PeerNetwork.ConnectToPeer`, `SendChatMessage`, `ListPeers` and `Shutdown`.
  - Printing the help text and the usage and error messages (`Cli.Reply`) is console
    output.
  - `KeyboardInterrupt` (main.py:78-81) is not modelled.
- The start-up prompts of `main` (main.py:17-35): console input is not modelled.
  Neither is their port parse, which is the same `int()` as `connect`'s port.
