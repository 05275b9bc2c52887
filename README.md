# Chat pub/sub protocol and grep line scan, modelled in Dafny

This project models three pieces of the `rust-course-material` repository:

- **The chat wire codec** (`02-fundamentals/chat/src/protocol.rs`), in module
  `Protocol`. A `Datagram` is one of Subscribe, Unsubscribe, Publish and
  Error. Each is carried as a text frame: a one-letter tag (`S`, `U`, `P`,
  `E`), the separator `|`, then a payload. `Parse` cuts the frame at its first
  `|` only. A Publish payload is cut into at most three parts, so the message
  keeps any further `|`. `Serialize` is the inverse, and `Copy` is "parse what
  you serialised". Module `Splitting` gives Rust's `str::splitn` with a
  one-character separator, which the codec is built on; module `Wrappers`
  holds the shared `Option` type.
- **The chat server** (`02-fundamentals/chat/src/server.rs`), in module
  `ChatServer`. Class `Server` holds the subscription registry, a
  `map<string, set<Addr>>`. Every `send_to` is recorded in an `outbox`
  sequence of packets instead of being sent. Its methods subscribe and
  unsubscribe the source address, fan a Publish out to a channel's
  subscribers, and dispatch a decoded datagram, string or byte buffer.
  Addresses are an abstract type with equality. UTF-8 decoding is a function
  passed in as a parameter.
- **The line scan of the grep exercise** (`03-basic-data-types/grep/src/main.rs`),
  in module `Grep`. `Find` gives the first occurrence of the pattern. The two
  loops of `print_match` become methods that scan backward and forward from
  the match for newline bytes.

Three points about the codec that the contracts reflect:

- The codec does not escape `|`. A Publish whose channel or display name
  holds a `|` therefore comes back with different fields, so `RoundTrip`
  holds only for `WellFormed` datagrams. `RoundTripNeedsWellFormed` shows
  the failure.
- Decoding has one error, `BadDatagram`, carrying a message. The model keeps
  the code's messages: `"Could not parse Datagram: "` or
  `"Could not parse PublishDatagram: "`, followed by the input.
- Neither the codec nor the server checks that a channel name is non-empty,
  so the model accepts the empty channel.

## Model

In this table, sep stands for the separator `|`.

| member | source | states |
|---|---|---|
| Splitting.SplitN | 02-fundamentals/chat/src/protocol.rs:114-115 | `splitn(n, sep)` gives no parts when `n == 0`, and otherwise between one and `n` parts |
| Splitting.IndexOfFirst | 02-fundamentals/chat/src/protocol.rs:16-17 | the separator is found exactly when the string holds one, and then at its first occurrence, which is where `splitn` cuts |
| Splitting.SplitNParts | 02-fundamentals/chat/src/protocol.rs:114-115 | no part of `splitn` but the last holds the separator, and the last holds none either when fewer parts than the limit come out |
| Splitting.SplitNJoin | 02-fundamentals/chat/src/protocol.rs:16-17 | joining the parts of `splitn` with the separator gives back the input: nothing is lost by splitting |
| Splitting.SplitJoin | 02-fundamentals/chat/src/protocol.rs:114-115 | splitting a join of parts, all but the last free of the separator, with the limit set to the number of parts gives the parts back |
| Splitting.SplitNCount | 02-fundamentals/chat/src/protocol.rs:114-115 | `splitn` yields one part more than the input has separators, capped at the limit |
| Splitting.SplitNUnique | 02-fundamentals/chat/src/protocol.rs:114-115 | any parts shaped as `SplitN` promises are its result, so its contract determines it completely |
| Protocol.ParseWithoutSeparator | 02-fundamentals/chat/src/protocol.rs:15-26 | a frame without a separator is rejected with `BadDatagram("Could not parse Datagram: " + s)` |
| Protocol.ParseAtFirstSeparator | 02-fundamentals/chat/src/protocol.rs:15-27 | the frame is cut at its first separator; the tag before it picks the kind, and any tag other than `S`, `U`, `P`, `E` is rejected with the frame in the message |
| Protocol.ParseTagged | 02-fundamentals/chat/src/protocol.rs:15-26 | a frame of one tag character other than the separator, the separator and a rest parses by the tag: `S`, `U`, `E` take the rest verbatim, `P` parses it as a Publish payload, any other tag is rejected with the frame in the message |
| Protocol.ParseVerbatim | 02-fundamentals/chat/src/protocol.rs:18-21 | a frame of tag `S`, `U` or `E`, the separator and a rest `r` parses to Subscribe, Unsubscribe or Error with `r` verbatim, even when `r` holds separators; it never fails |
| Protocol.ParsePublishFrame | 02-fundamentals/chat/src/protocol.rs:20 | a frame of tag `P`, the separator and a rest `r` parses as the Publish payload `r`, passing its error on, and fails exactly when `r` holds fewer than two separators |
| Protocol.ParsePublishAbsorbs | 02-fundamentals/chat/src/protocol.rs:114-120 | with a separator-free channel and display name, the message field keeps every further separator verbatim |
| Protocol.ParsePublishFails | 02-fundamentals/chat/src/protocol.rs:121-124 | a Publish payload is rejected exactly when it holds fewer than two separators, with `"Could not parse PublishDatagram: "` and the payload |
| Protocol.PublishFields | 02-fundamentals/chat/src/protocol.rs:128-130 | a serialised Publish payload with separator-free channel and display name is channel, separator, display name, separator, message, and splits back into those three fields |
| Protocol.PublishFrameSeparators | 02-fundamentals/chat/src/protocol.rs:128-130 | a serialised Publish payload always holds at least two separators |
| Protocol.RoundTrip | 02-fundamentals/chat/src/protocol.rs:15-36 | `parse(serialize(d)) == Ok(d)` for every Subscribe, Unsubscribe and Error, and for a Publish whose channel and display name hold no separator |
| Protocol.ParseInverse | 02-fundamentals/chat/src/protocol.rs:15-36 | whatever parses is well-formed and serialises back to the exact input frame: with `RoundTrip`, `Parse(s) == Ok(d)` holds exactly when `d` is well-formed and `s` is its serialisation |
| Protocol.ParsePublishInverse | 02-fundamentals/chat/src/protocol.rs:113-130 | a Publish payload that parses serialises back to itself, and its channel and display name hold no separator |
| Protocol.RoundTripNeedsWellFormed | 02-fundamentals/chat/src/protocol.rs:113-130 | a Publish with channel `a`+sep+`b`, display name `n` and message `m` comes back from a round trip with channel `a`, display name `b` and message `n`+sep+`m` |
| Protocol.Copy | 02-fundamentals/chat/src/protocol.rs:132-134 | `copy` never reaches its `expect` panic; the copy has the same serialisation as the original, is well-formed, and equals it when the original is well-formed |
| Protocol.SerializedPublishParses | 02-fundamentals/chat/src/protocol.rs:128-134 | a serialised Publish payload always parses, to a well-formed Publish with the same serialisation, and to the original when it was well-formed |
| Protocol.CopyIdempotent | 02-fundamentals/chat/src/protocol.rs:132-134 | copying a copy changes nothing |
| Protocol.SubscribeParseExample | 02-fundamentals/chat/src/protocol.rs:141-146 | the frame `S`+sep+`rust_club` parses to Subscribe `rust_club` |
| Protocol.SubscribeSerializeExample | 02-fundamentals/chat/src/protocol.rs:148-152 | Subscribe `rust_club` serialises to the frame `S`+sep+`rust_club` |
| Protocol.UnsubscribeParseExample | 02-fundamentals/chat/src/protocol.rs:154-164 | the frame `U`+sep+`rust_club` parses to Unsubscribe `rust_club` |
| Protocol.UnsubscribeSerializeExample | 02-fundamentals/chat/src/protocol.rs:166-170 | Unsubscribe `rust_club` serialises to the frame `U`+sep+`rust_club` |
| Protocol.PublishParseExample | 02-fundamentals/chat/src/protocol.rs:172-184 | the test's Publish frame parses to channel `rust_club`, display name `me` and a message that keeps its five separators |
| Protocol.PublishSerializeExample | 02-fundamentals/chat/src/protocol.rs:186-190 | that Publish serialises back to the same frame |
| Protocol.ErrorParseExample | 02-fundamentals/chat/src/protocol.rs:192-197 | the frame `E`+sep+`some_error!` parses to Error `some_error!` |
| Protocol.ErrorSerializeExample | 02-fundamentals/chat/src/protocol.rs:199-203 | Error `some_error!` serialises to the frame `E`+sep+`some_error!` |
| Protocol.PublishPayloadParseExample | 02-fundamentals/chat/src/protocol.rs:229-241 | the test's Publish payload parses to channel `rust_club`, display name `me` and a message that keeps its five separators |
| ChatServer.AddSubscriber | 02-fundamentals/chat/src/server.rs:39-49 | after a subscribe the channel exists and its set is the old set (empty if absent) plus the address; every other channel is unchanged |
| ChatServer.RemoveSubscriber | 02-fundamentals/chat/src/server.rs:51-55 | after an unsubscribe the channels are the same, an existing channel's set loses the address and keeps its entry, and every other channel is unchanged |
| ChatServer.Server.constructor | 02-fundamentals/chat/src/server.rs:23-26 | a new server has an empty registry and has sent nothing |
| ChatServer.Server.Send | 02-fundamentals/chat/src/server.rs:29-37 | one packet is appended to the outbox: the serialised Publish of a copy of the datagram, to the given address |
| ChatServer.Server.HandleSubscribe | 02-fundamentals/chat/src/server.rs:39-49 | the registry becomes `AddSubscriber` of the old one; the outbox is not touched |
| ChatServer.Server.HandleUnsubscribe | 02-fundamentals/chat/src/server.rs:51-55 | the registry becomes `RemoveSubscriber` of the old one; the outbox is not touched |
| ChatServer.Server.HandlePublish | 02-fundamentals/chat/src/server.rs:57-63 | the old outbox is kept and followed by one packet per subscriber of the channel, in some order, each carrying the copied Publish frame; nothing is sent for an absent channel, and the registry is not touched |
| ChatServer.Server.HandleDatagram | 02-fundamentals/chat/src/server.rs:65-76 | Subscribe and Unsubscribe change the registry with the source address, Publish fans out, Error changes nothing |
| ChatServer.Server.HandleDatagramString | 02-fundamentals/chat/src/server.rs:78-85 | a frame that does not parse changes nothing; one that parses is handled as its datagram |
| ChatServer.Server.HandleDatagramBuffer | 02-fundamentals/chat/src/server.rs:87-94 | a buffer that is not UTF-8, or whose text does not parse, changes nothing; otherwise its datagram is handled |
| ChatServer.PublishFrameParses | 02-fundamentals/chat/src/server.rs:29-33 | every frame the server sends parses back to a Publish of the copy |
| ChatServer.ForwardsReceivedFrame | 02-fundamentals/chat/src/server.rs:29-33 | a Publish received as frame `s` is fanned out as exactly `s`, with the same fields |
| ChatServer.FansOutOnce | 02-fundamentals/chat/src/server.rs:57-63 | a fan-out sends exactly one packet to each subscriber and none to any other address |
| ChatServer.SubscribeIdempotent | 02-fundamentals/chat/src/server.rs:40-43 | subscribing the same address to the same channel twice is the same as once |
| ChatServer.UnsubscribeAbsent | 02-fundamentals/chat/src/server.rs:51-55 | unsubscribing from an absent channel, or an address not subscribed, leaves the registry as it was |
| ChatServer.UnsubscribeAfterSubscribe | 02-fundamentals/chat/src/server.rs:39-55 | unsubscribing right after subscribing removes the address but keeps the channel's entry |
| ChatServer.SourceAddressIgnored | 02-fundamentals/chat/src/server.rs:65-76 | for Publish and Error the result does not depend on the source address, and the registry is unchanged |
| ChatServer.ClientsSubscribe | 02-fundamentals/chat/src/server.rs:155-172 | after the two test clients' subscribe and unsubscribe frames, `testing123` holds both clients, `client2` holds client 2 and `nope` holds nobody |
| ChatServer.BasicServer | 02-fundamentals/chat/src/server.rs:143-208 | in the test scenario each subscriber of `testing123` gets that Publish once, client 2 gets its own Publish, and the publish to `nope` reaches nobody |
| Grep.Find | 03-basic-data-types/grep/src/main.rs:43-45 | the index is an occurrence of the pattern with none before it; there is no index exactly when the pattern never occurs |
| Grep.ScanLineStart | 03-basic-data-types/grep/src/main.rs:55-63 | `line_start <= index`; it is the last newline strictly before `index`, or 0 when there is none, and no newline lies strictly between it and `index` |
| Grep.ScanLineEndAsWritten | 03-basic-data-types/grep/src/main.rs:65-73 | the forward loop as written, given that every read it makes is in bounds, stops at the first newline after `index` |
| Grep.ScanLineEnd | 03-basic-data-types/grep/src/main.rs:65-73 | `line_end` is the first newline strictly after `index`, or the length of the contents when there is none |
| Grep.PrintMatch | 03-basic-data-types/grep/src/main.rs:54-77 | with the forward scan corrected as in `## Findings`, the printed slice is `contents[line_start..line_end]` around the match, and it starts with the preceding newline byte when `line_start > 0` |
| Grep.PrintMatchAsWritten | 03-basic-data-types/grep/src/main.rs:54-77 | with the forward loop as written, the same slice, for inputs where a newline follows the match |
| Grep.LineAroundUnique | 03-basic-data-types/grep/src/main.rs:55-73 | the line bounds around an index are unique, so both scans compute the same line |
| Grep.MatchContents | 03-basic-data-types/grep/src/main.rs:41-50 | with the forward scan corrected as in `## Findings`, a file gives a line exactly when the pattern occurs in it, and that line is the one around the first occurrence |
| Grep.ForwardReadsInBoundsIff | 03-basic-data-types/grep/src/main.rs:67-69 | the forward loop as written stays in bounds exactly when the match is at the very end or a newline follows it |
| Grep.LastLineReadsPastEnd | 03-basic-data-types/grep/src/main.rs:67-69 | for contents `ab` and a match at 0 the forward loop as written reads past the end |

## Left out

- UDP sockets: binding, the read and write timeouts in `Server::new`, `recv_from` in `handle_next`, and the endless `run` loop. A send is modelled as an outbox append, and its failure, which is only logged, is not modelled.
- The 1024-byte receive buffer and the truncation it causes. A truncated frame reaches `HandleDatagramBuffer` like any other buffer.
- UTF-8 validation is the parameter `fromUtf8` of `HandleDatagramBuffer`. Its internals are not modelled.
- `SocketAddr` internals. An address is only compared for equality.
- HashSet iteration order. A fan-out is stated as a multiset of destinations.
- Logging with `error!` and `debug!`. It has no effect on state.
- The client (`02-fundamentals/chat/src/client.rs`) and the command line (`02-fundamentals/chat/src/main.rs`). They wrap sockets around the codec.
- The helper constructors `Datagram::subscribe`, `unsubscribe`, `publish` and `error`. Only `unsubscribe`, `publish` and `error` are test-only; the client calls `subscribe`. They are the datatype constructors themselves.
- Grep.PrintMatch: uses the forward scan corrected as in `## Findings`. Where a match lies on a last line with no final newline, the code as written panics instead of printing; `Grep.PrintMatchAsWritten` models that code.
- Grep.MatchContents: prints through `Grep.PrintMatch`, so it too gives the corrected behaviour rather than the panic described under `## Findings`.
- Grep's directory walk, file reading and output. The recursion in `grep`, `fs::read_to_string` in `match_contents` and `println!` in `print_match` are left out. `String::from_utf8` on the printed slice is also left out: the model returns the slice itself.
- The calculator, the point exercise, `ls`, `cat` and the teaching snippets. They are outside this model.

## Findings

| source | as written | input that shows it | evidently intended | confidence | as-written member | corrected member |
|---|---|---|---|---|---|---|
| 03-basic-data-types/grep/src/main.rs:67-69 | the forward loop checks `current < contents.len()`, then increments `current` and reads `contents[current]` | contents `ab`, pattern `a`, so index 0: the second read is `contents[2]`, past the end of a file whose last line has no final newline | check the bound after the increment, so `line_end` is the length of the contents when no newline follows | high, not executed | Grep.LastLineReadsPastEnd | Grep.ScanLineEnd |
