# icoin node core in Dafny

A model of the sequential core of the icoin peer-to-peer node (written in Go), with proofs of its properties. It covers three parts:

- **The wire framing codec** (package `wire`). A frame is a header followed by a payload. The header holds the network magic, the command name in a 12-byte NUL-padded field, and the payload length; all integers are little-endian 32-bit. `ReadMessage` reads a 24-byte header and checks, in this order, the magic, the command and the payload length. It then hands the payload to the serialiser. `WriteMessage` serialises the message, builds the header in a buffer with `writeElements`, and makes two writes: header, then payload.
- **The node** (`server.go`, `peer.go`). The server keeps a registry mapping peer IDs to peers. A peer owns one connection and knows its direction. `Start` races negotiation against a timeout, and `InHandler` reads frames until the first error and then disconnects. The console's control lines trigger broadcasts.
- **Network selection** (`config.go`, `params.go`). The names `main` and `test` select constant parameter records (port, magic). Any other name is an error.

Modules:

- `Types` (types.dfy): bytes, `uint32`, Option/Result, little-endian conversion.
- `Streams` (streams.dfy): readers and writers as values. A reader is everything the connection will deliver plus a cursor. A writer is the bytes accepted so far, a call counter and a fault script that says which write calls fail and how many bytes they still let through.
- `Wire` (wire.dfy): the codec. Its methods (`ReadElements`, `WriteElements`, `ReadMessage`, `WriteMessage`) follow the Go code step by step. Each is proved equal to a specification function (`ReadAll`, `WriteAll`, `ParseFrame`, `SendFrame`), and the properties are lemmas about those functions.
- `Config` (config.dfy): parameter records and `loadConfig`'s switch.
- `Node` (node.dfy): the classes `Conn`, `Peer` and `Server`. The registry is a `map` field that the methods update in place.

The header that is written is 20 bytes long, but the reader always consumes 24. The model keeps the code as written and proves what follows from it:

- the written header's fields read back correctly (`HeaderFieldsRoundTrip`);
- a written frame on a stream that then closes never decodes (`WrittenFrameNeverDecodes`);
- when more bytes follow, the reader takes the payload four bytes late (`ReaderTakesFourBytesOfWhatFollows`).

`MessageHeader` has three fields: magic, command and payload length. The reader decodes them from bytes 0..19 of the 24 it reads. It never looks at bytes 20..23, and the writer never writes them (`HeaderTailIgnored`).

The Go `readElements` call in `ReadMessage` discards its error. The model discards it too, and `HeaderElements` proves it cannot fail on 24 bytes.

## Model

| member | source | states |
|---|---|---|
| Types.ToUint32 | wire/message.go:133-134 | Go's `uint32(i)`: the value itself when it is in range, otherwise the value congruent to `i` modulo 2^32 |
| Types.DecodeEncode | wire/message.go:143-150 | little-endian decoding of the `n`-byte encoding of any value below 256^n gives the value back |
| Types.EncodeDecode | wire/message.go:199-208 | encoding the decoded value of any byte string in that many bytes gives the string back |
| Streams.ReadFull | wire/message.go:43-48 | `io.ReadFull`: exactly `n` bytes when available; otherwise an error, `EOF` if nothing was left and `UnexpectedEOF` if something was, with everything left consumed |
| Streams.Write | wire/message.go:107-113 | one `Write` call: it fails exactly when the fault script names this call; a failing call lets through only a prefix; the call counter advances by one |
| Wire.Command | wire/msgbroadcast.go:7-9 | a broadcast message travels under "broadcast" and a version message under "version" |
| Wire.NewBroadcastMsg | wire/msgbroadcast.go:11-13 | the result is a broadcast message whose `Content` is exactly the given text and whose command is "broadcast" |
| Wire.DefaultMessage | wire/message.go:210-219 | a message is produced exactly for "version" and "broadcast", and it travels under the command it was asked for; any other command is an error |
| Wire.PutUint32 | wire/message.go:143-150 | the encoding of a 32-bit value is four bytes |
| Wire.WriteUint32 | wire/message.go:143-150 | one `Write` call of four bytes: it fails exactly when the fault script names the call; on success the bytes before are kept and the four new bytes decode to the value |
| Wire.Uint32Value | wire/message.go:207 | four bytes decode to b0 + 2^8·b1 + 2^16·b2 + 2^24·b3, little-endian |
| Wire.Uint32RoundTrip | wire/message.go:143-150 | decoding the little-endian encoding of `v` gives `v`, and byte 0 is `v` mod 256, the least significant byte |
| Wire.Uint32BytesRoundTrip | wire/message.go:199-208 | every four bytes are the encoding of the value they decode to |
| Wire.PutUint32Injective | wire/message.go:143-150 | different values have different encodings |
| Wire.ReadUint32 | wire/message.go:199-208 | succeeds exactly when four bytes remain; the value read is the one whose encoding those bytes are; four bytes are consumed |
| Wire.ReadUint32AfterWriteUint32 | wire/message.go:199-208 | `readUint32` over what `writeUint32` put into a fresh buffer returns the original value |
| Wire.PadCommand | wire/message.go:99-100 | the command field is always 12 bytes |
| Wire.TrimRightNul | wire/message.go:57 | trimming never lengthens |
| Wire.TrimRightNulSpec | wire/message.go:57 | the trimmed command is a prefix of the field that does not end in NUL, and every byte after it is NUL |
| Wire.TrimRightNulAppendZeros | wire/message.go:57 | appending NULs does not change what trimming gives |
| Wire.CommandRoundTrip | wire/message.go:99-100 | a command of at most 12 bytes that does not end in NUL is recovered by padding then trimming; a longer command comes back as its first 12 bytes with trailing NULs trimmed |
| Wire.CommandFieldRoundTrip | wire/message.go:57 | padding a trimmed 12-byte field restores the field |
| Wire.EncodeHeader | wire/message.go:99-104 | the header that is written is 20 bytes long, four fewer than `HeaderLen` |
| Wire.DecodedCommandTrimmed | wire/message.go:50-57 | the command decoded from a header is a prefix of the 12-byte field, at most 12 bytes long, and never ends in a NUL byte |
| Wire.CommandSurvivesHeader | wire/msgbroadcast.go:7-9 | every message's command fits the 12-byte field, survives padding and trimming unchanged, and is a known command |
| Wire.WriteElement | wire/message.go:127-141 | each element goes out in a single `Write`: a `NetID` or `uint32` as its four bytes, an `int` as the four bytes of its 32-bit truncation, a byte slice as it is |
| Wire.WriteAllPrefix | wire/message.go:116-125 | while none of the first `i` calls fault, the first `i` chunks are written whole and writing continues with the rest |
| Wire.WriteAllSucceeds | wire/message.go:116-125 | the element writes succeed exactly when none of them faults, and then all the chunks are written in order, one call each; the fault script is unchanged |
| Wire.WriteAllFails | wire/message.go:116-125 | when call `k` is the first to fault, writing stops after it: chunks before it are written whole, and only the prefix the failing call let through of chunk `k`; the error is returned |
| Wire.WriteElements | wire/message.go:116-125 | the loop's result is exactly `WriteAll`: one write per element, in order, stopping at the first that fails |
| Wire.ReadElement | wire/message.go:163-197 | succeeds exactly when the element's width remains; the value fits its kind, is what the bytes read encode, and exactly that width is consumed; on failure everything is consumed |
| Wire.ReadAllShape | wire/message.go:152-161 | the element reads stay on the same input, yield at most one value per element, and each value fits its element |
| Wire.ReadAllBytes | wire/message.go:152-161 | the values read are exactly what the consumed bytes encode |
| Wire.ReadAllOutcome | wire/message.go:152-161 | the reads succeed exactly when the input holds all the elements, and then consume exactly their total width; otherwise they stop at the first element that does not fit, having consumed the whole input |
| Wire.ReadAllSpec | wire/message.go:152-161 | all of `ReadAllShape`, `ReadAllBytes` and `ReadAllOutcome` together |
| Wire.ReadElements | wire/message.go:152-161 | the loop's result is exactly `ReadAll`: elements read in order, stopping at the first error |
| Wire.HeaderFieldsRoundTrip | wire/message.go:99-104 | the written header is magic, padded command and truncated length, 20 bytes, four fewer than `HeaderLen`; read back with any four more bytes it yields the magic, the padded-then-trimmed command and the length modulo 2^32 |
| Wire.HeaderElements | wire/message.go:50-57 | reading magic, command field and length from 24 header bytes always yields three values of the right kinds, which are the fields of the decoded header |
| Wire.ParseFrame | wire/message.go:40-84 | a frame never consumes more than is available, and a decoded message consumed at least a full header |
| Wire.ReadMessage | wire/message.go:40-84 | the step-by-step read returns exactly `ParseFrame`'s result and advances the reader by exactly what it consumed |
| Wire.ShortHeaderFails | wire/message.go:43-48 | with fewer than 24 bytes available the read fails with a short-read error and consumes all of them |
| Wire.HeaderTailIgnored | wire/message.go:50-57 | header bytes 20..23 do not affect the outcome |
| Wire.MagicCheckedBeforeCommand | wire/message.go:61-63 | a wrong magic is reported, whatever the command and payload, after the 24 header bytes and before any payload byte |
| Wire.UnknownCommandRejected | wire/message.go:65-68 | with the right magic, a command other than "version" or "broadcast" is rejected with no payload byte read |
| Wire.PayloadExactlyMsglen | wire/message.go:70-79 | with a good header, too few payload bytes give a short-read error that consumes all of them; otherwise exactly 24 + msglen bytes are consumed; a message results exactly when the payload is there and the serialiser accepts exactly those bytes |
| Wire.WrittenFrameNeverDecodes | wire/message.go:40-114 | for a payload shorter than 2^32 bytes, a frame written by this code, on a stream that then ends, is never decoded |
| Wire.ReaderTakesFourBytesOfWhatFollows | wire/message.go:40-114 | for a payload shorter than 2^32 bytes, when bytes follow a written frame, the reader consumes header plus payload length but hands the serialiser the payload without its first four bytes followed by four bytes of what came next |
| Wire.SendFrame | wire/message.go:86-114 | writing a frame never changes the fault script |
| Wire.WriteMessage | wire/message.go:86-114 | the step-by-step write, including the header built in a buffer by `writeElements`, does exactly what `SendFrame` says |
| Wire.SendFrameOutcomes | wire/message.go:86-114 | a serialiser failure writes nothing; a failing header write makes one call, lets through at most 20 header bytes and never attempts the payload; otherwise there are exactly two calls, header then payload, and the error reflects the payload write |
| Config.LoadConfig | config.go:24-31 | the configuration is accepted exactly for "main" and "test", which select the main and test parameter records; the flag values are kept |
| Config.DefaultConfiguration | config.go:18-20 | without flags the node joins the main network (port "1986", main magic), listens, and dials nobody |
| Config.NetworkNameIsCaseSensitive | config.go:24-31 | "Main" and "TEST" are rejected |
| Config.NetworksDistinct | params.go:12-20 | the two networks differ in port and in magic |
| Config.NetworkParameters | params.go:12-20 | the main network uses port "1986" and magic 0xdadb1986; the test network uses port "11986" and magic 0xccdd2086 |
| Config.CrossNetworkFrameRejected | params.go:12-20 | a frame carrying one network's magic is rejected by a node of the other network at the magic check, with no payload byte read |
| Node.Conn.Close | peer.go:89-92 | closing marks the connection closed and changes nothing else |
| Node.ReadUntilError | peer.go:74-84 | a read session stays on its connection, only moves forward, and only appends to the messages already received |
| Node.SessionConsumesHeaders | peer.go:74-87 | a read session stays on its connection, only appends to what was received, and consumes at least 24 bytes per message delivered |
| Node.NegotiationError | peer.go:60-64 | a negotiation error is reported exactly when negotiation failed |
| Node.Peer.constructor | peer.go:29-35 | a new peer keeps the given server, connection and direction |
| Node.Peer.NewInboundPeer | peer.go:21-23 | an inbound peer is incoming, with the given server and connection |
| Node.Peer.NewOutboundPeer | peer.go:25-27 | an outbound peer is not incoming, with the given server and connection |
| Node.Peer.Direction | peer.go:37-43 | "Inbound" exactly when incoming, "Outbound" exactly when not |
| Node.Peer.NegotiateInboundProtocol | peer.go:94-103 | inbound negotiation always succeeds |
| Node.Peer.NegotiateOutboundProtocol | peer.go:105-107 | outbound negotiation always succeeds |
| Node.Peer.Start | peer.go:49-72 | the read loop is launched exactly when no error is returned; a timeout is returned as such; with the current handshakes `Start` succeeds exactly when negotiation wins the race |
| Node.Peer.ReadMessage | peer.go:122-130 | one frame read from the peer's connection under its server's network magic, as `ParseFrame` describes; the writing side and the closed flag are untouched |
| Node.Peer.WriteMessage | peer.go:132-134 | one frame written to the peer's connection under its server's network magic, as `SendFrame` describes; the reading side and the closed flag are untouched |
| Node.Peer.Disconnect | peer.go:89-92 | the connection is closed and exactly the peer's own ID leaves the registry; registry consistency is kept |
| Node.Peer.ReadLoop | peer.go:74-84 | frames are read until the first error; the messages delivered and where reading stopped are exactly `ReadUntilError`'s |
| Node.Peer.InHandler | peer.go:74-87 | the read loop as above, then `Disconnect`: afterwards the connection is closed and the peer's ID is not in the registry |
| Node.DisconnectTwice | peer.go:89-92 | disconnecting twice leaves the registry as disconnecting once |
| Node.Server.constructor | server.go:18-25 | a new server holds the given configuration and no peers |
| Node.Server.NetID | server.go:131-133 | the magic used on every connection is the configured network's |
| Node.Server.DistinctPeersDistinctConns | peer.go:45-47 | a peer's ID is its remote address, so two peers registered under different IDs never share a connection |
| Node.Server.SendTo | server.go:106 | one peer gets one frame written, as `SendFrame` says, under the server's magic; every other connection's output and every input are unchanged |
| Node.Server.Start | server.go:27-45 | the listener runs exactly when listening is configured, and the connector exactly when a peer address is configured; the control-line reader and kill watcher always run |
| Node.Server.AddPeer | server.go:114-116 | the peer is registered under its ID, replacing any peer with that ID; every other entry is unchanged |
| Node.Server.StartPeer | server.go:118-123 | if `Start` fails the peer is disconnected and its ID leaves the registry; otherwise the registry is unchanged |
| Node.Server.RemovePeer | server.go:126-129 | the peer's ID leaves the registry and every other entry stays; removing an absent ID changes nothing |
| Node.BroadcastAll | server.go:103-112 | broadcasting to the peers in a visiting order keeps the set of peers and attempts at most one write per peer |
| Node.BroadcastAllPerPeer | server.go:103-112 | for a visiting order without repeats: without an error every peer was written to; each attempted peer got exactly one write, all but the last succeeded, and an error is the last write's error; peers after the failure and peers outside the order are untouched |
| Node.Server.Broadcast | server.go:103-112 | the count of attempted peers, the error and every connection's new output are exactly `BroadcastAll` over the old outputs, each peer sent `NewBroadcastMsg(text)` under the server's magic; the registry and the input sides are unchanged |
| Node.Server.HandleLine | server.go:90-99 | the action is `ParseControlLine`'s; a broadcast line performs exactly the broadcast of its text (attempted count, error and new outputs as `BroadcastAll` says), and any other line attempts nothing and leaves every output unchanged |
| Node.Console | server.go:80-101 | the console keeps the set of peers and handles at most the lines it is given |
| Node.ConsoleStops | server.go:80-101 | every handled line was read and did not fault; reading stops with `crashed` set exactly at a bare "broadcast", otherwise at the end of input or the first read error |
| Node.QuietInputSendsNothing | server.go:80-101 | input with no broadcast lines changes no connection's output |
| Node.BroadcastLineReachesPeers | server.go:90-112 | one line "broadcast:text" is handled, does not crash, and gives each attempted peer exactly one broadcast frame of `text` |
| Node.Server.ReadInput | server.go:80-101 | the handled count, the crash flag and every connection's final output are exactly `Console`'s: lines handled in order, each broadcast line's broadcast applied to the outputs the earlier lines left; the registry and the input sides are unchanged |
| Node.IndexOf | server.go:90 | the position of the first separator |
| Node.Split | server.go:90 | `strings.Split` on ':' yields at least one field, and no field contains ':' |
| Node.JoinSplit | server.go:90 | joining the fields of a split with ':' gives back the line |
| Node.SplitJoin | server.go:90 | splitting a ':'-join of ':'-free fields gives back the fields |
| Node.BroadcastLineExactly | server.go:90-96 | a line broadcasts `text` exactly when it reads "broadcast:" then `text` (free of ':'), then ends or continues with ':' |
| Node.ParsedBroadcastLine | server.go:90-96 | a line that broadcasts `text` has that form |
| Node.BroadcastLineParsed | server.go:90-96 | a line of that form broadcasts `text` |
| Node.BareBroadcastFaults | server.go:94-96 | the bare line "broadcast" indexes out of range |
| Node.OtherLinesIgnored | server.go:97-98 | a line whose first field is not "broadcast" triggers nothing |
| Node.ControlLineDispatch | server.go:90-98 | the bare line "broadcast" faults, exactly the lines starting "broadcast:" broadcast, and every other line is ignored |

## Left out

- Sockets: `Listener`, `ConnectToPeer`, `net.Listen`/`Accept`/`Dial` and `RemoteAddr` are not modelled. A connection is a `Conn` whose remote address, input and write-fault script are given.
- Goroutines, channels and the 30-second timer in `Peer.Start` are not modelled. Which event the select receives first is a parameter (`Race`). `AddPeer`'s goroutine is the separate method `Server.StartPeer`, and `InHandler` is a method the environment calls. Unsynchronised access to the registry from concurrent activities cannot be expressed in this sequential model.
- The order in which Go's `range` visits the registry is unspecified, so `Server.Broadcast` takes it as a parameter: any enumeration of the keys. Each broadcast ranges over the map anew, so `Server.ReadInput` takes one such order per input line.
- msgpack serialisation is a `Codec` parameter holding two function values (`marshal`, `unmarshal`) that may fail; their encoding is not modelled.
- `MsgVersion` carries no fields in the model, because wire/msgversion.go is not part of this model.
- Wire.Command: that a version message's command is "version" (`CmdVersion`) is assumed, because wire/msgversion.go is not part of this model; `CommandSurvivesHeader` relies on it for version messages.
- The `binary.Write`/`binary.Read` fallbacks for element types other than `NetID`, `uint32`, `int`, `[]byte`, `*[12]byte` and `*[4]byte` are not modelled, because the code never reaches them.
- What a closed connection does on later reads and writes is not modelled; `Close` only sets a flag.
- `bufio.Reader.ReadLine`'s `isPrefix` (a line longer than the buffer arriving in pieces) is not modelled. Each console line is one `LineRead`, and a read error ends the input.
- Flag registration and parsing are not modelled. `LoadConfig` starts from the parsed flag values, and the defaults are the constant `DefaultFlags`.
- console/main.go (signal handling), icoind.go (`main`) and all logging are not modelled.
- `readRemoteVersionMsg` (peer.go:109-120) is not modelled. It is dead code whose body is commented out.
- Node.Server.ReadInput: the bare-"broadcast" index-out-of-range panic is modelled as stopping the reader with `crashed` set; what the panic does to the rest of the process is not modelled.
- Node.Peer.InHandler: a connection's input is finite (a `Reader` holds everything it will deliver), and `ReadLoop`'s termination measure depends on it. A Go connection that keeps delivering valid frames keeps `InHandler` reading forever, so it never reaches `Disconnect`; the model does not capture that run.
