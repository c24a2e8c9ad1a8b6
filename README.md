# TCP session of a ractor cluster node, modelled in Dafny

`ractor_cluster/src/net/session.rs` runs one TCP connection between two
cluster nodes as three actors. The `Session` actor owns a `SessionWriter` and
a `SessionReader` child. It forwards outgoing network messages to the writer
and incoming ones to the node session handler, and it stops when either child
panics or exits. The writer puts each message on the wire as one frame: the
8-byte big-endian length of its encoding, then the encoding. The reader loops
on self-messages. `WaitForObject` reads the 8-byte length. `ReadObject(n)`
reads exactly `n` bytes with `read_n_bytes`, decodes them, and hands the
message up to the session.

The model has these parts:

- `bytes.dfy`: bytes, `u64`, and the big-endian length prefix with its inverse.
- `framing.dfy`: frames, sequences of frames, and the inner codec as a parameter.
- `inbound.dfy`: the read half of the socket as a class, the pure function
  `ReadExact` of `read_n_bytes`, and `ReadNBytes`. The latter is the loop
  itself, over an array buffer, proved equal to `ReadExact`.
- `outbound.dfy`: the write half of the socket as a class whose `write_all`
  outcome is an input.
- `messages.dfy`: the actor messages and the stop reasons.
- `session.dfy`: `Session::handle` and `Session::handle_supervisor_evt` as pure
  decision functions.
- `writer.dfy` and `reader.dfy`: the two child actors as classes with their
  `Option` stream field. Each `handle` is a method proved against a pure
  function of the outcome: `WriteObjectEffect` for the writer,
  `ReaderReaction` for the reader.
- `pipeline.dfy`: the actors chained through mailboxes that are served in
  order. A writer's output, read back by a reader in any chunking, delivers
  every decodable message to the handler in order and then stops the reader
  with `channel_closed`.

The socket is replaced by data. The read half consists of the bytes the peer
sent before closing and a script of events. Each readiness poll or `read`
consumes one event. An event caps how many bytes a read hands out, or makes
the call fail with an error code. An empty script hands out everything that
fits. End of stream means the bytes are used up. For the write half, each
`write_all` is given its outcome: delivered, or broken after some bytes.

One edge case of `read_n_bytes` is kept as the code has it:
- **Zero-length read.** A zero-length request still awaits `readable()`
  before its loop (session.rs:30), so a failing readiness poll fails it too.
  The model keeps this (`Inbound.ReadExactEmpty`).

## Model

| member | source | states |
|---|---|---|
| `Bytes.ToBeBytes` | ractor_cluster/src/net/session.rs:265 | the length prefix is exactly 8 bytes |
| `Bytes.FromBeBytes` | ractor_cluster/src/net/session.rs:350 | `from_be_bytes` reads the first byte as the most significant digit and the last byte as the least significant |
| `Bytes.BeValueOfBeBytes` | ractor_cluster/src/net/session.rs:265 | reading back the k big-endian bytes of a number below 256^k gives the number |
| `Bytes.BeBytesOfBeValue` | ractor_cluster/src/net/session.rs:350 | re-encoding the value of any byte string gives the same bytes |
| `Bytes.FromBeBytesOfToBeBytes` | ractor_cluster/src/net/session.rs:350 | `from_be_bytes` undoes `to_be_bytes` for every `u64` length |
| `Bytes.ToBeBytesOfFromBeBytes` | ractor_cluster/src/net/session.rs:350 | every 8-byte prefix is the encoding of the length it decodes to |
| `Bytes.ToBeBytesInjective` | ractor_cluster/src/net/session.rs:265 | distinct lengths have distinct prefixes |
| `Bytes.BeBytesDigits` | ractor_cluster/src/net/session.rs:265 | byte i of the k big-endian bytes of n is digit k - 1 - i of n in base 256 |
| `Bytes.ToBeBytesDigits` | ractor_cluster/src/net/session.rs:265 | big-endian order: byte i of the length prefix is digit 7 - i of the length in base 256, for every byte of every length |
| `Framing.Frame` | ractor_cluster/src/net/session.rs:263-272 | a frame is 8 bytes longer than the encoding: the prefix of its length and then the encoding |
| `Framing.Frames` | ractor_cluster/src/net/session.rs:259-278 | the wire carries the frames of the messages back to back, first message first, with no delimiter |
| `Framing.FramesLength` | ractor_cluster/src/net/session.rs:259-278 | the frames of n messages take at least 8n bytes, and none exactly when there is no message |
| `Framing.FramesAppend` | ractor_cluster/src/net/session.rs:259-278 | the frames of two batches written one after the other are the first batch's frames followed by the second's |
| `Framing.FramesSnoc` | ractor_cluster/src/net/session.rs:259-278 | one more `WriteObject` puts its whole frame right after the earlier ones |
| `Framing.FramesAt` | ractor_cluster/src/net/session.rs:346-381 | the wire from frame i on is frame i's length prefix, its encoding, then the later frames |
| `Framing.DecodedSnoc` | ractor_cluster/src/net/session.rs:381-391 | a payload that decodes adds its message at the end; one that does not decode is discarded |
| `Framing.DecodedOfEncodings` | ractor_cluster/src/net/session.rs:263 | given a codec that round-trips, decoding the encodings of messages gives back the messages in order |
| `Framing.Decoded` | ractor_cluster/src/net/session.rs:381-391 | decoding a sequence of payloads keeps at most one message per payload, and one for every payload exactly when every payload decodes |
| `Inbound.Readiness` | ractor_cluster/src/net/session.rs:30 | the readiness poll consumes one event, touches no bytes, and fails exactly on a scripted error, with that error |
| `Inbound.ChunkLen` | ractor_cluster/src/net/session.rs:32 | a read hands out at most the room and at most what the peer sent, and zero exactly when everything was read |
| `Inbound.ReadChunk` | ractor_cluster/src/net/session.rs:32 | a read consumes one event and fails exactly on a scripted error |
| `Inbound.ReadChunkConsumes` | ractor_cluster/src/net/session.rs:32 | a read hands out the front of the peer's bytes and consumes exactly those; a failed read consumes none |
| `Inbound.Fill` | ractor_cluster/src/net/session.rs:31-41 | a successful fill has exactly the bytes it had plus the number still wanted |
| `Inbound.ReadExact` | ractor_cluster/src/net/session.rs:27-43 | a successful `read_n_bytes` returns exactly `len` bytes |
| `Inbound.FillSuffix` | ractor_cluster/src/net/session.rs:31-41 | the loop only ever consumes bytes and events |
| `Inbound.FillSuccess` | ractor_cluster/src/net/session.rs:31-41 | a successful loop appends exactly the next `need` bytes of the peer and consumes exactly those |
| `Inbound.FillEof` | ractor_cluster/src/net/session.rs:33-39 | `UnexpectedEof` comes only once all the peer's bytes are read, and they were fewer than wanted |
| `Inbound.FillFault` | ractor_cluster/src/net/session.rs:32 | any other error of the loop is the error of the first read that fails, returned unchanged at once, with the calls after it left in the script |
| `Inbound.FillWithoutFaults` | ractor_cluster/src/net/session.rs:31-41 | when no call fails, the loop succeeds exactly when enough bytes were sent, and otherwise fails with `UnexpectedEof` |
| `Inbound.ReadExactSuccess` | ractor_cluster/src/net/session.rs:27-43 | success returns exactly the next `len` bytes of the peer, in order, and consumes them |
| `Inbound.ReadExactFailure` | ractor_cluster/src/net/session.rs:30-39 | `UnexpectedEof` means the peer closed after too few bytes; any other error is that of the first poll or read that fails, returned unchanged at once with the later calls left; too few bytes never give success |
| `Inbound.ReadExactWithoutFaults` | ractor_cluster/src/net/session.rs:27-43 | when no call fails the result depends only on the bytes sent: the next `len` bytes, or `UnexpectedEof` after reading all of them |
| `Inbound.ReadExactChunkIndependent` | ractor_cluster/src/net/session.rs:27-43 | two sources with the same bytes and no failures, chunked in any two ways, give the same result and leave the same bytes |
| `Inbound.ReadExactEmpty` | ractor_cluster/src/net/session.rs:27-31 | a zero-length request performs no read and gives the empty buffer unless the readiness poll fails |
| `Inbound.ReadHalf.Readable` | ractor_cluster/src/net/session.rs:30 | the poll's result and new stream state are those of `Readiness` |
| `Inbound.ReadHalf.Read` | ractor_cluster/src/net/session.rs:32 | a read writes the chunk of `ReadChunk` at `buf[from..]` after the untouched prefix, and returns its length or the error |
| `Inbound.FillStep` | ractor_cluster/src/net/session.rs:31-40 | one iteration that read some bytes leaves the rest of the loop to do the same as before the iteration |
| `Inbound.ReadNBytes` | ractor_cluster/src/net/session.rs:27-43 | the loop over the array buffer returns what `ReadExact` says and leaves the stream as it says |
| `Outbound.Transmitted` | ractor_cluster/src/net/session.rs:267 | what reaches the wire is a prefix of the bytes, a strict prefix exactly when the call fails |
| `Outbound.TransmittedAll` | ractor_cluster/src/net/session.rs:267 | a call that does not fail transmits every byte, and one that fails transmits a strict prefix |
| `Outbound.Fails` | ractor_cluster/src/net/session.rs:267-272 | a `write_all` of no bytes never fails, nor does one the socket delivers in full |
| `Outbound.WriteHalf.WriteAll` | ractor_cluster/src/net/session.rs:267-272 | the wire grows by what is transmitted, and the call fails exactly when the socket breaks with bytes left to send |
| `SessionActor.Handle` | ractor_cluster/src/net/session.rs:142-171 | `Send` becomes exactly one cast to the writer and `ObjectAvailable` exactly one cast to the handler, each carrying the same message |
| `SessionActor.HandleInjective` | ractor_cluster/src/net/session.rs:148-169 | dispatch loses nothing: two messages give the same cast exactly when they are equal |
| `SessionActor.RoleOf` | ractor_cluster/src/net/session.rs:183-198 | a child is logged as the reader when it is the reader, as the writer when it is the writer and not the reader, and otherwise as unknown |
| `SessionActor.HandleSupervisorEvt` | ractor_cluster/src/net/session.rs:173-207 | a panic stops with `child_panic`, an exit with `child_terminate`, whichever child reported; every other event does nothing |
| `SessionActor.StopIgnoresIdentity` | ractor_cluster/src/net/session.rs:181-204 | the stop decision depends only on the kind of event, not on which actor it is about or on the child ids |
| `Writer.WriteObjectEffect` | ractor_cluster/src/net/session.rs:259-278 | the wire gets a prefix of the frame; the whole frame exactly when neither write fails; after a failed length prefix fewer than 8 bytes and no stop; after a failed payload the prefix, part of the payload, and stop `channel_closed` |
| `Writer.SessionWriter.PreStart` | ractor_cluster/src/net/session.rs:230-240 | the writer starts out owning the write half |
| `Writer.SessionWriter.PostStop` | ractor_cluster/src/net/session.rs:242-250 | the write half is dropped |
| `Writer.SessionWriter.Handle` | ractor_cluster/src/net/session.rs:252-287 | without a stream nothing happens; with one the wire grows as `WriteObjectEffect` says and the stop is its stop |
| `Reader.Forwarded` | ractor_cluster/src/net/session.rs:381-391 | a payload is forwarded as `ObjectAvailable` exactly when it decodes, with the decoded message |
| `Reader.Wanted` | ractor_cluster/src/net/session.rs:346-372 | while waiting for a length the reader asks for as many bytes as any length prefix has, and while reading a payload for exactly the announced length |
| `Reader.ReaderReaction` | ractor_cluster/src/net/session.rs:339-415 | a length asks for exactly one `ReadObject` of the decoded length; `UnexpectedEof` drops the stream and stops with `channel_closed` and recasts only while waiting for a length; a payload is forwarded exactly when it decodes; everything else recasts `WaitForObject` |
| `Reader.LengthPrefixAsksForPayload` | ractor_cluster/src/net/session.rs:348-352 | the prefix the writer sends for n bytes makes the reader ask for exactly n bytes |
| `Reader.SessionReader.PreStart` | ractor_cluster/src/net/session.rs:317-327 | the reader starts out owning the read half and casts itself one `WaitForObject` |
| `Reader.SessionReader.PostStop` | ractor_cluster/src/net/session.rs:329-337 | the read half is dropped |
| `Reader.SessionReader.Handle` | ractor_cluster/src/net/session.rs:339-415 | without a stream only `WaitForObject` is recast; with one the stream is consumed as by `read_n_bytes` on the wanted length and the outcome is `ReaderReaction` of the read |
| `Pipeline.ReadLengthOfFrame` | ractor_cluster/src/net/session.rs:346-352 | at the start of a frame, waiting for a length reads exactly that frame's prefix |
| `Pipeline.ReadPayloadOfFrame` | ractor_cluster/src/net/session.rs:370-381 | after the prefix, reading the announced length reads exactly the encoding |
| `Pipeline.ReadPastLastFrame` | ractor_cluster/src/net/session.rs:348-359 | after the last frame, waiting for a length meets `UnexpectedEof` |
| `Pipeline.ReactionOnFrames` | ractor_cluster/src/net/session.rs:346-411 | one reader step on a stream of frames: a length asks for its payload, a payload is forwarded if it decodes, and past the last frame the reader stops |
| `Pipeline.Notified` | ractor_cluster/src/net/session.rs:158-168 | the handler is told of each delivered message, in order |
| `Pipeline.SendAll` | ractor_cluster/src/net/session.rs:149-156 | when every `write_all` succeeds, messages sent through the session reach the wire as their frames, in order |
| `Pipeline.Serve` | ractor_cluster/src/net/session.rs:339-411 | when no poll or read fails, one reader message on a stream at a frame boundary: a length asks for that frame's payload, a payload reaches the handler if it decodes and the next length is awaited, and past the last frame the reader drops the stream and stops with `channel_closed` |
| `Pipeline.ReceiveAll` | ractor_cluster/src/net/session.rs:339-411 | when no poll or read fails, a reader on a stream of frames, however chunked, has the handler told of every payload that decodes, in order, and then stops with `channel_closed` having dropped the stream |
| `Pipeline.NotifiedOfRoundTrip` | ractor_cluster/src/net/session.rs:381-385 | with a codec that round-trips, the handler is told of exactly the messages that were encoded |
| `Pipeline.Transfer` | ractor_cluster/src/net/session.rs:259-411 | when every write succeeds and no poll or read fails, one session's writer feeding another's reader delivers every message that decodes, and with a round-tripping codec every message sent, in order; then the reader stops with `channel_closed` |

## Left out

- Tokio I/O: `readable()`, `read`, `writable()`, `write_all`, `flush` and `into_split` are replaced by the scripted read half and the write half with given outcomes. Injected read faults are never of kind `UnexpectedEof`, because only `read_n_bytes` produces that kind.
- The `unwrap()` on `writable()` and on `flush()` can panic. The model assumes both succeed, so `WriteHalf` has no readiness or flush step.
- The `unwrap()` of the 8-byte conversion before `from_be_bytes` cannot fail, because `read_n_bytes(stream, 8)` returns 8 bytes. `ReaderReaction` requires that length.
- The prost codec (`encode_length_delimited_to_vec`, `decode_length_delimited`) is foreign code. It is a parameter, with encoding producing fewer than 2^64 bytes and decoding able to fail. Its round trip is only ever a hypothesis, never proved.
- The actor runtime is left out: spawning, linking, mailbox scheduling, and how a stop takes effect. It is replaced by returned casts and stop reasons. `Pipeline` serves each mailbox in order and stops serving the reader at its first stop reason. Fail-together of the three actors is not modelled.
- `Session::spawn_linked`, `Session::pre_start` (spawning the children) and `Session::post_stop` (a log line) are runtime code and are not modelled.
- Logging, `peer_addr` and `local_addr` are left out. `SessionActor.HandleSupervisorEvt` keeps only which child a log line names.
- Supervision events carry actor ids. The boxed state of a terminated child and the contents of a process-group change are dropped.
- The `usize`/`u64` casts are the identity, as on a 64-bit target. `Vec` (an encoding) is shorter than 2^64 bytes.
- The zero-filled buffer of `read_n_bytes` is allocated with the full `len`. The memory needed for a huge announced length is not modelled.
- Pipeline.SendAll, Pipeline.Serve, Pipeline.ReceiveAll and Pipeline.Transfer: only the runs in which every write is delivered and no poll or read fails are followed to the end. A failed length-prefix write desynchronises the wire, and an injected read fault drops the bytes read so far and sends the reader back to waiting for a length in the middle of a frame. Neither case is composed over many messages. Single steps with failures are covered by `Writer.WriteObjectEffect`, `Inbound.ReadExactFailure` and `Reader.ReaderReaction`.
- Inbound.ReadHalf.Read: states only the prefix `buf[..from + n]` after a successful read, not that the bytes after it are left untouched.
