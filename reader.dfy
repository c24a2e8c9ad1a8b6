/**
 * The session reader: a loop of self-messages that alternates between
 * reading an 8-byte length (`WaitForObject`) and reading that many bytes of
 * payload (`ReadObject`), handing each decoded message up to the session.
 */
module Reader {
  import opened Wrappers
  import opened Bytes
  import opened Framing
  import opened Inbound
  import opened Messages

  /**
   * What one `handle` call does: the self-messages it casts, the message it
   * casts up to the session, the reason it stops with, and whether it drops
   * the read half.
   */
  datatype Reaction<M> = Reaction(casts: seq<ReaderMessage>, up: Option<SessionMessage<M>>, stop: Option<string>, drop: bool)

  /** How many bytes the reader asks for in each state. */
  function Wanted(message: ReaderMessage): (n: nat)
    ensures message.WaitForObject? ==> forall len: u64 :: n == |ToBeBytes(len)|
    ensures message.ReadObject? ==> n == message.length
  {
    match message
    case WaitForObject => 8
    case ReadObject(length) => length
  }

  /** The message a payload decodes to, as the session receives it; nothing when decoding fails. */
  function Forwarded<M>(codec: Codec<M>, payload: seq<uint8>): (up: Option<SessionMessage<M>>)
    ensures up.Some? <==> codec.decode(payload).Some?
    ensures up.Some? ==> up.value == ObjectAvailable(codec.decode(payload).value)
  {
    match codec.decode(payload)
    case Some(m) => Some(ObjectAvailable(m))
    case None => None
  }

  /**
   * `SessionReader::handle` once the read is done: `read` is the result of
   * `read_n_bytes(stream, Wanted(message))`, or nothing when no stream is present.
   * A length that arrives asks for its payload; a payload is forwarded if it
   * decodes and then the next length is awaited; `UnexpectedEof` drops the
   * stream and stops with `channel_closed`, recasting `WaitForObject` only
   * when it came while waiting for a length; any other error, and a missing
   * stream, recast `WaitForObject`.
   */
  function ReaderReaction<M>(message: ReaderMessage, read: Option<Result<seq<uint8>, IoError>>, codec: Codec<M>): (r: Reaction<M>)
    requires read.Some? && read.value.Success? ==> |read.value.value| == Wanted(message)
    ensures |r.casts| <= 1
    ensures r.drop <==> read == Some(Failure(Eof))
    ensures r.stop.Some? <==> r.drop
    ensures r.stop.Some? ==> r.stop == Some(CHANNEL_CLOSED)
    ensures r.casts == [] <==> message.ReadObject? && read == Some(Failure(Eof))
    ensures r.up.Some? <==> message.ReadObject? && read.Some? && read.value.Success? && codec.decode(read.value.value).Some?
    ensures r.up.Some? ==> r.up == Forwarded(codec, read.value.value)
    ensures message.WaitForObject? && read.Some? && read.value.Success? ==>
      r.casts == [ReadObject(FromBeBytes(read.value.value))]
    ensures !(message.WaitForObject? && read.Some? && read.value.Success?) && r.casts != [] ==>
      r.casts == [WaitForObject]
  {
    match read
    case None => Reaction([WaitForObject], None, None, false)
    case Some(Success(buf)) =>
      if message.WaitForObject? then Reaction([ReadObject(FromBeBytes(buf))], None, None, false)
      else Reaction([WaitForObject], Forwarded(codec, buf), None, false)
    case Some(Failure(Eof)) =>
      if message.WaitForObject? then Reaction([WaitForObject], None, Some(CHANNEL_CLOSED), true)
      else Reaction([], None, Some(CHANNEL_CLOSED), true)
    case Some(Failure(Fault(_))) => Reaction([WaitForObject], None, None, false)
  }

  /** The length the writer put in front of a payload of `n` bytes makes the reader ask for exactly `n` bytes. */
  lemma LengthPrefixAsksForPayload<M>(n: u64, codec: Codec<M>)
    ensures ReaderReaction(WaitForObject, Some(Success(ToBeBytes(n))), codec).casts == [ReadObject(n)]
    ensures Wanted(ReaderReaction(WaitForObject, Some(Success(ToBeBytes(n))), codec).casts[0]) == n
  {
    FromBeBytesOfToBeBytes(n);
  }

  /** `SessionReader` with its `SessionReaderState`. */
  class SessionReader {
    var reader: Option<ReadHalf>

    constructor (stream: ReadHalf)
      ensures reader == Some(stream)
    {
      reader := Some(stream);
    }

    /** `pre_start`: the reader starts out owning the read half and casts itself the first `WaitForObject`. */
    static method PreStart(stream: ReadHalf) returns (actor: SessionReader, casts: seq<ReaderMessage>)
      ensures fresh(actor) && actor.reader == Some(stream)
      ensures casts == [WaitForObject]
    {
      actor := new SessionReader(stream);
      casts := [WaitForObject];
    }

    /** `post_stop`: the read half is dropped, which closes it. */
    method PostStop()
      modifies this
      ensures reader.None?
    {
      reader := None;
    }

    /**
     * `handle`: with the stream present, read the bytes the message asks for
     * and react to the result as `ReaderReaction` says; the stream is consumed
     * as `read_n_bytes` consumes it.
     */
    method Handle<M>(message: ReaderMessage, codec: Codec<M>)
      returns (casts: seq<ReaderMessage>, up: Option<SessionMessage<M>>, stop: Option<string>)
      modifies this, if reader.Some? then {reader.value} else {}
      ensures old(reader).None? ==>
        var r := ReaderReaction(message, None, codec);
        reader == old(reader) && casts == r.casts && up == r.up && stop == r.stop
      ensures old(reader).Some? ==>
        var stream := old(reader).value;
        var (res, after) := ReadExact(Inbound(old(stream.pending), old(stream.script)), Wanted(message));
        var r := ReaderReaction(message, Some(res), codec);
        && Inbound(stream.pending, stream.script) == after
        && reader == (if r.drop then None else old(reader))
        && casts == r.casts && up == r.up && stop == r.stop
    {
      var r: Reaction<M>;
      if reader.None? {
        r := ReaderReaction(message, None, codec);
      } else {
        var stream := reader.value;
        var res := ReadNBytes(stream, Wanted(message));
        r := ReaderReaction(message, Some(res), codec);
        if r.drop {
          reader := None;
        }
      }
      casts, up, stop := r.casts, r.up, r.stop;
    }
  }
}
