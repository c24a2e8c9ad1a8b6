/**
 * The session writer: it owns the write half of the stream while it is
 * present and turns every `WriteObject` into one frame on the wire.
 */
module Writer {
  import opened Wrappers
  import opened Bytes
  import opened Framing
  import opened Outbound
  import opened Messages

  /** What one `WriteObject` does: the bytes it puts on the wire, and the reason the writer stops with, if any. */
  datatype Effect = Effect(emitted: seq<uint8>, stop: Option<string>)

  /**
   * Writing the frame of `enc` when the two `write_all` calls end as `prefix`
   * and `payload` say: a failed length prefix is only logged and the payload
   * is skipped; a failed payload stops the writer with `channel_closed`.
   */
  function WriteObjectEffect(enc: Vec, prefix: WriteOutcome, payload: WriteOutcome): (e: Effect)
    ensures |e.emitted| <= |Frame(enc)| && e.emitted == Frame(enc)[..|e.emitted|]
    ensures e.emitted == Frame(enc) <==> !Fails(ToBeBytes(|enc|), prefix) && !Fails(enc, payload)
    ensures Fails(ToBeBytes(|enc|), prefix) ==> |e.emitted| < 8 && e.stop.None?
    ensures !Fails(ToBeBytes(|enc|), prefix) && Fails(enc, payload) ==>
      8 <= |e.emitted| < 8 + |enc| && e.stop == Some(CHANNEL_CLOSED)
    ensures e.stop.Some? ==> Fails(enc, payload)
  {
    var lengthBytes := ToBeBytes(|enc|);
    if Fails(lengthBytes, prefix) then Effect(Transmitted(lengthBytes, prefix), None)
    else if Fails(enc, payload) then Effect(lengthBytes + Transmitted(enc, payload), Some(CHANNEL_CLOSED))
    else Effect(Frame(enc), None)
  }

  /** `SessionWriter` with its `SessionWriterState`. */
  class SessionWriter {
    var writer: Option<WriteHalf>

    /** `pre_start`: the writer starts out owning the write half. */
    constructor PreStart(stream: WriteHalf)
      ensures writer == Some(stream)
    {
      writer := Some(stream);
    }

    /** `post_stop`: the write half is dropped, which closes it. */
    method PostStop()
      modifies this
      ensures writer.None?
    {
      writer := None;
    }

    /**
     * `handle`: with the stream present, write the length prefix and then the
     * payload; without it, do nothing. The writer keeps its stream either way.
     */
    method Handle<M>(message: WriterMessage<M>, codec: Codec<M>, prefix: WriteOutcome, payload: WriteOutcome)
      returns (stop: Option<string>)
      modifies if writer.Some? then {writer.value} else {}
      ensures writer.None? ==> stop.None?
      ensures writer.Some? ==>
        var e := WriteObjectEffect(codec.encode(message.msg), prefix, payload);
        writer.value.wire == old(writer.value.wire) + e.emitted && stop == e.stop
    {
      stop := None;
      if writer.Some? {
        var stream := writer.value;
        var enc := codec.encode(message.msg);
        var lengthBytes := ToBeBytes(|enc|);
        var r := stream.WriteAll(lengthBytes, prefix);
        if r.Pass? {
          r := stream.WriteAll(enc, payload);
          if r.Fail? {
            stop := Some(CHANNEL_CLOSED);
          }
        }
      }
    }
  }
}
