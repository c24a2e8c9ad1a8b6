/**
 * A session end to end: messages sent through the session go to the writer,
 * which frames them onto the wire; the reader on the other end reads the
 * frames back and the session hands each decoded message to the node session
 * handler. The actor runtime is replaced by loops that deliver each actor's
 * mailbox in order, one message at a time.
 */
module Pipeline {
  import opened Wrappers
  import opened Bytes
  import opened Framing
  import opened Inbound
  import opened Outbound
  import opened Messages
  import opened SessionActor
  import opened Writer
  import opened Reader

  /** Waiting for a length at the start of a frame reads exactly that frame's length prefix. */
  lemma ReadLengthOfFrame(s: Inbound, encs: seq<Vec>, i: nat)
    requires NoFaults(s.script) && i < |encs| && s.pending == Frames(encs[i..])
    ensures ReadExact(s, 8).0 == Success(ToBeBytes(|encs[i]|))
    ensures ReadExact(s, 8).1.pending == encs[i] + Frames(encs[i + 1..])
    ensures NoFaults(ReadExact(s, 8).1.script)
  {
    FramesAt(encs, i);
    ReadExactWithoutFaults(s, 8);
  }

  /** Reading the announced number of bytes after the prefix reads exactly the encoding. */
  lemma ReadPayloadOfFrame(s: Inbound, encs: seq<Vec>, i: nat)
    requires NoFaults(s.script) && i < |encs| && s.pending == encs[i] + Frames(encs[i + 1..])
    ensures ReadExact(s, |encs[i]|).0 == Success(encs[i])
    ensures ReadExact(s, |encs[i]|).1.pending == Frames(encs[i + 1..])
    ensures NoFaults(ReadExact(s, |encs[i]|).1.script)
  {
    ReadExactWithoutFaults(s, |encs[i]|);
  }

  /** After the last frame, waiting for a length meets the end of the stream. */
  lemma ReadPastLastFrame(s: Inbound)
    requires NoFaults(s.script) && s.pending == []
    ensures ReadExact(s, 8).0 == Failure(Eof)
  {
    ReadExactWithoutFaults(s, 8);
  }

  /**
   * One step of the reader on a stream positioned at frame `i`: a length
   * asks for that frame's payload, a payload is forwarded if it decodes and
   * the next length is awaited, and past the last frame the reader stops.
   */
  lemma ReactionOnFrames<M>(s: Inbound, message: ReaderMessage, codec: Codec<M>, encs: seq<Vec>, i: nat)
    requires NoFaults(s.script) && i <= |encs|
    requires message.WaitForObject? ==> s.pending == Frames(encs[i..])
    requires message.ReadObject? ==> i < |encs| && message.length == |encs[i]| && s.pending == encs[i] + Frames(encs[i + 1..])
    ensures var read := ReadExact(s, Wanted(message));
      && NoFaults(read.1.script)
      && (message.WaitForObject? && i < |encs| ==>
        && ReaderReaction(message, Some(read.0), codec) == Reaction([ReadObject(|encs[i]|)], None, None, false)
        && read.1.pending == encs[i] + Frames(encs[i + 1..]))
      && (message.WaitForObject? && i == |encs| ==>
        ReaderReaction(message, Some(read.0), codec) == Reaction([WaitForObject], None, Some(CHANNEL_CLOSED), true))
      && (message.ReadObject? ==>
        && ReaderReaction(message, Some(read.0), codec) == Reaction([WaitForObject], Forwarded(codec, encs[i]), None, false)
        && read.1.pending == Frames(encs[i + 1..]))
  {
    if message.WaitForObject? {
      if i < |encs| {
        ReadLengthOfFrame(s, encs, i);
        FromBeBytesOfToBeBytes(|encs[i]|);
      } else {
        ReadPastLastFrame(s);
        ReadExactWithoutFaults(s, 8);
      }
    } else {
      ReadPayloadOfFrame(s, encs, i);
    }
  }

  /** What the node session handler receives for a sequence of delivered messages, in order. */
  function Notified<M>(session: Session, msgs: seq<M>): (r: seq<Cast<M>>)
    ensures |r| == |msgs|
    ensures forall k :: 0 <= k < |msgs| ==> r[k] == ToHandler(session.handler, MessageReceived(msgs[k]))
  {
    if msgs == [] then [] else Notified(session, msgs[..|msgs| - 1]) + [ToHandler(session.handler, MessageReceived(msgs[|msgs| - 1]))]
  }

  /** One more delivered message adds its notification at the end. */
  lemma NotifiedSnoc<M>(session: Session, msgs: seq<M>, m: M)
    ensures Notified(session, msgs + [m]) == Notified(session, msgs) + [ToHandler(session.handler, MessageReceived(m))]
  {
    assert (msgs + [m])[..|msgs|] == msgs;
  }

  /** The payloads of the first `i + 1` frames decode to those of the first `i`, and then the (i+1)-th if it decodes. */
  lemma DecodedPrefixStep<M>(codec: Codec<M>, encs: seq<Vec>, i: nat)
    requires i < |encs|
    ensures codec.decode(encs[i]).Some? ==> Decoded(codec, encs[..i + 1]) == Decoded(codec, encs[..i]) + [codec.decode(encs[i]).value]
    ensures codec.decode(encs[i]).None? ==> Decoded(codec, encs[..i + 1]) == Decoded(codec, encs[..i])
  {
    DecodedSnoc(codec, encs[..i], encs[i]);
    assert encs[..i + 1] == encs[..i] + [encs[i]];
  }

  /**
   * Sends `msgs` through the session while the socket takes every write: the
   * session forwards each to the writer, and the wire grows by their frames
   * in order.
   */
  method SendAll<M>(session: Session, state: SessionState, w: SessionWriter, codec: Codec<M>, msgs: seq<M>)
    requires w.writer.Some?
    modifies w.writer.value
    ensures w.writer.value.wire == old(w.writer.value.wire) + Frames(Encodings(codec, msgs))
  {
    var i := 0;
    while i < |msgs|
      invariant i <= |msgs|
      invariant w.writer.value.wire == old(w.writer.value.wire) + Frames(Encodings(codec, msgs[..i]))
    {
      var cast := SessionActor.Handle(session, state, Send(msgs[i]));
      var stop := w.Handle(cast.request, codec, Delivered, Delivered);
      EncodingsSnoc(codec, msgs[..i], msgs[i]);
      FramesSnoc(Encodings(codec, msgs[..i]), codec.encode(msgs[i]));
      assert msgs[..i + 1] == msgs[..i] + [msgs[i]];
      i := i + 1;
    }
    assert msgs[..i] == msgs;
  }

  /**
   * Serves one reader message on a stream positioned at frame `i`, and passes
   * what the reader casts up on to the session: a length asks for that
   * frame's payload, a payload reaches the handler if it decodes and the
   * next length is awaited, and past the last frame the reader stops.
   */
  method Serve<M>(session: Session, state: SessionState, rd: SessionReader, message: ReaderMessage, codec: Codec<M>,
                  ghost encs: seq<Vec>, ghost i: nat, handled: seq<Cast<M>>)
    returns (casts: seq<ReaderMessage>, handled': seq<Cast<M>>, stop: Option<string>)
    requires rd.reader.Some? && NoFaults(rd.reader.value.script) && i <= |encs|
    requires handled == Notified(session, Decoded(codec, encs[..i]))
    requires message.WaitForObject? ==> rd.reader.value.pending == Frames(encs[i..])
    requires message.ReadObject? ==>
      i < |encs| && message.length == |encs[i]| && rd.reader.value.pending == encs[i] + Frames(encs[i + 1..])
    modifies rd, rd.reader.value
    ensures message.WaitForObject? && i == |encs| ==> stop == Some(CHANNEL_CLOSED) && rd.reader.None? && handled' == handled
    ensures !(message.WaitForObject? && i == |encs|) ==>
      && stop.None? && rd.reader == old(rd.reader) && NoFaults(rd.reader.value.script)
    ensures message.WaitForObject? && i < |encs| ==>
      && casts == [ReadObject(|encs[i]|)] && handled' == handled
      && rd.reader.value.pending == encs[i] + Frames(encs[i + 1..])
    ensures message.ReadObject? ==>
      && casts == [WaitForObject] && rd.reader.value.pending == Frames(encs[i + 1..])
      && handled' == Notified(session, Decoded(codec, encs[..i + 1]))
  {
    var h := rd.reader.value;
    ReactionOnFrames(Inbound(h.pending, h.script), message, codec, encs, i);
    var up;
    casts, up, stop := rd.Handle(message, codec);
    handled' := handled;
    if up.Some? {
      handled' := handled + [SessionActor.Handle(session, state, up.value)];
    }
    if message.ReadObject? {
      DecodedPrefixStep(codec, encs, i);
      if codec.decode(encs[i]).Some? {
        NotifiedSnoc(session, Decoded(codec, encs[..i]), codec.decode(encs[i]).value);
      }
    }
  }

  /**
   * Runs the reader on a stream holding the frames `encs` and no failures,
   * from its first `WaitForObject` until it stops: the session hands the
   * handler every payload that decodes, in order, and the reader stops with
   * `channel_closed` once the frames are used up.
   */
  method ReceiveAll<M>(session: Session, state: SessionState, rd: SessionReader, first: seq<ReaderMessage>, codec: Codec<M>, ghost encs: seq<Vec>)
    returns (handled: seq<Cast<M>>, stop: Option<string>)
    requires first == [WaitForObject]
    requires rd.reader.Some? && rd.reader.value.pending == Frames(encs) && NoFaults(rd.reader.value.script)
    modifies rd, rd.reader.value
    ensures handled == Notified(session, Decoded(codec, encs))
    ensures stop == Some(CHANNEL_CLOSED) && rd.reader.None?
  {
    ghost var h := rd.reader.value;
    ghost var i := 0;
    var mailbox := first;
    handled, stop := [], None;
    while stop.None?
      invariant i <= |encs|
      invariant handled == Notified(session, Decoded(codec, encs[..i]))
      invariant stop.None? ==> rd.reader == Some(h) && NoFaults(h.script) && |mailbox| == 1
      invariant stop.None? && mailbox[0].WaitForObject? ==> h.pending == Frames(encs[i..])
      invariant stop.None? && mailbox[0].ReadObject? ==>
        i < |encs| && mailbox[0].length == |encs[i]| && h.pending == encs[i] + Frames(encs[i + 1..])
      invariant stop.Some? ==> i == |encs| && stop == Some(CHANNEL_CLOSED) && rd.reader.None?
      decreases 2 * (|encs| - i) + (if stop.Some? then 0 else if mailbox[0].WaitForObject? then 2 else 1)
    {
      var message := mailbox[0];
      var casts, st;
      casts, handled, st := Serve(session, state, rd, message, codec, encs, i, handled);
      if message.ReadObject? {
        i := i + 1;
      }
      mailbox, stop := mailbox[1..] + casts, st;
    }
    assert encs[..i] == encs;
  }

  /** With a codec that round-trips, the handler is told of every message, in order. */
  lemma NotifiedOfRoundTrip<M(!new)>(session: Session, codec: Codec<M>, msgs: seq<M>)
    requires RoundTrips(codec)
    ensures Notified(session, Decoded(codec, Encodings(codec, msgs))) == Notified(session, msgs)
  {
    DecodedOfEncodings(codec, msgs);
  }

  /**
   * One session's writer connected to another session's reader: the messages
   * sent on one side are framed onto the wire, however the far side's reads
   * are chunked they are read back, and the far side's handler is told of
   * every one that decodes, in order; once the wire is drained the reader
   * stops with `channel_closed`. With a codec that round-trips that is every
   * message sent.
   */
  method Transfer<M(!new)>(local: Session, localState: SessionState, remote: Session, remoteState: SessionState,
                           codec: Codec<M>, msgs: seq<M>, script: seq<ReadEvent>)
    returns (handled: seq<Cast<M>>, stop: Option<string>)
    requires NoFaults(script)
    ensures handled == Notified(remote, Decoded(codec, Encodings(codec, msgs)))
    ensures RoundTrips(codec) ==> handled == Notified(remote, msgs)
    ensures stop == Some(CHANNEL_CLOSED)
  {
    var out := new WriteHalf();
    var w := new SessionWriter.PreStart(out);
    SendAll(local, localState, w, codec, msgs);
    var inb := new ReadHalf(out.wire, script);
    var rd, first := SessionReader.PreStart(inb);
    handled, stop := ReceiveAll(remote, remoteState, rd, first, codec, Encodings(codec, msgs));
    if RoundTrips(codec) {
      NotifiedOfRoundTrip(remote, codec, msgs);
    }
  }
}
