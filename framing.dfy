/**
 * The wire format of a session: each message travels as one frame, the
 * 8-byte big-endian length of its encoding followed by the encoding itself,
 * and frames follow each other with no delimiter.
 */
module Framing {
  import opened Wrappers
  import opened Bytes

  /**
   * The inner message codec (prost's length-delimited encode and decode of a
   * `NetworkMessage`). It is not part of this model, so it is a parameter:
   * encoding always succeeds, decoding may fail.
   */
  datatype Codec<!M> = Codec(encode: M -> Vec, decode: seq<uint8> -> Option<M>)

  /** A hypothesis about a codec, never a claim of this model: decode undoes encode. */
  ghost predicate RoundTrips<M(!new)>(codec: Codec<M>)
  {
    forall m :: codec.decode(codec.encode(m)) == Some(m)
  }

  /** The bytes the writer puts on the wire for one encoded message. */
  function Frame(enc: Vec): (r: seq<uint8>)
    ensures |r| == 8 + |enc|
    ensures r[..8] == ToBeBytes(|enc|) && r[8..] == enc
  {
    ToBeBytes(|enc|) + enc
  }

  /** The bytes of several frames sent back to back, first frame first. */
  function Frames(encs: seq<Vec>): seq<uint8>
  {
    if encs == [] then [] else Frame(encs[0]) + Frames(encs[1..])
  }

  /** Every frame takes at least its 8-byte prefix, and no frames take no bytes. */
  lemma {:induction false} FramesLength(encs: seq<Vec>)
    ensures |Frames(encs)| >= 8 * |encs|
    ensures Frames(encs) == [] <==> encs == []
  {
    if encs != [] {
      FramesLength(encs[1..]);
    }
  }

  /** Sending a batch and then another batch puts their frames on the wire in that order. */
  lemma {:induction false} FramesAppend(a: seq<Vec>, b: seq<Vec>)
    ensures Frames(a + b) == Frames(a) + Frames(b)
  {
    if a == [] {
      assert a + b == b;
    } else {
      assert (a + b)[0] == a[0];
      assert (a + b)[1..] == a[1..] + b;
      FramesAppend(a[1..], b);
    }
  }

  /** The frame of one more message goes right after the frames already sent. */
  lemma FramesSnoc(encs: seq<Vec>, enc: Vec)
    ensures Frames(encs + [enc]) == Frames(encs) + Frame(enc)
  {
    FramesAppend(encs, [enc]);
    assert Frames([enc]) == Frame(enc) + Frames([]);
  }

  /** The wire starting at the i-th frame is that frame followed by the later ones. */
  lemma FramesAt(encs: seq<Vec>, i: nat)
    requires i < |encs|
    ensures Frames(encs[i..]) == ToBeBytes(|encs[i]|) + (encs[i] + Frames(encs[i + 1..]))
  {
    assert encs[i..][0] == encs[i];
    assert encs[i..][1..] == encs[i + 1..];
  }

  /** The encodings of a sequence of messages, in order. */
  function Encodings<M>(codec: Codec<M>, msgs: seq<M>): (r: seq<Vec>)
    ensures |r| == |msgs|
  {
    if msgs == [] then [] else [codec.encode(msgs[0])] + Encodings(codec, msgs[1..])
  }

  /** Encoding two batches one after the other encodes their concatenation. */
  lemma {:induction false} EncodingsAppend<M>(codec: Codec<M>, a: seq<M>, b: seq<M>)
    ensures Encodings(codec, a + b) == Encodings(codec, a) + Encodings(codec, b)
  {
    if a == [] {
      assert a + b == b;
    } else {
      assert (a + b)[0] == a[0];
      assert (a + b)[1..] == a[1..] + b;
      EncodingsAppend(codec, a[1..], b);
    }
  }

  /** One more message adds its encoding at the end. */
  lemma EncodingsSnoc<M>(codec: Codec<M>, msgs: seq<M>, m: M)
    ensures Encodings(codec, msgs + [m]) == Encodings(codec, msgs) + [codec.encode(m)]
  {
    EncodingsAppend(codec, msgs, [m]);
    assert [m][1..] == [];
  }

  /** The messages that decode successfully from a sequence of payloads, in order; the others are dropped. */
  function Decoded<M>(codec: Codec<M>, payloads: seq<seq<uint8>>): (r: seq<M>)
    ensures |r| <= |payloads|
    ensures |r| == |payloads| <==> forall i :: 0 <= i < |payloads| ==> codec.decode(payloads[i]).Some?
  {
    if payloads == [] then []
    else
      match codec.decode(payloads[0])
      case Some(m) => [m] + Decoded(codec, payloads[1..])
      case None => Decoded(codec, payloads[1..])
  }

  lemma {:induction false} DecodedAppend<M>(codec: Codec<M>, a: seq<seq<uint8>>, b: seq<seq<uint8>>)
    ensures Decoded(codec, a + b) == Decoded(codec, a) + Decoded(codec, b)
  {
    if a == [] {
      assert a + b == b;
    } else {
      assert (a + b)[0] == a[0];
      assert (a + b)[1..] == a[1..] + b;
      DecodedAppend(codec, a[1..], b);
    }
  }

  /** One more payload adds its message at the end, or nothing when it does not decode. */
  lemma DecodedSnoc<M>(codec: Codec<M>, a: seq<seq<uint8>>, p: seq<uint8>)
    ensures Decoded(codec, a + [p]) == Decoded(codec, a) + (match codec.decode(p) case Some(m) => [m] case None => [])
  {
    DecodedAppend(codec, a, [p]);
    assert [p][1..] == [];
  }

  /** With a codec that round-trips, decoding the encodings gives back every message in order. */
  lemma {:induction false} DecodedOfEncodings<M(!new)>(codec: Codec<M>, msgs: seq<M>)
    requires RoundTrips(codec)
    ensures Decoded(codec, Encodings(codec, msgs)) == msgs
  {
    if msgs != [] {
      var encs := Encodings(codec, msgs);
      assert codec.decode(encs[0]) == Some(msgs[0]);
      DecodedOfEncodings(codec, msgs[1..]);
      assert msgs == [msgs[0]] + msgs[1..];
    }
  }
}
