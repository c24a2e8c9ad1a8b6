/**
 * The write half of the session stream. The socket is replaced by the bytes
 * that reached the wire so far; whether a `write_all` succeeds is an input
 * of each call.
 */
module Outbound {
  import opened Wrappers
  import opened Bytes
  import opened Inbound

  /**
   * How one `write_all` call ends: everything is delivered, or the socket
   * breaks after `sent` bytes went out with error `code`.
   */
  datatype WriteOutcome = Delivered | Broken(sent: nat, code: int)

  /**
   * The call fails: the socket broke and there was something left to send.
   * `write_all` of no bytes performs no write, so it cannot fail.
   */
  predicate Fails(bytes: seq<uint8>, outcome: WriteOutcome): (b: bool)
    ensures bytes == [] ==> !b
    ensures outcome == Delivered ==> !b
  {
    outcome.Broken? && bytes != []
  }

  /** The bytes of `bytes` that reach the wire: all of them, or those sent before the socket broke, never all. */
  function Transmitted(bytes: seq<uint8>, outcome: WriteOutcome): (r: seq<uint8>)
    ensures |r| <= |bytes| && r == bytes[..|r|]
    ensures Fails(bytes, outcome) <==> |r| < |bytes|
  {
    if Fails(bytes, outcome) then bytes[..Min(outcome.sent, |bytes| - 1)] else bytes
  }

  /** A call that does not fail transmits every byte; one that fails transmits a strict prefix. */
  lemma TransmittedAll(bytes: seq<uint8>, outcome: WriteOutcome)
    ensures !Fails(bytes, outcome) <==> Transmitted(bytes, outcome) == bytes
    ensures Fails(bytes, outcome) ==> Transmitted(bytes, outcome) + bytes[|Transmitted(bytes, outcome)|..] == bytes
  {
  }

  /** The write half of the stream as the writer owns it: `wire` is everything written so far. */
  class WriteHalf {
    var wire: seq<uint8>

    constructor ()
      ensures wire == []
    {
      wire := [];
    }

    /** `stream.write_all(bytes)`: appends what is transmitted, and reports the failure if there is one. */
    method WriteAll(bytes: seq<uint8>, outcome: WriteOutcome) returns (r: Outcome<IoError>)
      modifies this
      ensures wire == old(wire) + Transmitted(bytes, outcome)
      ensures r.Fail? <==> Fails(bytes, outcome)
      ensures r.Fail? ==> r.error == Fault(outcome.code)
    {
      wire := wire + Transmitted(bytes, outcome);
      r := if Fails(bytes, outcome) then Fail(Fault(outcome.code)) else Pass;
    }
  }
}
