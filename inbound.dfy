/**
 * The read half of the session stream and `read_n_bytes`, which reads exactly
 * `len` bytes from it. The socket is replaced by the bytes the peer sent
 * before closing (`pending`) and a script that decides, call by call, how many
 * bytes a read may hand out or which error it reports.
 */
module Inbound {
  import opened Wrappers
  import opened Bytes

  /** An I/O error: the distinguished `UnexpectedEof`, or a fault the socket reported. */
  datatype IoError = Eof | Fault(code: int)

  type ChunkSize = n: nat | n > 0 witness 1

  /**
   * What the next readiness poll or read does: a read hands out at most `max`
   * bytes (never more than there is room for or than the peer sent), or the
   * call fails.
   */
  datatype ReadEvent = Chunk(max: ChunkSize) | Error(code: int)

  /** The state of the read half: bytes not yet read, and the script of the calls still to come. */
  datatype Inbound = Inbound(pending: seq<uint8>, script: seq<ReadEvent>)

  /** A script in which no call fails: the peer may still trickle bytes in any chunks. */
  ghost predicate NoFaults(script: seq<ReadEvent>)
  {
    forall i :: 0 <= i < |script| ==> script[i].Chunk?
  }

  function Rest(script: seq<ReadEvent>): seq<ReadEvent>
  {
    if script == [] then [] else script[1..]
  }

  /** `stream.readable().await`: consumes one event, and fails when that event is a failure. */
  function Readiness(s: Inbound): (r: (Outcome<IoError>, Inbound))
    ensures r.1 == Inbound(s.pending, Rest(s.script))
    ensures r.0.Fail? <==> s.script != [] && s.script[0].Error?
    ensures r.0.Fail? ==> r.0.error == Fault(s.script[0].code)
  {
    if s.script != [] && s.script[0].Error? then (Fail(Fault(s.script[0].code)), Inbound(s.pending, s.script[1..]))
    else (Pass, Inbound(s.pending, Rest(s.script)))
  }

  /** The next poll or read fails: the head of the script is an error. */
  predicate Faulted(s: Inbound)
  {
    s.script != [] && s.script[0].Error?
  }

  /**
   * How many bytes a read with `room` bytes of room hands out when it does not
   * fail: as many as the event allows and there is room for, and zero exactly
   * when the peer has closed and everything was read.
   */
  function ChunkLen(s: Inbound, room: nat): (n: nat)
    ensures n <= room && n <= |s.pending|
    ensures room > 0 ==> (n == 0 <==> s.pending == [])
  {
    var allowed := if s.script == [] || s.script[0].Error? then room else Min(room, s.script[0].max);
    Min(allowed, |s.pending|)
  }

  /** `stream.read(&mut buf[..room])`: the error the script reports, or the next `ChunkLen` bytes. */
  function ReadChunk(s: Inbound, room: nat): (r: (Result<seq<uint8>, IoError>, Inbound))
    ensures r.1.script == Rest(s.script)
    ensures r.0.Failure? <==> Faulted(s)
  {
    if Faulted(s) then (Failure(Fault(s.script[0].code)), Inbound(s.pending, Rest(s.script)))
    else
      var n := ChunkLen(s, room);
      (Success(s.pending[..n]), Inbound(s.pending[n..], Rest(s.script)))
  }

  /**
   * The loop of `read_n_bytes` from the point where the bytes `got` are in
   * and `need` more are wanted: read until they are in, a read fails, or a
   * read returns zero bytes.
   */
  function Fill(s: Inbound, got: seq<uint8>, need: nat): (r: (Result<seq<uint8>, IoError>, Inbound))
    ensures r.0.Success? ==> |r.0.value| == |got| + need
    decreases need
  {
    if need == 0 then (Success(got), s)
    else
      var rc := ReadChunk(s, need);
      match rc.0
      case Failure(e) => (Failure(e), rc.1)
      case Success(chunk) =>
        if chunk == [] then (Failure(Eof), rc.1)
        else Fill(rc.1, got + chunk, need - |chunk|)
  }

  /** `read_n_bytes(stream, len)`: poll for readiness once, then fill a buffer of `len` bytes. */
  function ReadExact(s: Inbound, len: nat): (r: (Result<seq<uint8>, IoError>, Inbound))
    ensures r.0.Success? ==> |r.0.value| == len
  {
    var ready := Readiness(s);
    match ready.0
    case Fail(e) => (Failure(e), ready.1)
    case Pass => Fill(ready.1, [], len)
  }

  ghost predicate IsSuffix<T>(a: seq<T>, b: seq<T>)
  {
    |a| <= |b| && a == b[|b| - |a|..]
  }

  lemma SuffixTransitive<T>(a: seq<T>, b: seq<T>, c: seq<T>)
    requires IsSuffix(a, b) && IsSuffix(b, c)
    ensures IsSuffix(a, c)
  {
    assert c[|c| - |b|..][|b| - |a|..] == c[|c| - |a|..];
  }

  /** What one read consumes: the bytes it hands out are the front of the peer's bytes, and a failed read consumes none. */
  lemma ReadChunkConsumes(s: Inbound, room: nat)
    ensures var (res, next) := ReadChunk(s, room);
      && (res.Failure? ==> res.error == Fault(s.script[0].code) && next.pending == s.pending)
      && (res.Success? ==>
        && |res.value| <= room
        && s.pending == res.value + next.pending
        && (room > 0 ==> (res.value == [] <==> s.pending == [])))
  {
    if !Faulted(s) {
      var n := ChunkLen(s, room);
      assert s.pending == s.pending[..n] + s.pending[n..];
    }
  }

  /** Fill only ever consumes: what is left of the bytes and of the script are suffixes of what there was. */
  lemma {:induction false} FillSuffix(s: Inbound, got: seq<uint8>, need: nat)
    ensures IsSuffix(Fill(s, got, need).1.pending, s.pending)
    ensures IsSuffix(Fill(s, got, need).1.script, s.script)
    decreases need
  {
    if need > 0 {
      var rc := ReadChunk(s, need);
      ReadChunkConsumes(s, need);
      var next := rc.1;
      assert IsSuffix(next.pending, s.pending);
      assert IsSuffix(next.script, s.script);
      if rc.0.Success? && rc.0.value != [] {
        var chunk := rc.0.value;
        var rest := need - |chunk|;
        FillSuffix(next, got + chunk, rest);
        var after := Fill(next, got + chunk, rest).1;
        assert Fill(s, got, need).1 == after;
        SuffixTransitive(after.pending, next.pending, s.pending);
        SuffixTransitive(after.script, next.script, s.script);
      }
    }
  }

  /** A successful Fill appends the next `need` bytes to `got` and consumes exactly those. */
  lemma {:induction false} FillSuccess(s: Inbound, got: seq<uint8>, need: nat)
    requires Fill(s, got, need).0.Success?
    ensures need <= |s.pending|
    ensures Fill(s, got, need).0.value == got + s.pending[..need]
    ensures Fill(s, got, need).1.pending == s.pending[need..]
    decreases need
  {
    if need == 0 {
      assert got + s.pending[..0] == got;
    } else {
      var rc := ReadChunk(s, need);
      ReadChunkConsumes(s, need);
      assert rc.0.Success? && rc.0.value != [];
      var chunk, next := rc.0.value, rc.1;
      var rest := need - |chunk|;
      assert Fill(s, got, need) == Fill(next, got + chunk, rest);
      FillSuccess(next, got + chunk, rest);
      SplitAfter(got, chunk, next.pending, need);
    }
  }

  /** Taking `need` elements from `chunk + p` after `got`, when `chunk` is fewer than `need`. */
  lemma SplitAfter<T>(got: seq<T>, chunk: seq<T>, p: seq<T>, need: nat)
    requires |chunk| <= need <= |chunk| + |p|
    ensures (got + chunk) + p[..need - |chunk|] == got + (chunk + p)[..need]
    ensures (chunk + p)[need..] == p[need - |chunk|..]
  {
    assert (chunk + p)[..need] == chunk + p[..need - |chunk|];
  }

  /** Fill fails with `UnexpectedEof` only after reading everything the peer sent, which was too little. */
  lemma {:induction false} FillEof(s: Inbound, got: seq<uint8>, need: nat)
    requires Fill(s, got, need).0 == Failure(Eof)
    ensures |s.pending| < need && Fill(s, got, need).1.pending == []
    decreases need
  {
    var rc := ReadChunk(s, need);
    ReadChunkConsumes(s, need);
    if rc.0.value != [] {
      var chunk := rc.0.value;
      var rest := need - |chunk|;
      assert Fill(s, got, need) == Fill(rc.1, got + chunk, rest);
      FillEof(rc.1, got + chunk, rest);
    }
  }

  /**
   * The j-th call of the script is the first one that fails, with error
   * `code`, and the calls after it are the ones still to come.
   */
  ghost predicate FirstFailure(script: seq<ReadEvent>, j: int, code: int, rest: seq<ReadEvent>)
  {
    && 0 <= j < |script|
    && script[j] == Error(code)
    && (forall k :: 0 <= k < j ==> script[k].Chunk?)
    && rest == script[j + 1..]
  }

  /** A call that succeeds before the first failure moves that failure one place later. */
  lemma FirstFailureLater(script: seq<ReadEvent>, j: int, code: int, rest: seq<ReadEvent>)
    requires script != [] && script[0].Chunk? && FirstFailure(script[1..], j, code, rest)
    ensures FirstFailure(script, j + 1, code, rest)
  {
    forall k | 0 <= k < j + 1
      ensures script[k].Chunk?
    {
      if k > 0 {
        assert script[k] == script[1..][k - 1];
      }
    }
    assert script[1..][j + 1..] == script[j + 2..];
  }

  /**
   * Every other error of Fill is the error of the first call that fails: it is
   * returned unchanged, at once, and the calls after it are left in the script.
   */
  lemma {:induction false} FillFault(s: Inbound, got: seq<uint8>, need: nat)
    ensures var (res, after) := Fill(s, got, need);
      res.Failure? && res.error.Fault? ==> exists j :: FirstFailure(s.script, j, res.error.code, after.script)
    decreases need
  {
    var (res, after) := Fill(s, got, need);
    if need > 0 {
      var rc := ReadChunk(s, need);
      ReadChunkConsumes(s, need);
      if Faulted(s) {
        assert FirstFailure(s.script, 0, res.error.code, after.script);
      } else if rc.0.value != [] {
        var chunk := rc.0.value;
        var rest := need - |chunk|;
        assert Fill(s, got, need) == Fill(rc.1, got + chunk, rest);
        FillFault(rc.1, got + chunk, rest);
        if s.script != [] && res.Failure? && res.error.Fault? {
          var j :| FirstFailure(rc.1.script, j, res.error.code, after.script);
          FirstFailureLater(s.script, j, res.error.code, after.script);
        }
      }
    }
  }

  /**
   * With a script in which no call fails, Fill succeeds exactly when the peer
   * sent enough bytes, its only error is `UnexpectedEof`, and no failure is
   * left in the script.
   */
  lemma {:induction false} FillWithoutFaults(s: Inbound, got: seq<uint8>, need: nat)
    requires NoFaults(s.script)
    ensures Fill(s, got, need).0.Success? <==> need <= |s.pending|
    ensures Fill(s, got, need).0.Failure? ==> Fill(s, got, need).0.error == Eof
    ensures NoFaults(Fill(s, got, need).1.script)
    decreases need
  {
    if need > 0 {
      var rc := ReadChunk(s, need);
      ReadChunkConsumes(s, need);
      var chunk, next := rc.0.value, rc.1;
      assert NoFaults(next.script);
      if chunk != [] {
        var rest := need - |chunk|;
        assert Fill(s, got, need) == Fill(next, got + chunk, rest);
        FillWithoutFaults(next, got + chunk, rest);
      }
    }
  }

  /** `read_n_bytes` succeeds only with exactly the next `len` bytes the peer sent, and consumes them. */
  lemma ReadExactSuccess(s: Inbound, len: nat)
    ensures var (res, after) := ReadExact(s, len);
      res.Success? ==>
        && len <= |s.pending|
        && |res.value| == len
        && res.value == s.pending[..len]
        && after.pending == s.pending[len..]
  {
    var s1 := Readiness(s).1;
    if Fill(s1, [], len).0.Success? {
      FillSuccess(s1, [], len);
      assert [] + s.pending[..len] == s.pending[..len];
    }
  }

  /**
   * The errors of `read_n_bytes`: `UnexpectedEof` only when the peer closed
   * before `len` bytes arrived, any other error is that of the first poll or
   * read that failed, returned at once with the later calls left; and a peer that sent fewer than `len` bytes never yields success.
   */
  lemma ReadExactFailure(s: Inbound, len: nat)
    ensures var (res, after) := ReadExact(s, len);
      && (res == Failure(Eof) ==> |s.pending| < len && after.pending == [])
      && (res.Failure? && res.error.Fault? ==> exists j :: FirstFailure(s.script, j, res.error.code, after.script))
      && (|s.pending| < len ==> res.Failure?)
  {
    var s1 := Readiness(s).1;
    var res := ReadExact(s, len).0;
    if res == Failure(Eof) {
      FillEof(s1, [], len);
    }
    if Faulted(s) {
      assert FirstFailure(s.script, 0, res.error.code, ReadExact(s, len).1.script);
    } else {
      FillFault(s1, [], len);
      if s.script != [] && res.Failure? && res.error.Fault? {
        var j :| FirstFailure(s1.script, j, res.error.code, ReadExact(s, len).1.script);
        FirstFailureLater(s.script, j, res.error.code, ReadExact(s, len).1.script);
      }
    }
    if res.Success? {
      FillSuccess(s1, [], len);
    }
  }

  /**
   * Chunk independence: when no call fails, the outcome is fixed by the peer's
   * bytes alone, success with the next `len` of them or `UnexpectedEof` after
   * reading all of them.
   */
  lemma ReadExactWithoutFaults(s: Inbound, len: nat)
    requires NoFaults(s.script)
    ensures var (res, after) := ReadExact(s, len);
      && (len <= |s.pending| ==> res == Success(s.pending[..len]) && after.pending == s.pending[len..])
      && (|s.pending| < len ==> res == Failure(Eof) && after.pending == [])
      && NoFaults(after.script)
  {
    var s1 := Readiness(s).1;
    assert NoFaults(s1.script);
    FillWithoutFaults(s1, [], len);
    ReadExactSuccess(s, len);
    ReadExactFailure(s, len);
  }

  /** Two sources with the same bytes and no failures, chunked in any two ways, give the same result. */
  lemma ReadExactChunkIndependent(s: Inbound, t: Inbound, len: nat)
    requires s.pending == t.pending && NoFaults(s.script) && NoFaults(t.script)
    ensures ReadExact(s, len).0 == ReadExact(t, len).0
    ensures ReadExact(s, len).1.pending == ReadExact(t, len).1.pending
  {
    ReadExactWithoutFaults(s, len);
    ReadExactWithoutFaults(t, len);
  }

  /** Reading zero bytes performs no read: it gives the empty buffer unless the readiness poll fails. */
  lemma ReadExactEmpty(s: Inbound)
    ensures var (res, after) := ReadExact(s, 0);
      && after == Inbound(s.pending, Rest(s.script))
      && (res.Success? <==> !(s.script != [] && s.script[0].Error?))
      && (res.Success? ==> res.value == [])
  {
  }

  /** The read half of the stream as the reader owns it. */
  class ReadHalf {
    var pending: seq<uint8>
    var script: seq<ReadEvent>

    constructor (pending: seq<uint8>, script: seq<ReadEvent>)
      ensures this.pending == pending && this.script == script
    {
      this.pending := pending;
      this.script := script;
    }

    function State(): Inbound
      reads this
    {
      Inbound(pending, script)
    }

    method Readable() returns (r: Outcome<IoError>)
      modifies this
      ensures r == Readiness(Inbound(old(pending), old(script))).0
      ensures Inbound(pending, script) == Readiness(Inbound(old(pending), old(script))).1
    {
      var next := Readiness(State());
      r := next.0;
      pending, script := next.1.pending, next.1.script;
    }

    /** `read` into `buf[from..]`: the bytes read land at `from`, after the untouched `buf[..from]`. */
    method Read(buf: array<uint8>, from: nat) returns (r: Result<nat, IoError>)
      requires from <= buf.Length
      modifies this, buf
      ensures Inbound(pending, script) == ReadChunk(Inbound(old(pending), old(script)), buf.Length - from).1
      ensures r.Failure? ==> ReadChunk(Inbound(old(pending), old(script)), buf.Length - from).0 == Failure(r.error) && buf[..] == old(buf[..])
      ensures r.Success? ==>
        && r.value == ChunkLen(Inbound(old(pending), old(script)), buf.Length - from)
        && ReadChunk(Inbound(old(pending), old(script)), buf.Length - from).0 == Success(old(pending)[..r.value])
        && buf[..from + r.value] == old(buf[..from]) + old(pending)[..r.value]
    {
      var (res, next) := ReadChunk(State(), buf.Length - from);
      pending, script := next.pending, next.script;
      match res
      case Failure(e) =>
        r := Failure(e);
      case Success(chunk) =>
        forall i | from <= i < from + |chunk| {
          buf[i] := chunk[i - from];
        }
        r := Success(|chunk|);
    }
  }

  /** One iteration of the loop of `read_n_bytes` that read some bytes, read off the definition of Fill. */
  lemma FillStep(s: Inbound, got: seq<uint8>, need: nat, chunk: seq<uint8>)
    requires need > 0 && chunk != [] && ReadChunk(s, need).0 == Success(chunk)
    ensures |chunk| <= need && Fill(s, got, need) == Fill(ReadChunk(s, need).1, got + chunk, need - |chunk|)
  {
  }

  /** `read_n_bytes`: reads exactly `len` bytes into a fresh buffer. */
  method ReadNBytes(stream: ReadHalf, len: nat) returns (r: Result<seq<uint8>, IoError>)
    modifies stream
    ensures r == ReadExact(Inbound(old(stream.pending), old(stream.script)), len).0
    ensures Inbound(stream.pending, stream.script) == ReadExact(Inbound(old(stream.pending), old(stream.script)), len).1
  {
    ghost var goal := ReadExact(Inbound(stream.pending, stream.script), len);
    var buf := new uint8[len];
    var cLen := 0;
    var ready := stream.Readable();
    if ready.Fail? {
      return Failure(ready.error);
    }
    ghost var got: seq<uint8> := [];
    ghost var cur := Inbound(stream.pending, stream.script);
    ghost var need: nat := len;
    while cLen < len
      invariant cLen == |got| <= len && need == len - cLen
      invariant buf[..cLen] == got
      invariant cur == Inbound(stream.pending, stream.script)
      invariant goal == Fill(cur, got, need)
      decreases len - cLen
    {
      var n := stream.Read(buf, cLen);
      ghost var rc := ReadChunk(cur, need);
      match n
      case Failure(e) =>
        return Failure(e);
      case Success(k) =>
        if k == 0 {
          return Failure(Eof);
        }
        ghost var chunk := cur.pending[..k];
        FillStep(cur, got, need, chunk);
        got, cur, need := got + chunk, rc.1, need - |chunk|;
        cLen := cLen + k;
    }
    assert buf[..] == buf[..cLen];
    return Success(buf[..]);
  }
}
