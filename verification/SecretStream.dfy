/**
 Chunked stream transport over sealed frames: what Write puts in comes out of Read, byte for byte, for all
 write sizes and read buffer sizes.
 */
module SecretStream {
  import opened Bytes
  import opened BigEndian
  import opened SecretNonces

  const DATA_LEN_SIZE: nat := 2
  const DATA_MAX_SIZE: nat := 1024
  const TOTAL_FRAME_SIZE: nat := 1026
  const OVERHEAD: nat := 16
  const SEALED_FRAME_SIZE: nat := 1042

  /** secretbox under the shared key: opening undoes sealing under the same nonce, and sealing adds a
      fixed overhead. */
  datatype SecretBox = SecretBox(seal: (ByteString, ByteString) -> ByteString,
                                 open: (ByteString, ByteString) -> Option<ByteString>)

  ghost predicate ValidBox(box: SecretBox) {
    && (forall m, n :: box.open(box.seal(m, n), n) == Some(m))
    && (forall m, n :: |box.seal(m, n)| == |m| + OVERHEAD)
  }

  /** The frame Write builds: big-endian length, the chunk, zero padding. */
  function Frame(chunk: ByteString): (f: ByteString)
    requires |chunk| <= DATA_MAX_SIZE
    ensures |f| == TOTAL_FRAME_SIZE
  {
    [|chunk| / 256, |chunk| % 256] + chunk + seq(DATA_MAX_SIZE - |chunk|, _ => 0)
  }

  /** A frame is 1026 bytes: two that hold the length, big end first, then the chunk, then zeros. */
  lemma FrameLayout(chunk: ByteString)
    requires |chunk| <= 1024
    ensures var f, n := Frame(chunk), |chunk|;
            && |f| == 1026 && Value(f[..2]) == n && f[2..2 + n] == chunk
            && forall i :: 2 + n <= i < 1026 ==> f[i] == 0
  {
    var f := Frame(chunk);
    assert f[..2] == [|chunk| / 256, |chunk| % 256];
    assert f[..2][..1] == [|chunk| / 256] && [|chunk| / 256][..0] == [];
    assert Value([|chunk| / 256]) == |chunk| / 256;
  }

  /** What Read makes of an opened frame: the chunk, unless its length is out of range. */
  function Unframe(f: ByteString): Option<ByteString>
    requires |f| == TOTAL_FRAME_SIZE
  {
    var hi: int, lo: int := f[0], f[1];
    var n := hi * 256 + lo;
    if n > DATA_MAX_SIZE then None else Some(f[DATA_LEN_SIZE..DATA_LEN_SIZE + n])
  }

  lemma UnframeFrame(chunk: ByteString)
    requires |chunk| <= DATA_MAX_SIZE
    ensures Unframe(Frame(chunk)) == Some(chunk)
  {
    var f := Frame(chunk);
    assert f[0] == |chunk| / 256 && f[1] == |chunk| % 256;
    assert f[DATA_LEN_SIZE..DATA_LEN_SIZE + |chunk|] == chunk;
  }

  /** The pieces into which Write cuts its data. */
  function Chunks(data: ByteString): (cs: seq<ByteString>)
    ensures forall i :: 0 <= i < |cs| ==> 0 < |cs[i]| <= DATA_MAX_SIZE
  {
    if data == [] then []
    else if DATA_MAX_SIZE < |data| then [data[..DATA_MAX_SIZE]] + Chunks(data[DATA_MAX_SIZE..])
    else [data]
  }

  /** Every piece but the last is full. */
  lemma {:induction false} ChunksFull(data: ByteString, i: nat)
    requires i < |Chunks(data)|
    ensures i < |Chunks(data)| - 1 ==> |Chunks(data)[i]| == 1024
  {
    if DATA_MAX_SIZE < |data| && i > 0 {
      ChunksFull(data[DATA_MAX_SIZE..], i - 1);
    }
  }

  function Concat(cs: seq<ByteString>): ByteString {
    if cs == [] then [] else cs[0] + Concat(cs[1..])
  }

  lemma {:induction false} ConcatChunks(data: ByteString)
    ensures Concat(Chunks(data)) == data
  {
    if DATA_MAX_SIZE < |data| {
      ConcatChunks(data[DATA_MAX_SIZE..]);
      assert Chunks(data)[1..] == Chunks(data[DATA_MAX_SIZE..]);
    } else if data != [] {
      assert Chunks(data)[1..] == [];
    }
  }

  lemma {:induction false} ConcatAppend(a: seq<ByteString>, b: seq<ByteString>)
    ensures Concat(a + b) == Concat(a) + Concat(b)
  {
    if a == [] {
      assert a + b == b;
    } else {
      assert (a + b)[1..] == a[1..] + b;
      ConcatAppend(a[1..], b);
    }
  }

  ghost predicate Sendable(cs: seq<ByteString>) {
    forall i :: 0 <= i < |cs| ==> |cs[i]| <= DATA_MAX_SIZE
  }

  /** The bytes on the connection for these chunks, sealed under consecutive nonces. */
  ghost function SealAll(box: SecretBox, nonce: ByteString, cs: seq<ByteString>): ByteString
    requires Sendable(cs)
    decreases |cs|
  {
    if cs == [] then [] else box.seal(Frame(cs[0]), nonce) + SealAll(box, Incr2(nonce), cs[1..])
  }

  lemma {:induction false} SealSnoc(box: SecretBox, nonce: ByteString, cs: seq<ByteString>, c: ByteString)
    requires Sendable(cs) && |c| <= DATA_MAX_SIZE
    ensures Sendable(cs + [c])
    ensures SealAll(box, nonce, cs + [c]) == SealAll(box, nonce, cs) + box.seal(Frame(c), NonceAfter(nonce, |cs|))
    decreases |cs|
  {
    var all := cs + [c];
    if cs == [] {
      assert all == [c] && [c][1..] == [];
      assert SealAll(box, Incr2(nonce), []) == [];
    } else {
      var first := box.seal(Frame(cs[0]), nonce);
      var last := box.seal(Frame(c), NonceAfter(nonce, |cs|));
      var middle := SealAll(box, Incr2(nonce), cs[1..]);
      assert all[1..] == cs[1..] + [c] && all[0] == cs[0];
      SealSnoc(box, Incr2(nonce), cs[1..], c);
      NonceAfterFirst(nonce, |cs| - 1);
      assert SealAll(box, Incr2(nonce), all[1..]) == middle + last;
      assert first + (middle + last) == (first + middle) + last;
    }
  }

  lemma {:induction false} ConcatSnoc(cs: seq<ByteString>, c: ByteString)
    ensures Concat(cs + [c]) == Concat(cs) + c
  {
    ConcatAppend(cs, [c]);
    assert Concat([c]) == c + Concat([c][1..]) == c;
  }

  lemma {:induction false} SealAllAppend(box: SecretBox, nonce: ByteString, a: seq<ByteString>, b: seq<ByteString>)
    requires Sendable(a) && Sendable(b)
    ensures Sendable(a + b)
    ensures SealAll(box, nonce, a + b) == SealAll(box, nonce, a) + SealAll(box, NonceAfter(nonce, |a|), b)
    decreases |a|
  {
    if a == [] {
      assert a + b == b;
    } else {
      assert (a + b)[1..] == a[1..] + b && (a + b)[0] == a[0];
      SealAllAppend(box, Incr2(nonce), a[1..], b);
      NonceAfterFirst(nonce, |a| - 1);
      Assoc(box.seal(Frame(a[0]), nonce), SealAll(box, Incr2(nonce), a[1..]), SealAll(box, NonceAfter(nonce, |a|), b));
    }
  }

  /** The head of the connection's bytes is the first frame, and opens to the first chunk. */
  lemma {:induction false} HeadFrame(box: SecretBox, nonce: ByteString, cs: seq<ByteString>)
    requires ValidBox(box) && Sendable(cs) && cs != []
    ensures var bytes := SealAll(box, nonce, cs);
            && |bytes| >= SEALED_FRAME_SIZE
            && box.open(bytes[..SEALED_FRAME_SIZE], nonce) == Some(Frame(cs[0]))
            && Unframe(Frame(cs[0])) == Some(cs[0])
            && bytes[SEALED_FRAME_SIZE..] == SealAll(box, Incr2(nonce), cs[1..])
  {
    UnframeFrame(cs[0]);
    var head := box.seal(Frame(cs[0]), nonce);
    assert |head| == SEALED_FRAME_SIZE;
    assert SealAll(box, nonce, cs)[..SEALED_FRAME_SIZE] == head;
  }

  /** The first k chunks are a prefix of the data. */
  lemma {:induction false} SentIsPrefix(data: ByteString, k: nat)
    requires k <= |Chunks(data)|
    ensures var n := |Concat(Chunks(data)[..k])|; n <= |data| && Concat(Chunks(data)[..k]) == data[..n]
  {
    var cs := Chunks(data);
    var sent, rest := Concat(cs[..k]), Concat(cs[k..]);
    ConcatChunks(data);
    ConcatAppend(cs[..k], cs[k..]);
    assert cs == cs[..k] + cs[k..];
    assert data == sent + rest;
    assert (sent + rest)[..|sent|] == sent;
  }

  /** Write has handed over the chunks `done` and still has `rest`: what it has counted, what the connection holds and
      where the nonce is. */
  ghost predicate Underway(box: SecretBox, start: ByteString, before: ByteString, data: ByteString,
                           done: seq<ByteString>, rest: ByteString, n: nat, bytes: ByteString, nonce: ByteString)
  {
    && Chunks(data) == done + Chunks(rest) && Sendable(done) && n == |Concat(done)|
    && bytes == before + SealAll(box, start, done)
    && nonce == NonceAfter(start, |done|)
  }

  function HeadChunk(rest: ByteString): (chunk: ByteString)
    ensures |chunk| <= DATA_MAX_SIZE
  {
    if DATA_MAX_SIZE < |rest| then rest[..DATA_MAX_SIZE] else rest
  }

  lemma UnderwayStarts(box: SecretBox, start: ByteString, before: ByteString, data: ByteString)
    ensures Underway(box, start, before, data, [], data, 0, before, start)
  {
    assert [] + Chunks(data) == Chunks(data) && before + [] == before;
  }

  lemma {:induction false} UnderwayStep(box: SecretBox, start: ByteString, before: ByteString, data: ByteString,
                                        done: seq<ByteString>, rest: ByteString, n: nat, bytes: ByteString,
                                        nonce: ByteString)
    requires Underway(box, start, before, data, done, rest, n, bytes, nonce) && rest != []
    ensures var chunk := HeadChunk(rest);
            && Chunks(rest) == [chunk] + Chunks(rest[|chunk|..])
            && Underway(box, start, before, data, done + [chunk], rest[|chunk|..], n + |chunk|,
                        bytes + box.seal(Frame(chunk), nonce), Incr2(nonce))
  {
    var chunk := HeadChunk(rest);
    var tail := rest[|chunk|..];
    assert |rest| <= DATA_MAX_SIZE ==> tail == [] && Chunks(tail) == [] && [chunk] + [] == [chunk];
    assert Chunks(rest) == [chunk] + Chunks(tail);
    Assoc(done, [chunk], Chunks(tail));
    SealSnoc(box, start, done, chunk);
    ConcatSnoc(done, chunk);
    Assoc(before, SealAll(box, start, done), box.seal(Frame(chunk), nonce));
  }

  /** One direction of the underlying connection. */
  class Pipe {
    var bytes: ByteString

    constructor ()
      ensures bytes == []
    {
      bytes := [];
    }
  }

  /** `n` is the count that Read reports, `copied` what it put into the caller's buffer. */
  datatype ReadResult = ReadOk(n: nat, copied: ByteString) | ReadErr

  /** The result of a Read and the state it leaves. */
  datatype Outcome = Outcome(r: ReadResult, buffer: ByteString, bytes: ByteString, nonce: ByteString)

  /** Read as a function. The buffered branch reports 0 bytes whatever it copied. A connection without a whole
      frame is an error (the end of the stream). */
  function ReadStep(box: SecretBox, buffer: ByteString, bytes: ByteString, nonce: ByteString, size: nat): Outcome {
    if 0 < |buffer| then
      var n := Min(size, |buffer|);
      Outcome(ReadOk(0, buffer[..n]), buffer[n..], bytes, nonce)
    else if |bytes| < SEALED_FRAME_SIZE then Outcome(ReadErr, buffer, bytes, nonce)
    else
      var plain := box.open(bytes[..SEALED_FRAME_SIZE], nonce);
      var rest := bytes[SEALED_FRAME_SIZE..];
      if plain.None? || |plain.value| != TOTAL_FRAME_SIZE then Outcome(ReadErr, buffer, rest, nonce)
      else
        match Unframe(plain.value)
        case None => Outcome(ReadErr, buffer, rest, Incr2(nonce))
        case Some(chunk) =>
          var n := Min(size, |chunk|);
          Outcome(ReadOk(n, chunk[..n]), chunk[n..], rest, Incr2(nonce))
  }

  /** With nothing buffered, a read takes one sealed frame or, short of that, nothing. A frame that does not open leaves
      the nonce where it is; one that opens moves it on by two, also when its length field is over 1024 and the read
      fails. */
  lemma {:induction false} RefusedFrames(box: SecretBox, bytes: ByteString, nonce: ByteString, size: nat)
    requires ValidBox(box)
    ensures |bytes| < 1042 ==> ReadStep(box, [], bytes, nonce, size) == Outcome(ReadErr, [], bytes, nonce)
    ensures |bytes| >= 1042 && box.open(bytes[..1042], nonce) == None ==>
              ReadStep(box, [], bytes, nonce, size) == Outcome(ReadErr, [], bytes[1042..], nonce)
    ensures |bytes| >= 1042 && box.open(bytes[..1042], nonce).Some? ==>
              var f := box.open(bytes[..1042], nonce).value;
              |f| == 1026 ==>
                var o := ReadStep(box, [], bytes, nonce, size);
                && o.bytes == bytes[1042..] && o.nonce == Incr(Incr(nonce))
                && (o.r == ReadErr <==> Value(f[..2]) > 1024)
  {
    if |bytes| >= 1042 && box.open(bytes[..1042], nonce).Some? {
      var f := box.open(bytes[..1042], nonce).value;
      if |f| == 1026 {
        LengthField(f);
      }
    }
  }

  lemma LengthField(f: ByteString)
    requires |f| >= 2
    ensures var hi: int, lo: int := f[0], f[1]; Value(f[..2]) == hi * 256 + lo
  {
    assert f[..2][..1] == [f[0]] && [f[0]][..0] == [];
    assert Value([f[0]]) == f[0];
  }

  class SecretConnection {
    var recvBuffer: ByteString
    const recvNonce: array<Byte>
    const sendNonce: array<Byte>

    constructor (nonces: Nonces)
      ensures recvBuffer == [] && fresh(recvNonce) && fresh(sendNonce) && Valid()
      ensures recvNonce[..] == nonces.recv && sendNonce[..] == nonces.send
    {
      recvBuffer := [];
      recvNonce := new Byte[NONCE_SIZE](i requires 0 <= i < NONCE_SIZE => nonces.recv[i]);
      sendNonce := new Byte[NONCE_SIZE](i requires 0 <= i < NONCE_SIZE => nonces.send[i]);
      new;
      assert recvNonce[..] == nonces.recv && sendNonce[..] == nonces.send;
    }

    ghost predicate Valid() {
      recvNonce.Length == NONCE_SIZE && sendNonce.Length == NONCE_SIZE && recvNonce != sendNonce
    }

    /** One round of Write: frame, seal, move the nonce on, and hand the frame to the connection if it takes it. */
    method WriteChunk(box: SecretBox, pipe: Pipe, chunk: ByteString, taken: bool)
      requires Valid() && |chunk| <= DATA_MAX_SIZE
      modifies pipe, sendNonce
      ensures sendNonce[..] == Incr2(old(sendNonce[..]))
      ensures pipe.bytes == old(pipe.bytes) + if taken then box.seal(Frame(chunk), old(sendNonce[..])) else []
    {
      var sealedFrame := box.seal(Frame(chunk), sendNonce[..]);
      Incr2Nonce(sendNonce);
      if taken {
        pipe.bytes := pipe.bytes + sealedFrame;
      }
    }

    /** Write. The connection takes `budget` frames and then fails. The nonce moves on before a failing write. */
    method Write(box: SecretBox, pipe: Pipe, data: ByteString, budget: nat) returns (n: nat, ok: bool)
      requires Valid()
      modifies pipe, sendNonce
      ensures ok <==> |Chunks(data)| <= budget
      ensures ok ==> n == |data|
      ensures var sent := Chunks(data)[..if ok then |Chunks(data)| else budget];
              && n == |Concat(sent)|
              && pipe.bytes == old(pipe.bytes) + SealAll(box, old(sendNonce[..]), sent)
              && sendNonce[..] == NonceAfter(old(sendNonce[..]), if ok then |sent| else |sent| + 1)
    {
      var rest, left := data, budget;
      n := 0;
      ghost var start, before, all := sendNonce[..], pipe.bytes, Chunks(data);
      ghost var done: seq<ByteString> := [];
      UnderwayStarts(box, start, before, data);
      while 0 < |rest|
        invariant Underway(box, start, before, data, done, rest, n, pipe.bytes, sendNonce[..])
        invariant left == budget - |done|
        decreases |rest|
      {
        UnderwayStep(box, start, before, data, done, rest, n, pipe.bytes, sendNonce[..]);
        var chunk := HeadChunk(rest);
        rest := rest[|chunk|..];
        WriteChunk(box, pipe, chunk, left > 0);
        if left == 0 {
          assert all[..budget] == done && pipe.bytes + [] == pipe.bytes;
          return n, false;
        }
        left, n, done := left - 1, n + |chunk|, done + [chunk];
      }
      assert all == done + [] == done && all[..|done|] == done;
      ConcatChunks(data);
      return n, true;
    }

    /** Read into a buffer of `size` bytes. */
    method Read(box: SecretBox, pipe: Pipe, size: nat) returns (r: ReadResult)
      requires Valid()
      modifies this`recvBuffer, pipe, recvNonce
      ensures Outcome(r, recvBuffer, pipe.bytes, recvNonce[..])
           == ReadStep(box, old(recvBuffer), old(pipe.bytes), old(recvNonce[..]), size)
    {
      if 0 < |recvBuffer| {
        var n_ := Min(size, |recvBuffer|);
        r := ReadOk(0, recvBuffer[..n_]);
        recvBuffer := recvBuffer[n_..];
        return;
      }
      if |pipe.bytes| < SEALED_FRAME_SIZE {
        return ReadErr;
      }
      var sealedFrame := pipe.bytes[..SEALED_FRAME_SIZE];
      pipe.bytes := pipe.bytes[SEALED_FRAME_SIZE..];
      var plain := box.open(sealedFrame, recvNonce[..]);
      if plain.None? || |plain.value| != TOTAL_FRAME_SIZE {
        return ReadErr;
      }
      Incr2Nonce(recvNonce);
      var chunk := Unframe(plain.value);
      if chunk.None? {
        return ReadErr;
      }
      var n := Min(size, |chunk.value|);
      r := ReadOk(n, chunk.value[..n]);
      recvBuffer := chunk.value[n..];
    }
  }

  function Min(x: nat, y: nat): nat {
    if x < y then x else y
  }

  /** The connection holds exactly the frames of `transit`, for a receiver at this nonce. */
  ghost predicate Carries(box: SecretBox, recv: ByteString, bytes: ByteString, transit: seq<ByteString>) {
    Sendable(transit) && bytes == SealAll(box, recv, transit)
  }

  lemma {:induction false} CarriesMore(box: SecretBox, recv: ByteString, send: ByteString, bytes: ByteString,
                                       transit: seq<ByteString>, sent: seq<ByteString>)
    requires Carries(box, recv, bytes, transit) && send == NonceAfter(recv, |transit|) && Sendable(sent)
    ensures Carries(box, recv, bytes + SealAll(box, send, sent), transit + sent)
    ensures NonceAfter(send, |sent|) == NonceAfter(recv, |transit + sent|)
  {
    SealAllAppend(box, recv, transit, sent);
    NonceAfterAdd(recv, |transit|, |sent|);
  }

  /** Bytes written are bytes copied out, bytes buffered and payloads in transit, in that order. */
  ghost predicate Balanced(written: ByteString, copied: ByteString, buffer: ByteString, transit: seq<ByteString>) {
    written == copied + buffer + Concat(transit)
  }

  lemma {:induction false} BalancedMore(written: ByteString, copied: ByteString, buffer: ByteString,
                                        transit: seq<ByteString>, sent: seq<ByteString>)
    requires Balanced(written, copied, buffer, transit)
    ensures Balanced(written + Concat(sent), copied, buffer, transit + sent)
  {
    ConcatAppend(transit, sent);
    Assoc(copied + buffer, Concat(transit), Concat(sent));
  }

  lemma BalancedBuffered(written: ByteString, copied: ByteString, out: ByteString, left: ByteString,
                         transit: seq<ByteString>)
    requires Balanced(written, copied, out + left, transit)
    ensures Balanced(written, copied + out, left, transit)
  {
    Assoc(copied, out, left);
  }

  lemma BalancedFrame(written: ByteString, copied: ByteString, transit: seq<ByteString>)
    requires Balanced(written, copied, [], transit) && transit != []
    ensures Balanced(written, copied, transit[0], transit[1..])
  {
    assert copied + [] == copied;
    Assoc(copied, transit[0], Concat(transit[1..]));
  }

  /** What is in transit after a read: the first frame is gone if the buffer was empty. */
  function TransitAfter(buffer: ByteString, transit: seq<ByteString>): seq<ByteString> {
    if buffer == [] && transit != [] then transit[1..] else transit
  }

  /** o is a good outcome of a read: it fails only when nothing is buffered or in transit, takes the next bytes of the
      stream and nothing else, moves the nonce by the frames it takes, and reports what it copied exactly if the buffer
      was empty or there was no room. */
  ghost predicate GoodRead(box: SecretBox, buffer: ByteString, nonce: ByteString, size: nat, written: ByteString,
                           copied: ByteString, transit: seq<ByteString>, o: Outcome)
  {
    var left := TransitAfter(buffer, transit);
    && (o.r.ReadErr? <==> buffer == [] && transit == [])
    && Balanced(written, copied + (if o.r.ReadOk? then o.r.copied else []), o.buffer, left)
    && Carries(box, o.nonce, o.bytes, left)
    && NonceAfter(nonce, |transit|) == NonceAfter(o.nonce, |left|)
    && (o.r.ReadOk? ==> o.r.n <= |o.r.copied| && (o.r.n == |o.r.copied| <==> buffer == [] || size == 0))
    && (buffer == [] && size >= DATA_MAX_SIZE ==> o.buffer == [])
  }

  /** The buffered branch. */
  lemma BufferedRead(box: SecretBox, buffer: ByteString, bytes: ByteString, nonce: ByteString, size: nat,
                     written: ByteString, copied: ByteString, transit: seq<ByteString>)
    requires Balanced(written, copied, buffer, transit) && Carries(box, nonce, bytes, transit) && buffer != []
    ensures GoodRead(box, buffer, nonce, size, written, copied, transit, ReadStep(box, buffer, bytes, nonce, size))
  {
    var o := ReadStep(box, buffer, bytes, nonce, size);
    assert o.r.copied + o.buffer == buffer;
    BalancedBuffered(written, copied, o.r.copied, o.buffer, transit);
  }

  /** The branch that opens the next frame. */
  lemma FrameRead(box: SecretBox, bytes: ByteString, nonce: ByteString, size: nat, written: ByteString,
                  copied: ByteString, transit: seq<ByteString>)
    requires ValidBox(box) && Balanced(written, copied, [], transit) && Carries(box, nonce, bytes, transit)
    requires transit != []
    ensures GoodRead(box, [], nonce, size, written, copied, transit, ReadStep(box, [], bytes, nonce, size))
  {
    var o := ReadStep(box, [], bytes, nonce, size);
    HeadFrame(box, nonce, transit);
    NonceAfterFirst(nonce, |transit| - 1);
    BalancedFrame(written, copied, transit);
    assert o.r.copied + o.buffer == transit[0];
    BalancedBuffered(written, copied, o.r.copied, o.buffer, transit[1..]);
  }

  /** Every read of every size is a good one. */
  lemma ReadKeepsStream(box: SecretBox, buffer: ByteString, bytes: ByteString, nonce: ByteString, size: nat,
                        written: ByteString, copied: ByteString, transit: seq<ByteString>)
    requires ValidBox(box) && Balanced(written, copied, buffer, transit) && Carries(box, nonce, bytes, transit)
    ensures GoodRead(box, buffer, nonce, size, written, copied, transit, ReadStep(box, buffer, bytes, nonce, size))
  {
    if buffer != [] {
      BufferedRead(box, buffer, bytes, nonce, size, written, copied, transit);
    } else if transit != [] {
      FrameRead(box, bytes, nonce, size, written, copied, transit);
    } else {
      assert copied + [] == copied;
    }
  }

  /** The count that Read reports can be wrong: a frame of two bytes read one by one gives the count 1 and then,
      though a byte is copied, 0. */
  lemma {:induction false} BufferedReadReportsZero(box: SecretBox, nonce: ByteString)
    requires ValidBox(box)
    ensures var first := ReadStep(box, [], SealAll(box, nonce, [[1, 2]]), nonce, 1);
            && first.r == ReadOk(1, [1])
            && ReadStep(box, first.buffer, first.bytes, first.nonce, 1).r == ReadOk(0, [2])
  {
    HeadFrame(box, nonce, [[1, 2]]);
  }

  // ---------------------------------------------------------------- one direction of a connection

  /** The history of one direction: the bytes that Write reported as written, the bytes Read copied out, the sum of the
      counts Read reported, whether some read used a buffer smaller than a frame's payload, whether some read with room
      met a non-empty receive buffer, whether a write has failed, and the payloads in transit. */
  datatype Flow = Flow(written: ByteString, copied: ByteString, reported: nat, smallBuffer: bool, metBuffer: bool,
                       broken: bool, transit: seq<ByteString>)

  /** Bytes out, bytes buffered and bytes in transit are the bytes written, and the nonces are as far apart as there are
      frames in transit; a failed write leaves the sender's nonce one ahead. The reported counts sum to the bytes copied
      exactly if no read with room met a non-empty buffer, and none does while every buffer holds a payload. */
  ghost predicate FlowOk(box: SecretBox, f: Flow, buffer: ByteString, bytes: ByteString, recv: ByteString,
                         send: ByteString)
  {
    && Balanced(f.written, f.copied, buffer, f.transit)
    && Carries(box, recv, bytes, f.transit)
    && (!f.broken ==> send == NonceAfter(recv, |f.transit|))
    && f.reported <= |f.copied| && (f.reported == |f.copied| <==> !f.metBuffer)
    && (!f.smallBuffer ==> buffer == [] && !f.metBuffer)
  }

  function Copied(r: ReadResult): ByteString {
    if r.ReadOk? then r.copied else []
  }

  function AfterRead(f: Flow, buffer: ByteString, size: nat, r: ReadResult): Flow {
    f.(copied := f.copied + Copied(r), reported := f.reported + if r.ReadOk? then r.n else 0,
       smallBuffer := f.smallBuffer || size < DATA_MAX_SIZE,
       metBuffer := f.metBuffer || (buffer != [] && size > 0),
       transit := TransitAfter(buffer, f.transit))
  }

  function AfterWrite(f: Flow, data: ByteString, n: nat, sent: seq<ByteString>, ok: bool): Flow
    requires n <= |data|
  {
    f.(written := f.written + data[..n], transit := f.transit + sent, broken := !ok)
  }

  lemma FlowRead(box: SecretBox, f: Flow, buffer: ByteString, bytes: ByteString, recv: ByteString, send: ByteString,
                 size: nat)
    requires ValidBox(box) && FlowOk(box, f, buffer, bytes, recv, send)
    ensures var o := ReadStep(box, buffer, bytes, recv, size);
            && FlowOk(box, AfterRead(f, buffer, size, o.r), o.buffer, o.bytes, o.nonce, send)
            && (o.r.ReadErr? <==> buffer == [] && f.transit == [])
            && (o.r.ReadOk? ==> (o.r.n == |o.r.copied| <==> buffer == [] || size == 0))
  {
    ReadKeepsStream(box, buffer, bytes, recv, size, f.written, f.copied, f.transit);
    var o := ReadStep(box, buffer, bytes, recv, size);
    var g := AfterRead(f, buffer, size, o.r);
    assert |g.copied| == |f.copied| + |Copied(o.r)|;
  }

  /** What a write with room for `budget` frames hands to the connection. */
  ghost function SentChunks(data: ByteString, budget: nat): seq<ByteString> {
    if |Chunks(data)| <= budget then Chunks(data) else Chunks(data)[..budget]
  }

  lemma {:induction false} FlowWrite(box: SecretBox, f: Flow, buffer: ByteString, bytes: ByteString, recv: ByteString,
                                     send: ByteString, data: ByteString, budget: nat)
    requires FlowOk(box, f, buffer, bytes, recv, send) && !f.broken
    ensures var sent, ok := SentChunks(data, budget), |Chunks(data)| <= budget;
            var n := |Concat(sent)|;
            && n <= |data| && (ok ==> n == |data|)
            && Sendable(sent)
            && FlowOk(box, AfterWrite(f, data, n, sent, ok), buffer, bytes + SealAll(box, send, sent), recv,
                      NonceAfter(send, if ok then |sent| else |sent| + 1))
  {
    var sent := SentChunks(data, budget);
    assert Chunks(data)[..|Chunks(data)|] == Chunks(data);
    SentIsPrefix(data, |sent|);
    ConcatChunks(data);
    CarriesMore(box, recv, send, bytes, f.transit, sent);
    BalancedMore(f.written, f.copied, buffer, f.transit, sent);
  }

  /** One direction of a secured connection, from `sender` through `pipe` to `receiver`. */
  class Link {
    const box: SecretBox
    const sender: SecretConnection
    const receiver: SecretConnection
    const pipe: Pipe
    ghost var flow: Flow

    ghost predicate Valid()
      reads this, receiver, pipe, receiver.recvNonce, sender.sendNonce
    {
      && ValidBox(box) && sender.Valid() && receiver.Valid()
      && sender.sendNonce != receiver.recvNonce
      && FlowOk(box, flow, receiver.recvBuffer, pipe.bytes, receiver.recvNonce[..], sender.sendNonce[..])
    }

    /** Two fresh ends whose keys differ. */
    constructor (box: SecretBox, h: ByteString -> ByteString, a: ByteString, b: ByteString)
      requires ValidBox(box) && IsHash20(h) && |a| == |b| == 32 && a != b
      ensures Valid() && flow == Flow([], [], 0, false, false, false, [])
      ensures fresh(sender) && fresh(receiver) && fresh(pipe)
      ensures fresh(sender.sendNonce) && fresh(receiver.recvNonce)
    {
      NoncesAgreeIff(h, a, b);
      this.box := box;
      sender := new SecretConnection(SideNonces(h, a, b));
      receiver := new SecretConnection(SideNonces(h, b, a));
      pipe := new Pipe();
      flow := Flow([], [], 0, false, false, false, []);
    }

    method Write(data: ByteString, budget: nat) returns (n: nat, ok: bool)
      requires Valid() && !flow.broken
      modifies this`flow, pipe, sender.sendNonce
      ensures Valid() && n <= |data| && (ok ==> n == |data|)
      ensures ok <==> |Chunks(data)| <= budget
      ensures flow == AfterWrite(old(flow), data, n, SentChunks(data, budget), ok)
    {
      FlowWrite(box, flow, receiver.recvBuffer, pipe.bytes, receiver.recvNonce[..], sender.sendNonce[..], data, budget);
      assert Chunks(data)[..|Chunks(data)|] == Chunks(data);
      n, ok := sender.Write(box, pipe, data, budget);
      flow := AfterWrite(flow, data, n, SentChunks(data, budget), ok);
    }

    method Read(size: nat) returns (r: ReadResult)
      requires Valid()
      modifies this`flow, receiver`recvBuffer, pipe, receiver.recvNonce
      ensures Valid() && flow == AfterRead(old(flow), old(receiver.recvBuffer), size, r)
      ensures r.ReadErr? <==> old(receiver.recvBuffer) == [] && old(flow).transit == []
      ensures r.ReadOk? ==> (r.n == |r.copied| <==> old(receiver.recvBuffer) == [] || size == 0)
    {
      ghost var buffer := receiver.recvBuffer;
      FlowRead(box, flow, buffer, pipe.bytes, receiver.recvNonce[..], sender.sendNonce[..], size);
      r := receiver.Read(box, pipe, size);
      flow := AfterRead(flow, buffer, size, r);
    }
  }
}
