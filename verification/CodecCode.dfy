/** The Reader of encoding/blockchain and the writing helpers, proved against the parsers and encoders. */
module CodecCode {
  import opened Bytes
  import opened Codec

  datatype Result<+T> = Success(value: T) | Failure

  /** The call did what the parser says: same outcome, same value, same unread bytes. */
  ghost predicate Agrees<T>(p: Parsed<T>, r: Result<T>, unread: ByteString) {
    match p
    case Ok(v, rest) => r == Success(v) && unread == rest
    case Err => r.Failure?
  }

  class Reader {
    var buf: ByteString

    constructor (b: ByteString)
      ensures buf == b
    {
      buf := b;
    }

    method ReadByte() returns (r: Result<Byte>)
      modifies this
      ensures old(buf) == [] ==> r.Failure? && buf == []
      ensures old(buf) != [] ==> r == Success(old(buf)[0]) && buf == old(buf)[1..]
    {
      if |buf| == 0 {
        return Failure;
      }
      r := Success(buf[0]);
      buf := buf[1..];
    }

    /** io.ReadFull over Read: Read copies what there is and reports the end of input when nothing is left,
        which ReadFull forgives once it has its n bytes. */
    method ReadExactly(n: nat) returns (r: Result<ByteString>)
      modifies this
      ensures Agrees(ReadFull(old(buf), n), r, buf)
    {
      var k := if n < |buf| then n else |buf|;
      var got := buf[..k];
      buf := buf[k..];
      if k < n {
        return Failure;
      }
      return Success(got);
    }

    /** binary.ReadUvarint over ReadByte. */
    method Uvarint() returns (r: Result<nat>)
      modifies this
      ensures Agrees(ReadUvarint(old(buf)), r, buf)
    {
      var x: nat, i: nat, scale: nat := 0, 0, 1;
      while true
        invariant ReadUvarintFrom(buf, i, x, scale) == ReadUvarint(old(buf))
        decreases |buf|
      {
        ghost var before := buf;
        var b := ReadByte();
        if b.Failure? {
          return Failure;
        }
        var v: nat := b.value;
        assert v >= 128 ==>
            ReadUvarintFrom(before, i, x, scale) == ReadUvarintFrom(buf, i + 1, x + (v - 128) * scale, 128 * scale);
        if v < 0x80 {
          if i > 9 || (i == 9 && v > 1) {
            return Failure;
          }
          return Success(x + v * scale);
        }
        x, i, scale := x + (v - 128) * scale, i + 1, 128 * scale;
      }
    }

    method Varint31() returns (r: Result<nat>)
      modifies this
      ensures Agrees(ReadVarint31(old(buf)), r, buf)
    {
      r := Uvarint();
      if r.Success? && r.value > MAX_INT32 {
        return Failure;
      }
    }

    method Varint63() returns (r: Result<nat>)
      modifies this
      ensures Agrees(ReadVarint63(old(buf)), r, buf)
    {
      r := Uvarint();
      if r.Success? && r.value > MAX_INT64 {
        return Failure;
      }
    }

    method Varstr31() returns (r: Result<ByteString>)
      modifies this
      ensures Agrees(ReadVarstr31(old(buf)), r, buf)
    {
      var l := Varint31();
      if l.Failure? {
        return Failure;
      }
      if l.value == 0 {
        return Success([]);
      }
      if l.value > |buf| {
        return Failure;
      }
      r := Success(buf[..l.value]);
      buf := buf[l.value..];
    }

    /** ReadVarstrList. The items are read into `result` until the count runs out or one fails. */
    method VarstrList() returns (r: Result<seq<ByteString>>)
      modifies this
      ensures Agrees(ReadVarstrList(old(buf)), r, buf)
    {
      var n := Varint31();
      if n.Failure? {
        return Failure;
      }
      ghost var whole := ReadMany(ReadVarstr31, n.value, buf);
      var nelts := n.value;
      var result: seq<ByteString> := [];
      ReadingStarts(ReadVarstr31, nelts, buf);
      while nelts > 0
        invariant Reading(result, ReadVarstr31, nelts, buf, whole)
      {
        ReadingStep(result, ReadVarstr31, nelts, buf, whole);
        var s := Varstr31();
        if s.Failure? {
          return Failure;
        }
        result := result + [s.value];
        nelts := nelts - 1;
      }
      ReadingEnds(result, ReadVarstr31, buf, whole);
      return Success(result);
    }
  }

  /** A list parse with items already read put in front. */
  function Prefixed<T>(items: seq<T>, p: Parsed<seq<T>>): Parsed<seq<T>> {
    match p
    case Err => Err
    case Ok(vs, rest) => Ok(items + vs, rest)
  }

  /** With `items` read and n still to read from buf, the parse of the whole list is `whole`. */
  ghost predicate Reading<T>(items: seq<T>, p: ByteString -> Parsed<T>, n: nat, buf: ByteString,
                             whole: Parsed<seq<T>>) {
    Prefixed(items, ReadMany(p, n, buf)) == whole
  }

  lemma {:induction false} ReadingStarts<T>(p: ByteString -> Parsed<T>, n: nat, buf: ByteString)
    ensures Reading([], p, n, buf, ReadMany(p, n, buf))
  {
    var whole := ReadMany(p, n, buf);
    assert whole.Ok? ==> [] + whole.value == whole.value;
  }

  /** One turn of a counted loop: the next item moves from what is to be read to what has been read. */
  lemma ReadingStep<T>(items: seq<T>, p: ByteString -> Parsed<T>, n: nat, buf: ByteString, whole: Parsed<seq<T>>)
    requires n > 0 && Reading(items, p, n, buf, whole)
    ensures p(buf).Ok? ==> Reading(items + [p(buf).value], p, n - 1, p(buf).rest, whole)
    ensures p(buf).Err? ==> whole.Err?
  {
    if p(buf).Ok? {
      var more := ReadMany(p, n - 1, p(buf).rest);
      if more.Ok? {
        Assoc(items, [p(buf).value], more.value);
      }
    }
  }

  lemma ReadingEnds<T>(items: seq<T>, p: ByteString -> Parsed<T>, buf: ByteString, whole: Parsed<seq<T>>)
    requires Reading(items, p, 0, buf, whole)
    ensures whole == Ok(items, buf)
  {
    assert items + [] == items;
  }

  class Writer {
    var out: ByteString

    constructor ()
      ensures out == []
    {
      out := [];
    }

    /** binary.PutUvarint and the write of its result. */
    method Uvarint(x: nat)
      modifies this
      ensures out == old(out) + PutUvarint(x)
    {
      var v: nat := x;
      while v >= 128
        invariant out + PutUvarint(v) == old(out) + PutUvarint(x)
        decreases v
      {
        Assoc(out, [v % 128 + 128], PutUvarint(v / 128));
        out := out + [v % 128 + 128];
        v := v / 128;
      }
      out := out + [v];
    }

    method Varint31(val: nat) returns (ok: bool)
      modifies this
      ensures Wrote(PutVarint31(val), old(out), out, ok)
    {
      if val > MAX_INT32 {
        return false;
      }
      Uvarint(val);
      return true;
    }

    method Varint63(val: nat) returns (ok: bool)
      modifies this
      ensures ok <==> EncodeVarint63(val).Some?
      ensures out == if ok then old(out) + EncodeVarint63(val).value else old(out)
    {
      if val > MAX_INT64 {
        return false;
      }
      Uvarint(val);
      return true;
    }

    method Varstr31(s: ByteString) returns (ok: bool)
      modifies this
      ensures Wrote(PutVarstr(s), old(out), out, ok)
    {
      ok := Varint31(|s|);
      if ok {
        Assoc(old(out), PutUvarint(|s|), s);
        out := out + s;
      }
    }

    /** WriteExtensibleString. `body` is what the given function writes to the buffer. */
    method Extensible(body: Written, suffix: ByteString) returns (ok: bool)
      modifies this
      ensures Wrote(PutExtensible(body, suffix), old(out), out, ok)
    {
      var buf := body.bytes;
      if !body.ok {
        assert out + [] == out;
        return false;
      }
      if |suffix| > 0 {
        buf := buf + suffix;
      } else {
        assert buf + suffix == buf;
      }
      ok := Varstr31(buf);
    }

    /** WriteVarstrList; a string that is too long stops it after the strings before. */
    method VarstrList(l: seq<ByteString>) returns (ok: bool)
      modifies this
      ensures Wrote(PutVarstrList(l), old(out), out, ok)
    {
      ok := Varint31(|l|);
      if !ok {
        return;
      }
      ghost var start := out;
      ghost var done: ByteString := [];
      ThenUnit(PutStrings(l));
      assert l[0..] == l;
      for i := 0 to |l|
        invariant ok
        invariant out == start + done
        invariant Then(Written(done, true), PutStrings(l[i..])) == PutStrings(l)
      {
        assert l[i..][0] == l[i] && l[i..][1..] == l[i + 1..];
        ghost var next := PutVarstr(l[i]);
        ThenStep(done, next, PutStrings(l[i + 1..]));
        Assoc(start, done, next.bytes);
        ok := Varstr31(l[i]);
        done := done + next.bytes;
        if !ok {
          Assoc(old(out), PutUvarint(|l|), done);
          return;
        }
      }
      Assoc(old(out), PutUvarint(|l|), done);
    }
  }

  // ---------------------------------------------------------------- what a writing call leaves behind

  /** The bytes a call wrote, all of them or those before its error. */
  datatype Written = Written(bytes: ByteString, ok: bool)

  ghost predicate Wrote(w: Written, before: ByteString, after: ByteString, ok: bool) {
    after == before + w.bytes && ok == w.ok
  }

  /** One write after another; an error keeps the second from happening. */
  function Then(a: Written, b: Written): Written {
    if a.ok then Written(a.bytes + b.bytes, b.ok) else a
  }

  lemma ThenUnit(w: Written)
    ensures Then(Written([], true), w) == w
    ensures Then(w, Written([], true)) == w
  {
    assert [] + w.bytes == w.bytes && w.bytes + [] == w.bytes;
  }

  lemma ThenStep(done: ByteString, a: Written, b: Written)
    ensures Then(Written(done, true), Then(a, b)) == Then(Written(done + a.bytes, a.ok), b)
  {
    Assoc(done, a.bytes, b.bytes);
  }

  function PutVarint31(v: nat): Written {
    match EncodeVarint31(v)
    case Some(b) => Written(b, true)
    case None => Written([], false)
  }

  function PutVarstr(s: ByteString): Written {
    match EncodeVarstr31(s)
    case Some(b) => Written(b, true)
    case None => Written([], false)
  }

  function PutStrings(l: seq<ByteString>): Written {
    if l == [] then Written([], true) else Then(PutVarstr(l[0]), PutStrings(l[1..]))
  }

  function PutVarstrList(l: seq<ByteString>): Written {
    Then(PutVarint31(|l|), PutStrings(l))
  }

  lemma {:induction false} StringsWritten(l: seq<ByteString>)
    ensures PutStrings(l).ok <==> EncodeStrings(l).Some?
    ensures PutStrings(l).ok ==> PutStrings(l).bytes == EncodeStrings(l).value
  {
    if l != [] {
      StringsWritten(l[1..]);
    }
  }

  /** An uninterrupted list is the list's encoding. */
  lemma VarstrListWritten(l: seq<ByteString>)
    ensures PutVarstrList(l).ok <==> EncodeVarstrList(l).Some?
    ensures PutVarstrList(l).ok ==> PutVarstrList(l).bytes == EncodeVarstrList(l).value
  {
    StringsWritten(l);
  }

  function PutExtensible(body: Written, suffix: ByteString): Written {
    if body.ok then PutVarstr(body.bytes + suffix) else Written([], false)
  }

  /** An extensible string is written exactly if its body is and the whole fits 31 bits; then a reader that undoes the
      body finds it and leaves the suffix, whatever follows. */
  lemma ExtensibleReadsBack<T>(f: ByteString -> Parsed<T>, body: Written, v: T, suffix: ByteString, t: ByteString)
    requires body.ok ==> f(body.bytes + suffix) == Ok(v, suffix)
    ensures PutExtensible(body, suffix).ok <==> body.ok && |body.bytes| + |suffix| <= MAX_INT32
    ensures PutExtensible(body, suffix).ok ==>
              ReadExtensible(f, PutExtensible(body, suffix).bytes + t) == Ok((v, suffix), t)
  {
    VarstrRoundTrip(body.bytes + suffix, t);
    if PutExtensible(body, suffix).ok {
      ExtensibleRoundTrip(f, body.bytes, v, suffix, t);
    }
  }
}
