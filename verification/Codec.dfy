/**
 The wire primitives of encoding/blockchain: base-128 integers, strings, string lists and extensible
 strings. A parser is a function from the unread bytes to a value and the bytes it leaves unread.
 */
module Codec {
  import opened Bytes
  import opened Products

  const MAX_INT32: nat := 0x7fff_ffff
  const MAX_INT64: nat := 0x7fff_ffff_ffff_ffff

  datatype Parsed<+T> = Ok(value: T, rest: ByteString) | Err

  // ---------------------------------------------------------------- locality

  /** `rest` is what is left of `buf` after some prefix. */
  ghost predicate IsRest(rest: ByteString, buf: ByteString) {
    |rest| <= |buf| && buf[|buf| - |rest|..] == rest
  }

  function Consumed(buf: ByteString, rest: ByteString): ByteString
    requires |rest| <= |buf|
  {
    buf[..|buf| - |rest|]
  }

  /** A successful parse looked only at the prefix it consumed: with any other bytes after that prefix it gives
      the same value and leaves those bytes unread. */
  ghost predicate LocalOn<T>(p: ByteString -> Parsed<T>, buf: ByteString, t: ByteString) {
    p(buf).Ok? ==>
      && IsRest(p(buf).rest, buf)
      && p(Consumed(buf, p(buf).rest) + t) == Ok(p(buf).value, t)
  }

  /** Two parses in a row consume the two prefixes in a row. */
  lemma ConsumedChain(buf: ByteString, r1: ByteString, r2: ByteString, t: ByteString)
    requires IsRest(r1, buf) && IsRest(r2, r1)
    ensures IsRest(r2, buf)
    ensures Consumed(buf, r2) + t == Consumed(buf, r1) + (Consumed(r1, r2) + t)
  {
    var k := |buf| - |r1|;
    assert buf == buf[..k] + r1;
    assert Consumed(buf, r2) == buf[..k] + Consumed(r1, r2);
    assert buf[|buf| - |r2|..] == r1[|r1| - |r2|..];
  }

  // ---------------------------------------------------------------- integers

  /** binary.PutUvarint: seven bits a byte, low bits first. */
  function PutUvarint(x: nat): (r: ByteString)
    ensures r != []
  {
    if x < 128 then [x] else [x % 128 + 128] + PutUvarint(x / 128)
  }

  /** binary.ReadUvarint from its i-th byte on, with x read so far and 128^i in `scale`. Values that do not fit
      64 bits are refused, so the sum is what the source's shifts and ors give. */
  function ReadUvarintFrom(buf: ByteString, i: nat, x: nat, scale: nat): Parsed<nat>
    decreases |buf|
  {
    if buf == [] then Err
    else
      var b: nat := buf[0];
      if b < 128 then
        if i > 9 || (i == 9 && b > 1) then Err else Ok(x + b * scale, buf[1..])
      else ReadUvarintFrom(buf[1..], i + 1, x + (b - 128) * scale, 128 * scale)
  }

  function ReadUvarint(buf: ByteString): Parsed<nat> {
    ReadUvarintFrom(buf, 0, 0, 1)
  }

  /** The values that still fit when i bytes have been read: 2^64 at the start, 2 at the tenth byte. */
  function Room(i: nat): (r: nat)
    requires i <= 9
    ensures r >= 2
    decreases 9 - i
  {
    if i == 9 then 2 else 128 * Room(i + 1)
  }

  lemma RoomAtStart()
    ensures Room(0) == 0x1_0000_0000_0000_0000
  {
    assert Room(4) == 0x10_0000_0000;
  }

  lemma {:induction false} UvarintRoundTripFrom(y: nat, t: ByteString, i: nat, x: nat, scale: nat)
    requires i <= 9 && y < Room(i)
    ensures ReadUvarintFrom(PutUvarint(y) + t, i, x, scale) == Ok(x + y * scale, t)
    decreases y
  {
    var buf := PutUvarint(y) + t;
    if y < 128 {
      assert buf[1..] == t;
    } else {
      assert buf[1..] == PutUvarint(y / 128) + t;
      UvarintRoundTripFrom(y / 128, t, i + 1, x + y % 128 * scale, 128 * scale);
      Digits(x, y, scale);
    }
  }

  lemma Digits(x: nat, y: nat, scale: nat)
    ensures x + y % 128 * scale + y / 128 * (128 * scale) == x + y * scale
  {
    assert y == y / 128 * 128 + y % 128;
  }

  /** Every 64-bit value reads back, leaving what follows it. */
  lemma {:induction false} UvarintRoundTrip(y: nat, t: ByteString)
    requires y < 0x1_0000_0000_0000_0000
    ensures ReadUvarint(PutUvarint(y) + t) == Ok(y, t)
  {
    RoomAtStart();
    UvarintRoundTripFrom(y, t, 0, 0, 1);
  }

  function Pow128(k: nat): (p: nat)
    ensures p > 0
  {
    if k == 0 then 1 else 128 * Pow128(k - 1)
  }

  /** The i-th digit to the base 128, the lowest first. */
  function Digit(x: nat, i: nat): nat {
    if i == 0 then x % 128 else Digit(x / 128, i - 1)
  }

  /** Unsigned LEB128: the i-th byte holds the i-th digit, with the high bit set on all but the last, and the last digit
      is not zero unless it is the only one. */
  lemma {:induction false} UvarintDigits(x: nat, i: nat)
    requires i < |PutUvarint(x)|
    ensures var r := PutUvarint(x);
            && r[i] == Digit(x, i) + (if i == |r| - 1 then 0 else 128)
            && (i == |r| - 1 && i > 0 ==> r[i] > 0)
    decreases x
  {
    if x >= 128 && i > 0 {
      UvarintDigits(x / 128, i - 1);
    }
  }

  lemma {:induction false} UvarintLength(y: nat, k: nat)
    requires k > 0 && y < Pow128(k)
    ensures |PutUvarint(y)| <= k
    decreases k
  {
    if y >= 128 {
      UvarintLength(y / 128, k - 1);
    }
  }

  /** A value that WriteVarint63 accepts fits the pooled buffer of nine bytes. */
  lemma {:induction false} FitsNineBytes(y: nat)
    requires y <= MAX_INT64
    ensures |PutUvarint(y)| <= 9
  {
    assert Pow128(4) == 0x1000_0000;
    assert Pow128(9) == 0x8000_0000_0000_0000;
    UvarintLength(y, 9);
  }

  lemma {:induction false} UvarintLocalFrom(buf: ByteString, t: ByteString, i: nat, x: nat, scale: nat)
    requires ReadUvarintFrom(buf, i, x, scale).Ok?
    ensures var r := ReadUvarintFrom(buf, i, x, scale);
            && IsRest(r.rest, buf) && |r.rest| < |buf|
            && ReadUvarintFrom(Consumed(buf, r.rest) + t, i, x, scale) == Ok(r.value, t)
    decreases |buf|
  {
    var r := ReadUvarintFrom(buf, i, x, scale);
    var b: nat := buf[0];
    if b < 128 {
      assert (Consumed(buf, r.rest) + t)[1..] == t;
    } else {
      var x': nat, scale' := x + (b - 128) * scale, 128 * scale;
      UvarintLocalFrom(buf[1..], t, i + 1, x', scale');
      assert r == ReadUvarintFrom(buf[1..], i + 1, x', scale');
      ConsumedChain(buf, buf[1..], r.rest, t);
      var again := Consumed(buf, r.rest) + t;
      assert again[0] == buf[0] && again[1..] == Consumed(buf[1..], r.rest) + t;
      assert ReadUvarintFrom(again, i, x, scale) == ReadUvarintFrom(again[1..], i + 1, x', scale');
    }
  }

  /** What still fits, times what has been read, is always 2^64. */
  lemma {:induction false} RoomBound(buf: ByteString, i: nat, x: nat, scale: nat)
    requires i <= 9 && x < scale && ReadUvarintFrom(buf, i, x, scale).Ok?
    ensures ReadUvarintFrom(buf, i, x, scale).value < scale * Room(i)
    decreases |buf|
  {
    var b: nat := buf[0];
    if b < 128 {
      DigitFits(x, b, scale, Room(i));
    } else if i < 9 {
      DigitFits(x, b - 128, scale, 128);
      RoomBound(buf[1..], i + 1, x + (b - 128) * scale, 128 * scale);
      Regroup(scale, Room(i + 1));
    } else {
      TooLong(buf[1..], i + 1, x + (b - 128) * scale, 128 * scale);
    }
  }

  lemma DigitFits(x: nat, d: nat, scale: nat, room: nat)
    requires x < scale && d < room
    ensures x + d * scale < scale * room
  {
    MulMono(d + 1, room, scale);
  }

  lemma Regroup(a: nat, b: nat)
    ensures (128 * a) * b == a * (128 * b)
  {
  }

  lemma {:induction false} AtMostTen(buf: ByteString, i: nat, x: nat, scale: nat)
    requires i <= 9 && ReadUvarintFrom(buf, i, x, scale).Ok?
    ensures |buf| - |ReadUvarintFrom(buf, i, x, scale).rest| <= 10 - i
    decreases |buf|
  {
    if buf[0] >= 128 {
      if i < 9 {
        AtMostTen(buf[1..], i + 1, x + (buf[0] - 128) * scale, 128 * scale);
      } else {
        TooLong(buf[1..], i + 1, x + (buf[0] - 128) * scale, 128 * scale);
      }
    }
  }

  lemma {:induction false} TooLong(buf: ByteString, i: nat, x: nat, scale: nat)
    requires i > 9
    ensures ReadUvarintFrom(buf, i, x, scale).Err?
    decreases |buf|
  {
    if buf != [] && buf[0] >= 128 {
      TooLong(buf[1..], i + 1, x + (buf[0] - 128) * scale, 128 * scale);
    }
  }

  /** An integer that is read fits 64 bits and took at most ten bytes. */
  lemma UvarintBounded(buf: ByteString)
    requires ReadUvarint(buf).Ok?
    ensures ReadUvarint(buf).value < 0x1_0000_0000_0000_0000 && |buf| - |ReadUvarint(buf).rest| <= 10
  {
    RoomAtStart();
    RoomBound(buf, 0, 0, 1);
    AtMostTen(buf, 0, 0, 1);
  }

  /** ReadVarint31 and ReadVarint63. */
  function ReadVarint(buf: ByteString, max: nat): Parsed<nat> {
    match ReadUvarint(buf)
    case Err => Err
    case Ok(v, rest) => if v > max then Err else Ok(v, rest)
  }

  function ReadVarint31(buf: ByteString): Parsed<nat> { ReadVarint(buf, MAX_INT32) }
  function ReadVarint63(buf: ByteString): Parsed<nat> { ReadVarint(buf, MAX_INT64) }

  lemma VarintLocal(buf: ByteString, t: ByteString)
    ensures LocalOn(ReadVarint31, buf, t) && LocalOn(ReadVarint63, buf, t)
  {
    if ReadUvarint(buf).Ok? {
      UvarintLocalFrom(buf, t, 0, 0, 1);
    }
  }

  /** WriteVarint31 and WriteVarint63 write nothing when the value is out of range. */
  function EncodeVarint31(v: nat): Option<ByteString> { if v > MAX_INT32 then None else Some(PutUvarint(v)) }
  function EncodeVarint63(v: nat): Option<ByteString> { if v > MAX_INT64 then None else Some(PutUvarint(v)) }

  /** Reading undoes writing exactly for the values that can be written. */
  lemma VarintRoundTrip(v: nat, t: ByteString)
    ensures EncodeVarint31(v).Some? <==> v <= MAX_INT32
    ensures EncodeVarint31(v).Some? ==> ReadVarint31(EncodeVarint31(v).value + t) == Ok(v, t)
    ensures EncodeVarint63(v).Some? <==> v <= MAX_INT64
    ensures EncodeVarint63(v).Some? ==>
              ReadVarint63(EncodeVarint63(v).value + t) == Ok(v, t) && |EncodeVarint63(v).value| <= 9
  {
    if v <= MAX_INT64 {
      UvarintRoundTrip(v, t);
      FitsNineBytes(v);
    }
  }

  // ---------------------------------------------------------------- fixed sizes and strings

  /** io.ReadFull. */
  function ReadFull(buf: ByteString, n: nat): Parsed<ByteString> {
    if |buf| < n then Err else Ok(buf[..n], buf[n..])
  }

  function ReadVarstr31(buf: ByteString): Parsed<ByteString> {
    match ReadVarint31(buf)
    case Err => Err
    case Ok(l, rest) => if l > |rest| then Err else Ok(rest[..l], rest[l..])
  }

  lemma VarstrLocal(buf: ByteString, t: ByteString)
    ensures LocalOn(ReadVarstr31, buf, t)
    ensures ReadVarstr31(buf).Ok? ==> |ReadVarstr31(buf).rest| < |buf|
  {
    var r := ReadVarstr31(buf);
    if r.Ok? {
      var r1 := ReadVarint31(buf).rest;
      var l := ReadVarint31(buf).value;
      VarintLocal(buf, Consumed(r1, r.rest) + t);
      UvarintLocalFrom(buf, t, 0, 0, 1);
      ConsumedChain(buf, r1, r.rest, t);
      var more := Consumed(r1, r.rest) + t;
      assert more[..l] == r.value && more[l..] == t;
    }
  }

  function EncodeVarstr31(s: ByteString): Option<ByteString> {
    if |s| > MAX_INT32 then None else Some(PutUvarint(|s|) + s)
  }

  lemma VarstrRoundTrip(s: ByteString, t: ByteString)
    ensures EncodeVarstr31(s).Some? <==> |s| <= MAX_INT32
    ensures EncodeVarstr31(s).Some? ==> ReadVarstr31(EncodeVarstr31(s).value + t) == Ok(s, t)
  {
    if |s| <= MAX_INT32 {
      UvarintRoundTrip(|s|, s + t);
      Assoc(PutUvarint(|s|), s, t);
      assert (s + t)[..|s|] == s && (s + t)[|s|..] == t;
    }
  }

  // ---------------------------------------------------------------- lists

  /** n items one after the other. */
  function ReadMany<T>(p: ByteString -> Parsed<T>, n: nat, buf: ByteString): Parsed<seq<T>>
    decreases n
  {
    if n == 0 then Ok([], buf)
    else
      match p(buf)
      case Err => Err
      case Ok(v, rest) =>
        match ReadMany(p, n - 1, rest)
        case Err => Err
        case Ok(vs, rest') => Ok([v] + vs, rest')
  }

  ghost predicate Local<T(!new)>(p: ByteString -> Parsed<T>) {
    forall buf, t :: LocalOn(p, buf, t)
  }

  /** One parser after another. */
  function Both<A, B>(p: ByteString -> Parsed<A>, q: ByteString -> Parsed<B>, buf: ByteString): Parsed<(A, B)> {
    match p(buf)
    case Err => Err
    case Ok(a, rest) =>
      match q(rest)
      case Err => Err
      case Ok(b, rest') => Ok((a, b), rest')
  }

  lemma BothLocal<A(!new), B(!new)>(p: ByteString -> Parsed<A>, q: ByteString -> Parsed<B>, buf: ByteString,
                                    t: ByteString)
    requires Local(p) && Local(q)
    ensures LocalOn(b => Both(p, q, b), buf, t)
  {
    if Both(p, q, buf).Ok? {
      var r1 := p(buf).rest;
      var r2 := q(r1).rest;
      assert LocalOn(q, r1, t);
      assert LocalOn(p, buf, Consumed(r1, r2) + t);
      ConsumedChain(buf, r1, r2, t);
    }
  }

  /** Repetition of a local parser is local, and a successful one has exactly n items. */
  lemma {:induction false} ReadManyLocal<T(!new)>(p: ByteString -> Parsed<T>, n: nat, buf: ByteString, t: ByteString)
    requires Local(p) && ReadMany(p, n, buf).Ok?
    ensures var r := ReadMany(p, n, buf);
            && |r.value| == n && IsRest(r.rest, buf)
            && ReadMany(p, n, Consumed(buf, r.rest) + t) == Ok(r.value, t)
    decreases n
  {
    if n > 0 {
      var r := ReadMany(p, n, buf);
      var r1 := p(buf).rest;
      ReadManyLocal(p, n - 1, r1, t);
      assert LocalOn(p, buf, Consumed(r1, r.rest) + t);
      ConsumedChain(buf, r1, r.rest, t);
    }
  }

  function ReadVarstrList(buf: ByteString): Parsed<seq<ByteString>> {
    match ReadVarint31(buf)
    case Err => Err
    case Ok(n, rest) => ReadMany(ReadVarstr31, n, rest)
  }

  function EncodeStrings(l: seq<ByteString>): Option<ByteString> {
    if l == [] then Some([])
    else
      match (EncodeVarstr31(l[0]), EncodeStrings(l[1..]))
      case (Some(a), Some(b)) => Some(a + b)
      case _ => None
  }

  function EncodeVarstrList(l: seq<ByteString>): Option<ByteString> {
    match (EncodeVarint31(|l|), EncodeStrings(l))
    case (Some(a), Some(b)) => Some(a + b)
    case _ => None
  }

  lemma {:induction false} StringsRoundTrip(l: seq<ByteString>, t: ByteString)
    requires EncodeStrings(l).Some?
    ensures ReadMany(ReadVarstr31, |l|, EncodeStrings(l).value + t) == Ok(l, t)
  {
    if l != [] {
      var a, b := EncodeVarstr31(l[0]).value, EncodeStrings(l[1..]).value;
      Assoc(a, b, t);
      VarstrRoundTrip(l[0], b + t);
      StringsRoundTrip(l[1..], t);
      assert l == [l[0]] + l[1..];
    }
  }

  lemma VarstrListRoundTrip(l: seq<ByteString>, t: ByteString)
    requires EncodeVarstrList(l).Some?
    ensures ReadVarstrList(EncodeVarstrList(l).value + t) == Ok(l, t)
  {
    var a, b := EncodeVarint31(|l|).value, EncodeStrings(l).value;
    Assoc(a, b, t);
    VarintRoundTrip(|l|, b + t);
    StringsRoundTrip(l, t);
  }

  // ---------------------------------------------------------------- extensible strings

  /** ReadExtensibleString: f reads the string's content; what it leaves is the suffix. */
  function ReadExtensible<T>(f: ByteString -> Parsed<T>, buf: ByteString): Parsed<(T, ByteString)> {
    match ReadVarstr31(buf)
    case Err => Err
    case Ok(s, rest) =>
      match f(s)
      case Err => Err
      case Ok(v, suffix) => Ok((v, suffix), rest)
  }

  /** The content is delimited, so the whole is local whatever f does. */
  lemma ExtensibleLocal<T>(f: ByteString -> Parsed<T>, buf: ByteString, t: ByteString)
    ensures LocalOn(b => ReadExtensible(f, b), buf, t)
  {
    VarstrLocal(buf, t);
  }

  /** WriteExtensibleString of a body and a suffix reads back as the body's value and that suffix. */
  lemma ExtensibleRoundTrip<T>(f: ByteString -> Parsed<T>, body: ByteString, v: T, suffix: ByteString, t: ByteString)
    requires f(body + suffix) == Ok(v, suffix)
    requires EncodeVarstr31(body + suffix).Some?
    ensures ReadExtensible(f, EncodeVarstr31(body + suffix).value + t) == Ok((v, suffix), t)
  {
    VarstrRoundTrip(body + suffix, t);
  }
}
