/**
 The pre-image encoder of protocol/bc/entry.go: what writeForHash writes for a value of each shape, a decoder
 that undoes it shape by shape, and what follows for asset ids.
 */
module HashEncoding {
  import opened Bytes
  import opened BigEndian
  import opened Codec
  import opened CodecCode
  import opened Hash

  /** A Go value as writeForHash distinguishes it. Hash and AssetID are written alike, and so are pointers to
      them. A string is given by its bytes. */
  datatype HashValue =
    | AByte(b: Byte)
    | AWord(w: Word)
    | ABytes(s: ByteString)
    | AByteList(l: seq<ByteString>)
    | AString(s: ByteString)
    | AHash(h: Hash)
    | AHashPointer(hash: Option<Hash>)
    | APointer(target: Option<HashValue>)
    | AList(elems: seq<HashValue>)
    | AStruct(fields: seq<HashValue>)
    | ABadValue

  /** The types. */
  datatype Shape =
    | SByte
    | SWord
    | SBytes
    | SByteList
    | SString
    | SHash
    | SHashPointer
    | SPointer(target: Shape)
    | SList(elem: Shape)
    | SStruct(fields: seq<Shape>)

  /** v is of type s; `nils` says whether its pointers may be nil. */
  predicate OfType(v: HashValue, s: Shape, nils: bool)
    decreases s, 0
  {
    match s
    case SByte => v.AByte?
    case SWord => v.AWord?
    case SBytes => v.ABytes?
    case SByteList => v.AByteList?
    case SString => v.AString?
    case SHash => v.AHash?
    case SHashPointer => v.AHashPointer? && (v.hash.Some? || nils)
    case SPointer(e) => v.APointer? && (if v.target.Some? then OfType(v.target.value, e, nils) else nils)
    case SList(e) => v.AList? && AllOfType(v.elems, e, nils)
    case SStruct(fs) => v.AStruct? && OfTypes(v.fields, fs, nils)
  }

  predicate AllOfType(vs: seq<HashValue>, e: Shape, nils: bool)
    decreases e, |vs| + 1
  {
    vs != [] ==> OfType(vs[0], e, nils) && AllOfType(vs[1..], e, nils)
  }

  predicate OfTypes(vs: seq<HashValue>, fs: seq<Shape>, nils: bool)
    decreases fs, 0
  {
    if fs == [] then vs == [] else vs != [] && OfType(vs[0], fs[0], nils) && OfTypes(vs[1..], fs[1..], nils)
  }

  /** v is of type s without nil pointers. */
  predicate HasShape(v: HashValue, s: Shape) {
    OfType(v, s, false)
  }

  // ---------------------------------------------------------------- encoding

  /** binary.LittleEndian.PutUint64. */
  function LittleEndian(v: nat, n: nat): (r: ByteString)
    ensures |r| == n
  {
    if n == 0 then [] else [v % 256] + LittleEndian(v / 256, n - 1)
  }

  /** The bytes of the big-endian form in reverse. */
  lemma {:induction false} LittleEndianReverses(v: nat, n: nat, i: nat)
    requires i < n
    ensures LittleEndian(v, n)[i] == ToBytes(v, n)[n - 1 - i]
  {
    if i > 0 {
      LittleEndianReverses(v / 256, n - 1, i - 1);
    }
  }

  function FromLittleEndian(b: ByteString): nat {
    if b == [] then 0 else b[0] + 256 * FromLittleEndian(b[1..])
  }

  function Zeros(n: nat): (r: ByteString)
    ensures |r| == n && forall i :: 0 <= i < n ==> r[i] == 0
  {
    if n == 0 then [] else Zeros(n - 1) + [0]
  }

  /** What writeForHash writes for v, and whether it succeeds. */
  function Put(v: HashValue): Written
    decreases v
  {
    match v
    case AByte(b) => Written([b], true)
    case AWord(w) => Written(LittleEndian(w, 8), true)
    case ABytes(s) => PutVarstr(s)
    case AByteList(l) => PutVarstrList(l)
    case AString(s) => PutVarstr(s)
    case AHash(h) => Written(Byte32(h), true)
    case AHashPointer(None) => Written(Zeros(32), true)
    case AHashPointer(Some(h)) => Written(Byte32(h), true)
    case APointer(None) => Written([], true)
    case APointer(Some(e)) => Put(e)
    case AList(vs) => Then(PutVarint31(|vs|), PutAll(vs))
    case AStruct(vs) => PutAll(vs)
    case ABadValue => Written([], false)
  }

  function PutAll(vs: seq<HashValue>): Written
    decreases vs
  {
    if vs == [] then Written([], true) else Then(Put(vs[0]), PutAll(vs[1..]))
  }

  /** writeForHash. */
  method WriteForHash(w: Writer, v: HashValue) returns (ok: bool)
    modifies w
    ensures Wrote(Put(v), old(w.out), w.out, ok)
    decreases v
  {
    match v
    case AByte(b) => w.out, ok := w.out + [b], true;
    case AWord(x) => w.out, ok := w.out + LittleEndian(x, 8), true;
    case ABytes(s) => ok := w.Varstr31(s);
    case AByteList(l) => ok := w.VarstrList(l);
    case AString(s) => ok := w.Varstr31(s);
    case AHash(h) => w.out, ok := w.out + Byte32(h), true;
    case AHashPointer(None) => w.out, ok := w.out + Zeros(32), true;
    case AHashPointer(Some(h)) => w.out, ok := w.out + Byte32(h), true;
    case APointer(None) => assert w.out + [] == w.out; ok := true;
    case APointer(Some(e)) => ok := WriteForHash(w, e);
    case AList(vs) =>
      ok := w.Varint31(|vs|);
      if !ok {
        return;
      }
      Assoc(old(w.out), PutUvarint(|vs|), PutAll(vs).bytes);
      ok := WriteEach(w, vs);
    case AStruct(vs) => ok := WriteEach(w, vs);
    case ABadValue => assert w.out + [] == w.out; ok := false;
  }

  /** The loop over slice elements and the one over struct fields. */
  method WriteEach(w: Writer, vs: seq<HashValue>) returns (ok: bool)
    modifies w
    ensures Wrote(PutAll(vs), old(w.out), w.out, ok)
    decreases vs
  {
    ok := true;
    ghost var done: ByteString := [];
    ThenUnit(PutAll(vs));
    assert vs[0..] == vs && w.out + [] == w.out;
    for i := 0 to |vs|
      invariant ok
      invariant w.out == old(w.out) + done
      invariant Then(Written(done, true), PutAll(vs[i..])) == PutAll(vs)
    {
      assert vs[i..][0] == vs[i] && vs[i..][1..] == vs[i + 1..];
      ghost var next := Put(vs[i]);
      ThenStep(done, next, PutAll(vs[i + 1..]));
      Assoc(old(w.out), done, next.bytes);
      ok := WriteForHash(w, vs[i]);
      done := done + next.bytes;
      if !ok {
        return;
      }
    }
  }

  // ---------------------------------------------------------------- decoding

  function Decode(s: Shape, buf: ByteString): Parsed<HashValue>
    decreases s, 0
  {
    match s
    case SByte => if buf == [] then Err else Ok(AByte(buf[0]), buf[1..])
    case SWord =>
      (match ReadFull(buf, 8)
       case Ok(b, rest) =>
         if FromLittleEndian(b) < 0x1_0000_0000_0000_0000 then Ok(AWord(FromLittleEndian(b)), rest) else Err
       case Err => Err)
    case SBytes => (match ReadVarstr31(buf) case Ok(x, rest) => Ok(ABytes(x), rest) case Err => Err)
    case SByteList => (match ReadVarstrList(buf) case Ok(x, rest) => Ok(AByteList(x), rest) case Err => Err)
    case SString => (match ReadVarstr31(buf) case Ok(x, rest) => Ok(AString(x), rest) case Err => Err)
    case SHash => (match ReadHash(buf) case Ok(h, rest) => Ok(AHash(h), rest) case Err => Err)
    case SHashPointer => (match ReadHash(buf) case Ok(h, rest) => Ok(AHashPointer(Some(h)), rest) case Err => Err)
    case SPointer(e) => (match Decode(e, buf) case Ok(x, rest) => Ok(APointer(Some(x)), rest) case Err => Err)
    case SList(e) =>
      (match ReadVarint31(buf)
       case Ok(n, rest) => (match DecodeMany(e, n, rest) case Ok(xs, rest') => Ok(AList(xs), rest') case Err => Err)
       case Err => Err)
    case SStruct(fs) => (match DecodeFields(fs, buf) case Ok(xs, rest) => Ok(AStruct(xs), rest) case Err => Err)
  }

  function DecodeMany(e: Shape, n: nat, buf: ByteString): Parsed<seq<HashValue>>
    decreases e, n + 1
  {
    if n == 0 then Ok([], buf)
    else
      match Decode(e, buf)
      case Err => Err
      case Ok(x, rest) =>
        match DecodeMany(e, n - 1, rest)
        case Err => Err
        case Ok(xs, rest') => Ok([x] + xs, rest')
  }

  function DecodeFields(fs: seq<Shape>, buf: ByteString): Parsed<seq<HashValue>>
    decreases fs, 0
  {
    if fs == [] then Ok([], buf)
    else
      match Decode(fs[0], buf)
      case Err => Err
      case Ok(x, rest) =>
        match DecodeFields(fs[1..], rest)
        case Err => Err
        case Ok(xs, rest') => Ok([x] + xs, rest')
  }

  lemma {:induction false} LittleEndianRoundTrip(v: nat, n: nat)
    requires v < Pow256(n)
    ensures FromLittleEndian(LittleEndian(v, n)) == v
  {
    if n > 0 {
      LittleEndianRoundTrip(v / 256, n - 1);
      assert LittleEndian(v, n)[1..] == LittleEndian(v / 256, n - 1);
    }
  }

  lemma FixedRoundTrip(b: ByteString, n: nat, t: ByteString)
    requires |b| == n
    ensures ReadFull(b + t, n) == Ok(b, t)
  {
    assert (b + t)[..n] == b && (b + t)[n..] == t;
  }

  lemma {:induction false} WordDecodes(w: Word, t: ByteString)
    ensures Decode(SWord, LittleEndian(w, 8) + t) == Ok(AWord(w), t)
  {
    FixedRoundTrip(LittleEndian(w, 8), 8, t);
    assert Pow256(8) == 0x1_0000_0000_0000_0000;
    LittleEndianRoundTrip(w, 8);
  }

  lemma HashDecodes(h: Hash, t: ByteString)
    ensures ReadHash(Byte32(h) + t) == Ok(h, t)
  {
    FixedRoundTrip(Byte32(h), 32, t);
    HashRoundTrip(h);
  }

  /** Decoding undoes encoding and leaves what follows, for every value of every shape. */
  lemma {:induction false} RoundTrip(s: Shape, v: HashValue, t: ByteString)
    requires HasShape(v, s) && Put(v).ok
    ensures Decode(s, Put(v).bytes + t) == Ok(v, t)
    decreases s, 0
  {
    match s
    case SByte => assert ([v.b] + t)[1..] == t;
    case SWord => WordDecodes(v.w, t);
    case SBytes => VarstrRoundTrip(v.s, t);
    case SByteList =>
      VarstrListWritten(v.l);
      VarstrListRoundTrip(v.l, t);
    case SString => VarstrRoundTrip(v.s, t);
    case SHash => HashDecodes(v.h, t);
    case SHashPointer => HashDecodes(v.hash.value, t);
    case SPointer(e) => RoundTrip(e, v.target.value, t);
    case SList(e) =>
      var n := |v.elems|;
      Assoc(PutUvarint(n), PutAll(v.elems).bytes, t);
      VarintRoundTrip(n, PutAll(v.elems).bytes + t);
      ManyRoundTrip(e, v.elems, t);
    case SStruct(fs) => FieldsRoundTrip(fs, v.fields, t);
  }

  lemma {:induction false} ManyRoundTrip(e: Shape, vs: seq<HashValue>, t: ByteString)
    requires AllOfType(vs, e, false) && PutAll(vs).ok
    ensures DecodeMany(e, |vs|, PutAll(vs).bytes + t) == Ok(vs, t)
    decreases e, |vs| + 1
  {
    if vs != [] {
      var a, b := Put(vs[0]).bytes, PutAll(vs[1..]).bytes;
      Assoc(a, b, t);
      RoundTrip(e, vs[0], b + t);
      ManyRoundTrip(e, vs[1..], t);
      assert vs == [vs[0]] + vs[1..];
    }
  }

  lemma {:induction false} FieldsRoundTrip(fs: seq<Shape>, vs: seq<HashValue>, t: ByteString)
    requires OfTypes(vs, fs, false) && PutAll(vs).ok
    ensures DecodeFields(fs, PutAll(vs).bytes + t) == Ok(vs, t)
    decreases fs, 0
  {
    if vs != [] {
      var a, b := Put(vs[0]).bytes, PutAll(vs[1..]).bytes;
      Assoc(a, b, t);
      RoundTrip(fs[0], vs[0], b + t);
      FieldsRoundTrip(fs[1..], vs[1..], t);
      assert vs == [vs[0]] + vs[1..];
    }
  }

  /** Encodings of one shape are uniquely decodable: neither is a proper prefix of the other, and equal
      encodings come from equal values. */
  lemma {:induction false} UniquelyDecodable(s: Shape, v: HashValue, w: HashValue, x: ByteString, y: ByteString)
    requires HasShape(v, s) && HasShape(w, s) && Put(v).ok && Put(w).ok
    requires Put(v).bytes + x == Put(w).bytes + y
    ensures v == w && x == y
  {
    RoundTrip(s, v, x);
    RoundTrip(s, w, y);
  }

  // ---------------------------------------------------------------- nil pointers

  /** A pointer occurs in the type. */
  predicate HasPointer(s: Shape)
    decreases s, 0
  {
    match s
    case SHashPointer => true
    case SPointer(_) => true
    case SList(e) => HasPointer(e)
    case SStruct(fs) => SomeHasPointer(fs)
    case _ => false
  }

  predicate SomeHasPointer(fs: seq<Shape>)
    decreases fs, 0
  {
    fs != [] && (HasPointer(fs[0]) || SomeHasPointer(fs[1..]))
  }

  /** Values of a type without pointers have no nil ones. */
  lemma {:induction false} NoPointersNoNils(v: HashValue, s: Shape)
    requires OfType(v, s, true) && !HasPointer(s)
    ensures OfType(v, s, false)
    decreases s, 0
  {
    match s
    case SList(e) => NoPointersNoNilElements(v.elems, e);
    case SStruct(fs) => NoPointersNoNilFields(v.fields, fs);
    case _ =>
  }

  lemma {:induction false} NoPointersNoNilElements(vs: seq<HashValue>, e: Shape)
    requires AllOfType(vs, e, true) && !HasPointer(e)
    ensures AllOfType(vs, e, false)
    decreases e, |vs| + 1
  {
    if vs != [] {
      NoPointersNoNils(vs[0], e);
      NoPointersNoNilElements(vs[1..], e);
    }
  }

  lemma {:induction false} NoPointersNoNilFields(vs: seq<HashValue>, fs: seq<Shape>)
    requires OfTypes(vs, fs, true) && !SomeHasPointer(fs)
    ensures OfTypes(vs, fs, false)
    decreases fs, 0
  {
    if fs != [] {
      NoPointersNoNils(vs[0], fs[0]);
      NoPointersNoNilFields(vs[1..], fs[1..]);
    }
  }

  /** The zero value of a type, with pointers to zero values. */
  function Zero(s: Shape): HashValue
    decreases s, 0
  {
    match s
    case SByte => AByte(0)
    case SWord => AWord(0)
    case SBytes => ABytes([])
    case SByteList => AByteList([])
    case SString => AString([])
    case SHash => AHash(ZeroHash)
    case SHashPointer => AHashPointer(Some(ZeroHash))
    case SPointer(e) => APointer(Some(Zero(e)))
    case SList(e) => AList([])
    case SStruct(fs) => AStruct(ZeroFields(fs))
  }

  function ZeroFields(fs: seq<Shape>): seq<HashValue>
    decreases fs, 0
  {
    if fs == [] then [] else [Zero(fs[0])] + ZeroFields(fs[1..])
  }

  lemma ZerosAppend(m: nat, n: nat)
    ensures Zeros(m) + Zeros(n) == Zeros(m + n)
  {
  }

  lemma {:induction false} LittleEndianZero(n: nat)
    ensures LittleEndian(0, n) == Zeros(n)
  {
    if n > 0 {
      LittleEndianZero(n - 1);
    }
  }

  /** Zero values are written as zero bytes. */
  lemma {:induction false} ZeroIsZeros(s: Shape)
    ensures OfType(Zero(s), s, true) && Put(Zero(s)).ok && Put(Zero(s)).bytes == Zeros(|Put(Zero(s)).bytes|)
    decreases s, 0
  {
    match s
    case SByte =>
    case SWord => LittleEndianZero(8);
    case SBytes =>
    case SByteList =>
    case SString =>
    case SHash => ZeroHashBytes();
    case SHashPointer => ZeroHashBytes();
    case SPointer(e) => ZeroIsZeros(e);
    case SList(e) =>
    case SStruct(fs) => ZeroFieldsAreZeros(fs);
  }

  lemma {:induction false} ZeroFieldsAreZeros(fs: seq<Shape>)
    ensures OfTypes(ZeroFields(fs), fs, true) && PutAll(ZeroFields(fs)).ok
    ensures PutAll(ZeroFields(fs)).bytes == Zeros(|PutAll(ZeroFields(fs)).bytes|)
    decreases fs, 0
  {
    if fs != [] {
      ZeroIsZeros(fs[0]);
      ZeroFieldsAreZeros(fs[1..]);
      var vs := ZeroFields(fs);
      assert vs[0] == Zero(fs[0]) && vs[1..] == ZeroFields(fs[1..]);
    }
  }

  /** v and w are different values of type s whose encodings differ only in how many zeros end them. */
  ghost predicate Confused(s: Shape, v: HashValue, w: HashValue, m: nat, n: nat) {
    && OfType(v, s, true) && OfType(w, s, true) && v != w
    && Put(v).ok && Put(w).ok && Put(v).bytes + Zeros(m) == Put(w).bytes + Zeros(n)
  }

  ghost predicate ConfusedFields(fs: seq<Shape>, vs: seq<HashValue>, ws: seq<HashValue>, m: nat, n: nat) {
    && OfTypes(vs, fs, true) && OfTypes(ws, fs, true) && vs != ws
    && PutAll(vs).ok && PutAll(ws).ok && PutAll(vs).bytes + Zeros(m) == PutAll(ws).bytes + Zeros(n)
  }

  /** Zeros between two strings that agree up to zeros and the zeros that end them. */
  lemma {:induction false} PadLater(a: ByteString, b: ByteString, m: nat, n: nat, k: nat)
    requires a + Zeros(m) == b + Zeros(n)
    ensures (a + Zeros(k)) + Zeros(m) == (b + Zeros(k)) + Zeros(n)
  {
    Assoc(a, Zeros(k), Zeros(m));
    Assoc(b, Zeros(k), Zeros(n));
    ZerosAppend(k, m);
    ZerosAppend(m, k);
    ZerosAppend(k, n);
    ZerosAppend(n, k);
    Assoc(a, Zeros(m), Zeros(k));
    Assoc(b, Zeros(n), Zeros(k));
  }

  lemma {:induction false} PointersConfuse(s: Shape) returns (v: HashValue, w: HashValue, m: nat, n: nat)
    requires HasPointer(s)
    ensures Confused(s, v, w, m, n)
    decreases s, 0
  {
    ZeroIsZeros(s);
    match s
    case SHashPointer =>
      ZeroHashBytes();
      v, w, m, n := AHashPointer(None), AHashPointer(Some(ZeroHash)), 0, 0;
    case SPointer(e) =>
      v, w, m, n := APointer(None), Zero(s), |Put(Zero(s)).bytes|, 0;
      assert [] + Zeros(m) == Zeros(m) && Zeros(m) + [] == Zeros(m);
    case SList(e) =>
      var x, y;
      x, y, m, n := PointersConfuse(e);
      v, w := AList([x]), AList([y]);
      assert v.elems[0] == x && w.elems[0] == y;
      PutAllOne(x);
      PutAllOne(y);
      assert [x][1..] == [] && [y][1..] == [];
      Assoc(PutUvarint(1), Put(x).bytes, Zeros(m));
      Assoc(PutUvarint(1), Put(y).bytes, Zeros(n));
    case SStruct(fs) =>
      var vs, ws;
      vs, ws, m, n := FieldsConfuse(fs);
      v, w := AStruct(vs), AStruct(ws);
  }

  lemma {:induction false} FieldsConfuse(fs: seq<Shape>)
    returns (vs: seq<HashValue>, ws: seq<HashValue>, m: nat, n: nat)
    requires SomeHasPointer(fs)
    ensures ConfusedFields(fs, vs, ws, m, n)
    decreases fs, 0
  {
    if HasPointer(fs[0]) {
      var v, w;
      v, w, m, n := PointersConfuse(fs[0]);
      var tail := ZeroFields(fs[1..]);
      ZeroFieldsAreZeros(fs[1..]);
      vs, ws := [v] + tail, [w] + tail;
      assert vs[0] == v && ws[0] == w && vs[1..] == tail && ws[1..] == tail;
      PadLater(Put(v).bytes, Put(w).bytes, m, n, |PutAll(tail).bytes|);
    } else {
      var tail, tail';
      tail, tail', m, n := FieldsConfuse(fs[1..]);
      ZeroIsZeros(fs[0]);
      var z := Zero(fs[0]);
      vs, ws := [z] + tail, [z] + tail';
      assert vs[0] == z && ws[0] == z && vs[1..] == tail && ws[1..] == tail';
      Assoc(Put(z).bytes, PutAll(tail).bytes, Zeros(m));
      Assoc(Put(z).bytes, PutAll(tail').bytes, Zeros(n));
    }
  }

  lemma {:induction false} PutAllOne(v: HashValue)
    ensures PutAll([v]) == Put(v)
  {
    assert PutAll([v]) == Then(Put(v), PutAll([])) by { assert [v][1..] == []; }
    ThenUnit(Put(v));
  }

  /** Two encodings of values of type s, followed by any bytes, that agree as a whole. */
  ghost predicate Agree(s: Shape, v: HashValue, w: HashValue, x: ByteString, y: ByteString) {
    && OfType(v, s, true) && OfType(w, s, true) && Put(v).ok && Put(w).ok
    && Put(v).bytes + x == Put(w).bytes + y
  }

  /** With nil pointers allowed, the encodings of a type are uniquely decodable exactly when no pointer occurs in it. */
  lemma {:induction false} UniquelyDecodableIff(s: Shape)
    ensures (forall v: HashValue, w: HashValue, x: ByteString, y: ByteString ::
               Agree(s, v, w, x, y) ==> v == w && x == y)
            <==> !HasPointer(s)
  {
    if HasPointer(s) {
      var v, w, m, n := PointersConfuse(s);
      assert Agree(s, v, w, Zeros(m), Zeros(n));
    } else {
      forall v: HashValue, w: HashValue, x: ByteString, y: ByteString | Agree(s, v, w, x, y)
        ensures v == w && x == y
      {
        NoPointersNoNils(v, s);
        NoPointersNoNils(w, s);
        UniquelyDecodable(s, v, w, x, y);
      }
    }
  }

  lemma {:induction false} ZeroBytes(n: nat)
    ensures ToBytes(0, n) == Zeros(n)
  {
    if n > 0 {
      ZeroBytes(n - 1);
    }
  }

  lemma ZeroHashBytes()
    ensures Byte32(ZeroHash) == Zeros(32)
  {
    ZeroBytes(8);
  }
}
