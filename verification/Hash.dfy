/** protocol/bc: 256-bit hashes as four 64-bit words, and their 32-byte form. */
module Hash {
  import opened Bytes
  import opened BigEndian
  import opened Codec

  type Word = v: nat | v < 0x1_0000_0000_0000_0000

  datatype Hash = Hash(v0: Word, v1: Word, v2: Word, v3: Word)

  const ZeroHash := Hash(0, 0, 0, 0)

  function ReadWord(b: ByteString): Word
    requires |b| == 8
  {
    WordBound(b);
    Value(b)
  }

  lemma {:induction false} WordBound(b: ByteString)
    requires |b| == 8
    ensures Value(b) < 0x1_0000_0000_0000_0000
  {
    ValueBound(b);
    assert Pow256(8) == 0x1_0000_0000_0000_0000;
  }

  function NewHash(b: ByteString): Hash
    requires |b| == 32
  {
    Hash(ReadWord(b[0..8]), ReadWord(b[8..16]), ReadWord(b[16..24]), ReadWord(b[24..32]))
  }

  function Byte32(h: Hash): (b: ByteString)
    ensures |b| == 32
  {
    ToBytes(h.v0, 8) + ToBytes(h.v1, 8) + ToBytes(h.v2, 8) + ToBytes(h.v3, 8)
  }

  lemma {:induction false} WordRoundTrip(v: Word)
    ensures ReadWord(ToBytes(v, 8)) == v
  {
    assert Pow256(8) == 0x1_0000_0000_0000_0000;
    ValueOfBytes(v, 8);
  }

  /** The two forms are interchangeable: each conversion undoes the other. */
  lemma HashRoundTrip(h: Hash)
    ensures NewHash(Byte32(h)) == h
  {
    var b := Byte32(h);
    assert b[0..8] == ToBytes(h.v0, 8) && b[8..16] == ToBytes(h.v1, 8);
    assert b[16..24] == ToBytes(h.v2, 8) && b[24..32] == ToBytes(h.v3, 8);
    WordRoundTrip(h.v0);
    WordRoundTrip(h.v1);
    WordRoundTrip(h.v2);
    WordRoundTrip(h.v3);
  }

  /** The 32 bytes are the four words in order, each big end first. */
  lemma {:induction false} Byte32Value(h: Hash)
    ensures Value(Byte32(h)) == ((h.v0 * Pow256(8) + h.v1) * Pow256(8) + h.v2) * Pow256(8) + h.v3
  {
    var a, b, c, d := ToBytes(h.v0, 8), ToBytes(h.v1, 8), ToBytes(h.v2, 8), ToBytes(h.v3, 8);
    WordRoundTrip(h.v0);
    WordRoundTrip(h.v1);
    WordRoundTrip(h.v2);
    WordRoundTrip(h.v3);
    ValueConcat(a, b);
    ValueConcat(a + b, c);
    ValueConcat(a + b + c, d);
  }

  lemma BytesRoundTrip(b: ByteString)
    requires |b| == 32
    ensures Byte32(NewHash(b)) == b
  {
    BytesOfValue(b[0..8]);
    BytesOfValue(b[8..16]);
    BytesOfValue(b[16..24]);
    BytesOfValue(b[24..32]);
    assert b == b[0..8] + b[8..16] + b[16..24] + b[24..32];
  }

  // ---------------------------------------------------------------- digests

  type Bytes32 = b: ByteString | |b| == 32 witness ToBytes(0, 32)

  /** SHA3-256 as an unknown function. */
  type Digest = ByteString -> Bytes32

  /** Writing x to a hash state and reading a Hash from it. */
  function Sum(h: Digest, x: ByteString): Hash {
    NewHash(h(x))
  }

  ghost predicate Collision(h: Digest, x: ByteString, y: ByteString) {
    x != y && h(x) == h(y)
  }

  /** Reading the 32 bytes as a Hash loses nothing. */
  lemma SumDetermines(h: Digest, x: ByteString, y: ByteString)
    ensures Sum(h, x) == Sum(h, y) <==> h(x) == h(y)
  {
    BytesRoundTrip(h(x));
    BytesRoundTrip(h(y));
  }

  // ---------------------------------------------------------------- on the wire

  /** Hash.ReadFrom. */
  function ReadHash(buf: ByteString): Parsed<Hash> {
    match ReadFull(buf, 32)
    case Err => Err
    case Ok(b, rest) => Ok(NewHash(b), rest)
  }

  /** AssetAmount; the asset id is never nil after a read. */
  datatype AssetAmount = AssetAmount(assetId: Hash, amount: nat)

  function ReadAssetAmount(buf: ByteString): Parsed<AssetAmount> {
    match ReadHash(buf)
    case Err => Err
    case Ok(id, rest) =>
      match ReadVarint63(rest)
      case Err => Err
      case Ok(amount, rest') => Ok(AssetAmount(id, amount), rest')
  }

  function EncodeAssetAmount(a: AssetAmount): Option<ByteString> {
    match EncodeVarint63(a.amount)
    case None => None
    case Some(b) => Some(Byte32(a.assetId) + b)
  }

  /** AssetAmount.ReadFrom undoes WriteTo and leaves what follows. */
  lemma AssetAmountRoundTrip(a: AssetAmount, t: ByteString)
    ensures EncodeAssetAmount(a).Some? <==> a.amount <= MAX_INT64
    ensures EncodeAssetAmount(a).Some? ==> ReadAssetAmount(EncodeAssetAmount(a).value + t) == Ok(a, t)
  {
    if a.amount <= MAX_INT64 {
      var id, b := Byte32(a.assetId), EncodeVarint63(a.amount).value;
      Assoc(id, b, t);
      var buf := id + (b + t);
      assert buf[..32] == id && buf[32..] == b + t;
      HashRoundTrip(a.assetId);
      VarintRoundTrip(a.amount, t);
    }
  }
}
