/**
 Transaction deserialisation of protocol/bc/types, through nested extensible strings and counted loops, and
 its locality: a parsed transaction depends on exactly the bytes it counts in SerializedSize.
 */
module TxParser {
  import opened Bytes
  import opened Codec
  import opened Hash

  const SER_REQUIRED: Byte := 7

  const ISSUANCE: Byte := 0
  const SPEND: Byte := 1
  const COINBASE: Byte := 2

  /** How an issuance's asset id follows from its program, VM version and definition; hashing is abstract. */
  type AssetIds = (ByteString, Word, ByteString) -> Hash

  datatype SpendCommitment = SpendCommitment(
    source: Hash, amount: AssetAmount, position: nat, vmVersion: nat, program: ByteString)

  datatype OutputCommitment = OutputCommitment(amount: AssetAmount, vmVersion: nat, program: ByteString)

  const ZeroOutput := OutputCommitment(AssetAmount(ZeroHash, 0), 0, [])

  datatype TypedInput =
    | NoInput
    | Issuance(nonce: ByteString, amount: nat, definition: ByteString, vmVersion: nat, program: ByteString,
               arguments: seq<ByteString>)
    | Spend(suffix: ByteString, commitment: SpendCommitment, arguments: seq<ByteString>)
    | Coinbase(arbitrary: ByteString)

  datatype TxInput = TxInput(assetVersion: nat, input: TypedInput, commitmentSuffix: ByteString,
                             witnessSuffix: ByteString)

  datatype TxOutput = TxOutput(assetVersion: nat, commitment: OutputCommitment, commitmentSuffix: ByteString)

  datatype TxData = TxData(version: nat, serializedSize: int, timeRange: nat, inputs: seq<TxInput>,
                           outputs: seq<TxOutput>)

  // ---------------------------------------------------------------- the contents of extensible strings

  /** A VM version, which must be 1, and a program. */
  function VersionedProgram(s: ByteString): Parsed<(nat, ByteString)> {
    match ReadVarint63(s)
    case Err => Err
    case Ok(vm, s1) =>
    if vm != 1 then Err else
    match ReadVarstr31(s1)
    case Err => Err
    case Ok(program, s2) => Ok((vm, program), s2)
  }

  /** SpendCommitment.readFrom, inside its string; the asset version is always 1 there. */
  function SpendBody(s: ByteString): Parsed<SpendCommitment> {
    match ReadHash(s)
    case Err => Err
    case Ok(source, s1) =>
    match ReadAssetAmount(s1)
    case Err => Err
    case Ok(amount, s2) =>
    match ReadVarint63(s2)
    case Err => Err
    case Ok(position, s3) =>
    match VersionedProgram(s3)
    case Err => Err
    case Ok((vm, program), s4) => Ok(SpendCommitment(source, amount, position, vm, program), s4)
  }

  /** OutputCommitment.readFrom, inside its string. */
  function OutputBody(assetVersion: nat, s: ByteString): Parsed<OutputCommitment> {
    if assetVersion != 1 then Ok(ZeroOutput, s) else
    match ReadAssetAmount(s)
    case Err => Err
    case Ok(amount, s1) =>
    match VersionedProgram(s1)
    case Err => Err
    case Ok((vm, program), s2) => Ok(OutputCommitment(amount, vm, program), s2)
  }

  /** The issuance case of an input commitment; the asset id is kept to be checked in the witness. */
  function IssuanceBody(s: ByteString): Parsed<(TypedInput, Hash)> {
    match ReadVarstr31(s)
    case Err => Err
    case Ok(nonce, s1) =>
    match ReadHash(s1)
    case Err => Err
    case Ok(id, s2) =>
    match ReadVarint63(s2)
    case Err => Err
    case Ok(amount, s3) => Ok((Issuance(nonce, amount, [], 0, [], []), id), s3)
  }

  /** The input commitment, inside its string. */
  function CommitmentBody(assetVersion: nat, s: ByteString): Parsed<(TypedInput, Hash)> {
    if assetVersion != 1 then Ok((NoInput, ZeroHash), s)
    else if s == [] then Err
    else if s[0] == ISSUANCE then IssuanceBody(s[1..])
    else if s[0] == SPEND then
      match ReadExtensible(SpendBody, s[1..])
      case Err => Err
      case Ok((commitment, suffix), rest) => Ok((Spend(suffix, commitment, []), ZeroHash), rest)
    else if s[0] == COINBASE then
      match ReadVarstr31(s[1..])
      case Err => Err
      case Ok(arbitrary, rest) => Ok((Coinbase(arbitrary), ZeroHash), rest)
    else Err
  }

  /** The issuance case of a witness; the committed asset id must match the issuance parameters. */
  function IssuanceWitness(ids: AssetIds, input: TypedInput, id: Hash, s: ByteString): Parsed<TypedInput>
    requires input.Issuance?
  {
    match ReadVarstr31(s)
    case Err => Err
    case Ok(definition, s1) =>
    match ReadVarint63(s1)
    case Err => Err
    case Ok(vm, s2) =>
    match ReadVarstr31(s2)
    case Err => Err
    case Ok(program, s3) =>
    if ids(program, vm, definition) != id then Err else
    match ReadVarstrList(s3)
    case Err => Err
    case Ok(arguments, s4) =>
      Ok(Issuance(input.nonce, input.amount, definition, vm, program, arguments), s4)
  }

  /** The witness, inside its string. */
  function WitnessBody(ids: AssetIds, assetVersion: nat, input: TypedInput, id: Hash,
                       s: ByteString): Parsed<TypedInput>
  {
    if assetVersion != 1 then Ok(input, s) else
    match input
    case Issuance(_, _, _, _, _, _) => IssuanceWitness(ids, input, id, s)
    case Spend(suffix, commitment, _) =>
      (match ReadVarstrList(s)
       case Err => Err
       case Ok(arguments, rest) => Ok(Spend(suffix, commitment, arguments), rest))
    case _ => Ok(input, s)
  }

  // ---------------------------------------------------------------- inputs, outputs, transactions

  /** TxInput.readFrom. */
  function ReadInput(ids: AssetIds, buf: ByteString): Parsed<TxInput> {
    match ReadVarint63(buf)
    case Err => Err
    case Ok(version, r1) =>
    match ReadExtensible(s => CommitmentBody(version, s), r1)
    case Err => Err
    case Ok(((input, id), commitmentSuffix), r2) =>
    match ReadExtensible(s => WitnessBody(ids, version, input, id, s), r2)
    case Err => Err
    case Ok((input', witnessSuffix), r3) => Ok(TxInput(version, input', commitmentSuffix, witnessSuffix), r3)
  }

  /** TxOutput.readFrom; the output witness is read and ignored. */
  function ReadOutput(buf: ByteString): Parsed<TxOutput> {
    match ReadVarint63(buf)
    case Err => Err
    case Ok(version, r1) =>
    match ReadExtensible(s => OutputBody(version, s), r1)
    case Err => Err
    case Ok((commitment, suffix), r2) =>
    match ReadVarstr31(r2)
    case Err => Err
    case Ok(_, r3) => Ok(TxOutput(version, commitment, suffix), r3)
  }

  function InputParser(ids: AssetIds): ByteString -> Parsed<TxInput> {
    b => ReadInput(ids, b)
  }

  function OutputParser(): ByteString -> Parsed<TxOutput> {
    b => ReadOutput(b)
  }

  /** A varint31 count followed by that many items. */
  function ReadCounted<T>(p: ByteString -> Parsed<T>, buf: ByteString): Parsed<seq<T>> {
    match ReadVarint31(buf)
    case Err => Err
    case Ok(n, rest) => ReadMany(p, n, rest)
  }

  /** The fixed fields at the front: serialisation flags, version and time range. */
  function ReadHeader(buf: ByteString): Parsed<(nat, nat)> {
    if buf == [] || buf[0] != SER_REQUIRED then Err else
    match ReadVarint63(buf[1..])
    case Err => Err
    case Ok(version, r1) =>
    match ReadVarint63(r1)
    case Err => Err
    case Ok(timeRange, r2) => Ok((version, timeRange), r2)
  }

  function Counted<T>(p: ByteString -> Parsed<T>): ByteString -> Parsed<seq<T>> {
    b => ReadCounted(p, b)
  }

  /** The inputs and then the outputs. */
  function ItemsParser(ids: AssetIds): ByteString -> Parsed<(seq<TxInput>, seq<TxOutput>)> {
    b => Both(Counted(InputParser(ids)), Counted(OutputParser()), b)
  }

  /** TxData.readFrom. */
  function ReadTx(ids: AssetIds, buf: ByteString): Parsed<TxData> {
    match Both(ReadHeader, ItemsParser(ids), buf)
    case Err => Err
    case Ok(((version, timeRange), (inputs, outputs)), rest) =>
      Ok(TxData(version, |buf| - |rest|, timeRange, inputs, outputs), rest)
  }

  // ---------------------------------------------------------------- locality

  lemma InputLocal(ids: AssetIds, buf: ByteString, t: ByteString)
    ensures LocalOn(InputParser(ids), buf, t)
  {
    var p := InputParser(ids);
    if p(buf).Ok? {
      var v := ReadVarint63(buf);
      var f := s => CommitmentBody(v.value, s);
      var c := ReadExtensible(f, v.rest);
      var g := s => WitnessBody(ids, v.value, c.value.0.0, c.value.0.1, s);
      var w := ReadExtensible(g, c.rest);
      ExtensibleLocal(g, c.rest, t);
      var t2 := Consumed(c.rest, w.rest) + t;
      ExtensibleLocal(f, v.rest, t2);
      var t1 := Consumed(v.rest, c.rest) + t2;
      VarintLocal(buf, t1);
      ConsumedChain(v.rest, c.rest, w.rest, t);
      ConsumedChain(buf, v.rest, w.rest, t);
      assert ReadVarint63(Consumed(buf, w.rest) + t) == Ok(v.value, t1);
      assert ReadExtensible(f, t1) == Ok(c.value, t2);
      assert ReadExtensible(g, t2) == Ok(w.value, t);
    }
  }

  lemma OutputLocal(buf: ByteString, t: ByteString)
    ensures LocalOn(OutputParser(), buf, t)
  {
    if ReadOutput(buf).Ok? {
      var v := ReadVarint63(buf);
      var f := s => OutputBody(v.value, s);
      var c := ReadExtensible(f, v.rest);
      var w := ReadVarstr31(c.rest);
      VarstrLocal(c.rest, t);
      var t2 := Consumed(c.rest, w.rest) + t;
      ExtensibleLocal(f, v.rest, t2);
      var t1 := Consumed(v.rest, c.rest) + t2;
      VarintLocal(buf, t1);
      ConsumedChain(v.rest, c.rest, w.rest, t);
      ConsumedChain(buf, v.rest, w.rest, t);
      assert ReadVarint63(Consumed(buf, w.rest) + t) == Ok(v.value, t1);
      assert ReadExtensible(f, t1) == Ok(c.value, t2);
    }
  }

  lemma CountedLocal<T(!new)>(p: ByteString -> Parsed<T>)
    requires Local(p)
    ensures Local(Counted(p))
  {
    forall buf, t ensures LocalOn(Counted(p), buf, t) {
      if ReadCounted(p, buf).Ok? {
        var n := ReadVarint31(buf);
        var r := ReadMany(p, n.value, n.rest);
        ReadManyLocal(p, n.value, n.rest, t);
        VarintLocal(buf, Consumed(n.rest, r.rest) + t);
        ConsumedChain(buf, n.rest, r.rest, t);
      }
    }
  }

  lemma ItemsLocal(ids: AssetIds)
    ensures Local(ItemsParser(ids))
  {
    var p, q := InputParser(ids), OutputParser();
    forall buf, t ensures LocalOn(p, buf, t) {
      InputLocal(ids, buf, t);
    }
    forall buf, t ensures LocalOn(q, buf, t) {
      OutputLocal(buf, t);
    }
    CountedLocal(p);
    CountedLocal(q);
    forall buf, t ensures LocalOn(ItemsParser(ids), buf, t) {
      BothLocal(Counted(p), Counted(q), buf, t);
    }
  }

  lemma HeaderLocal(buf: ByteString, t: ByteString)
    ensures LocalOn(ReadHeader, buf, t)
  {
    var h := ReadHeader(buf);
    if h.Ok? {
      var v := ReadVarint63(buf[1..]);
      VarintLocal(v.rest, t);
      var t1 := Consumed(v.rest, h.rest) + t;
      VarintLocal(buf[1..], t1);
      ConsumedChain(buf[1..], v.rest, h.rest, t);
      ConsumedChain(buf, buf[1..], h.rest, t);
      var again := Consumed(buf, h.rest) + t;
      assert again[0] == buf[0] && again[1..] == Consumed(buf[1..], v.rest) + t1;
    }
  }

  /** Parser locality: a transaction that parses consumed some prefix; SerializedSize is that prefix's length;
      and whatever bytes follow the prefix, the result is the same and those bytes stay unread. */
  lemma TxLocal(ids: AssetIds, buf: ByteString, t: ByteString)
    requires ReadTx(ids, buf).Ok?
    ensures var r := ReadTx(ids, buf);
            && IsRest(r.rest, buf)
            && r.value.serializedSize == |Consumed(buf, r.rest)|
            && ReadTx(ids, Consumed(buf, r.rest) + t) == Ok(r.value, t)
  {
    ItemsLocal(ids);
    forall b, u ensures LocalOn(ReadHeader, b, u) {
      HeaderLocal(b, u);
    }
    BothLocal(ReadHeader, ItemsParser(ids), buf, t);
  }

  /** No serialised transaction is a proper prefix of another: two that parse completely and of which one
      extends the other are the same. */
  lemma TxPrefixFree(ids: AssetIds, a: ByteString, more: ByteString)
    requires ReadTx(ids, a).Ok? && ReadTx(ids, a).rest == []
    requires ReadTx(ids, a + more).Ok? && ReadTx(ids, a + more).rest == []
    ensures more == []
  {
    TxLocal(ids, a, more);
    assert Consumed(a, []) == a;
  }
}
