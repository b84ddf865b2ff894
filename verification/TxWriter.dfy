/**
 A reference encoder of transactions, from the wire primitives alone, and the round trip: the parser undoes it field by
 field, and the transactions that parse are exactly those it can encode.
 */
module TxWriter {
  import opened Bytes
  import opened Codec
  import opened Hash
  import opened TxParser

  // ---------------------------------------------------------------- encoding

  /** One encoding after another; none if either is none. */
  function Join(a: Option<ByteString>, b: Option<ByteString>): Option<ByteString> {
    if a.Some? && b.Some? then Some(a.value + b.value) else None
  }

  /** A string that holds a body and whatever a later version may have put behind it. */
  function EncodeExtensible(body: Option<ByteString>, suffix: ByteString): Option<ByteString> {
    if body.Some? then EncodeVarstr31(body.value + suffix) else None
  }

  function EncodeProgram(vm: nat, program: ByteString): Option<ByteString> {
    if vm != 1 then None else Join(EncodeVarint63(vm), EncodeVarstr31(program))
  }

  function EncodeSpend(c: SpendCommitment): Option<ByteString> {
    Join(Some(Byte32(c.source)),
         Join(EncodeAssetAmount(c.amount), Join(EncodeVarint63(c.position), EncodeProgram(c.vmVersion, c.program))))
  }

  /** Of asset versions other than 1 the parser knows nothing, and leaves all to the suffix. */
  function EncodeOutputCommitment(version: nat, c: OutputCommitment): Option<ByteString> {
    if version == 1 then Join(EncodeAssetAmount(c.amount), EncodeProgram(c.vmVersion, c.program))
    else if c == OutputCommitment(AssetAmount(Hash(0, 0, 0, 0), 0), 0, []) then Some([])
    else None
  }

  function EncodeIssuance(ids: AssetIds, input: TypedInput): Option<ByteString>
    requires input.Issuance?
  {
    if input.vmVersion > MAX_INT64 then None
    else
      Join(EncodeVarstr31(input.nonce),
           Join(Some(Byte32(ids(input.program, input.vmVersion, input.definition))), EncodeVarint63(input.amount)))
  }

  function EncodeCommitment(ids: AssetIds, version: nat, input: TypedInput): Option<ByteString> {
    if version != 1 then (if input.NoInput? then Some([]) else None)
    else
      match input
      case NoInput => None
      case Issuance(_, _, _, _, _, _) => Join(Some([0]), EncodeIssuance(ids, input))
      case Spend(suffix, commitment, _) => Join(Some([1]), EncodeExtensible(EncodeSpend(commitment), suffix))
      case Coinbase(arbitrary) => Join(Some([2]), EncodeVarstr31(arbitrary))
  }

  function EncodeWitness(input: TypedInput): Option<ByteString> {
    match input
    case Issuance(_, _, definition, vm, program, arguments) =>
      Join(EncodeVarstr31(definition),
           Join(EncodeVarint63(vm), Join(EncodeVarstr31(program), EncodeVarstrList(arguments))))
    case Spend(_, _, arguments) => EncodeVarstrList(arguments)
    case _ => Some([])
  }

  function EncodeInput(ids: AssetIds, i: TxInput): Option<ByteString> {
    Join(EncodeVarint63(i.assetVersion),
         Join(EncodeExtensible(EncodeCommitment(ids, i.assetVersion, i.input), i.commitmentSuffix),
              EncodeExtensible(EncodeWitness(i.input), i.witnessSuffix)))
  }

  /** The witness of an output may be any string. */
  function EncodeOutput(o: TxOutput, ignored: ByteString): Option<ByteString> {
    Join(EncodeVarint63(o.assetVersion),
         Join(EncodeExtensible(EncodeOutputCommitment(o.assetVersion, o.commitment), o.commitmentSuffix),
              EncodeVarstr31(ignored)))
  }

  function EncodeMany<T>(e: T -> Option<ByteString>, l: seq<T>): Option<ByteString> {
    if l == [] then Some([]) else Join(e(l[0]), EncodeMany(e, l[1..]))
  }

  function EncodeCounted<T>(e: T -> Option<ByteString>, l: seq<T>): Option<ByteString> {
    Join(EncodeVarint31(|l|), EncodeMany(e, l))
  }

  function InputEncoder(ids: AssetIds): TxInput -> Option<ByteString> {
    i => EncodeInput(ids, i)
  }

  function OutputEncoder(): TxOutput -> Option<ByteString> {
    o => EncodeOutput(o, [])
  }

  function EncodeItems(ids: AssetIds, inputs: seq<TxInput>, outputs: seq<TxOutput>): Option<ByteString> {
    Join(EncodeCounted(InputEncoder(ids), inputs), EncodeCounted(OutputEncoder(), outputs))
  }

  function EncodeHeader(version: nat, timeRange: nat): Option<ByteString> {
    Join(Some([7]), Join(EncodeVarint63(version), EncodeVarint63(timeRange)))
  }

  /** Flags, version, time range, counted inputs and counted outputs. */
  function EncodeTx(ids: AssetIds, tx: TxData): Option<ByteString> {
    Join(EncodeHeader(tx.version, tx.timeRange), EncodeItems(ids, tx.inputs, tx.outputs))
  }

  // ---------------------------------------------------------------- reading back

  lemma HashReadsBack(h: Hash, t: ByteString)
    ensures ReadHash(Byte32(h) + t) == Ok(h, t)
  {
    var buf := Byte32(h) + t;
    assert buf[..32] == Byte32(h) && buf[32..] == t;
    HashRoundTrip(h);
  }

  lemma ProgramReadsBack(vm: nat, program: ByteString, t: ByteString)
    requires EncodeProgram(vm, program).Some?
    ensures VersionedProgram(EncodeProgram(vm, program).value + t) == Ok((vm, program), t)
  {
    var a, b := EncodeVarint63(vm).value, EncodeVarstr31(program).value;
    Assoc(a, b, t);
    VarintRoundTrip(vm, b + t);
    VarstrRoundTrip(program, t);
  }

  lemma SpendReadsBack(c: SpendCommitment, t: ByteString)
    requires EncodeSpend(c).Some?
    ensures SpendBody(EncodeSpend(c).value + t) == Ok(c, t)
  {
    var a, b := Byte32(c.source), EncodeAssetAmount(c.amount).value;
    var p, q := EncodeVarint63(c.position).value, EncodeProgram(c.vmVersion, c.program).value;
    Assoc(a, b + (p + q), t);
    Assoc(b, p + q, t);
    Assoc(p, q, t);
    HashReadsBack(c.source, b + (p + (q + t)));
    AssetAmountRoundTrip(c.amount, p + (q + t));
    VarintRoundTrip(c.position, q + t);
    ProgramReadsBack(c.vmVersion, c.program, t);
  }

  lemma OutputBodyReadsBack(version: nat, c: OutputCommitment, t: ByteString)
    requires EncodeOutputCommitment(version, c).Some?
    ensures OutputBody(version, EncodeOutputCommitment(version, c).value + t) == Ok(c, t)
  {
    if version == 1 {
      var a, b := EncodeAssetAmount(c.amount).value, EncodeProgram(c.vmVersion, c.program).value;
      Assoc(a, b, t);
      AssetAmountRoundTrip(c.amount, b + t);
      ProgramReadsBack(c.vmVersion, c.program, t);
    } else {
      assert [] + t == t;
    }
  }

  /** The parsed commitment lacks what only the witness brings, and carries the asset id to be checked there. */
  function Committed(input: TypedInput): TypedInput {
    match input
    case Issuance(nonce, amount, _, _, _, _) => Issuance(nonce, amount, [], 0, [], [])
    case Spend(suffix, commitment, _) => Spend(suffix, commitment, [])
    case _ => input
  }

  function CommittedId(ids: AssetIds, input: TypedInput): Hash
    requires input.Issuance? ==> input.vmVersion <= MAX_INT64
  {
    if input.Issuance? then ids(input.program, input.vmVersion, input.definition) else Hash(0, 0, 0, 0)
  }

  lemma IssuanceReadsBack(ids: AssetIds, input: TypedInput, t: ByteString)
    requires input.Issuance? && EncodeIssuance(ids, input).Some?
    ensures IssuanceBody(EncodeIssuance(ids, input).value + t) == Ok((Committed(input), CommittedId(ids, input)), t)
  {
    var id := CommittedId(ids, input);
    var a, b, c := EncodeVarstr31(input.nonce).value, Byte32(id), EncodeVarint63(input.amount).value;
    Assoc(a, b + c, t);
    Assoc(b, c, t);
    VarstrRoundTrip(input.nonce, b + (c + t));
    HashReadsBack(id, c + t);
    VarintRoundTrip(input.amount, t);
  }

  lemma SpendStringReadsBack(c: SpendCommitment, suffix: ByteString, t: ByteString)
    requires EncodeExtensible(EncodeSpend(c), suffix).Some?
    ensures ReadExtensible(SpendBody, EncodeExtensible(EncodeSpend(c), suffix).value + t) == Ok((c, suffix), t)
  {
    SpendReadsBack(c, suffix);
    ExtensibleRoundTrip(SpendBody, EncodeSpend(c).value, c, suffix, t);
  }

  lemma CommitmentReadsBack(ids: AssetIds, version: nat, input: TypedInput, t: ByteString)
    requires EncodeCommitment(ids, version, input).Some?
    ensures input.Issuance? ==> input.vmVersion <= MAX_INT64
    ensures CommitmentBody(version, EncodeCommitment(ids, version, input).value + t)
         == Ok((Committed(input), CommittedId(ids, input)), t)
  {
    var s := EncodeCommitment(ids, version, input).value + t;
    if version != 1 {
      assert s == t;
    } else {
      match input
      case Issuance(_, _, _, _, _, _) =>
        assert s[1..] == EncodeIssuance(ids, input).value + t;
        IssuanceReadsBack(ids, input, t);
      case Spend(suffix, commitment, _) =>
        assert s[1..] == EncodeExtensible(EncodeSpend(commitment), suffix).value + t;
        SpendStringReadsBack(commitment, suffix, t);
      case Coinbase(arbitrary) =>
        assert s[1..] == EncodeVarstr31(arbitrary).value + t;
        VarstrRoundTrip(arbitrary, t);
    }
  }

  lemma IssuanceWitnessReadsBack(ids: AssetIds, input: TypedInput, t: ByteString)
    requires input.Issuance? && EncodeWitness(input).Some?
    ensures input.vmVersion <= MAX_INT64
    ensures IssuanceWitness(ids, Committed(input), CommittedId(ids, input), EncodeWitness(input).value + t)
         == Ok(input, t)
  {
    VarintRoundTrip(input.vmVersion, t);
    var a, b := EncodeVarstr31(input.definition).value, EncodeVarint63(input.vmVersion).value;
    var c, d := EncodeVarstr31(input.program).value, EncodeVarstrList(input.arguments).value;
    Assoc(a, b + (c + d), t);
    Assoc(b, c + d, t);
    Assoc(c, d, t);
    VarstrRoundTrip(input.definition, b + (c + (d + t)));
    VarintRoundTrip(input.vmVersion, c + (d + t));
    VarstrRoundTrip(input.program, d + t);
    VarstrListRoundTrip(input.arguments, t);
  }

  lemma WitnessReadsBack(ids: AssetIds, version: nat, input: TypedInput, t: ByteString)
    requires EncodeCommitment(ids, version, input).Some? && EncodeWitness(input).Some?
    ensures input.Issuance? ==> input.vmVersion <= MAX_INT64
    ensures WitnessBody(ids, version, Committed(input), CommittedId(ids, input), EncodeWitness(input).value + t)
         == Ok(input, t)
  {
    if input.Issuance? {
      IssuanceWitnessReadsBack(ids, input, t);
    } else if input.Spend? {
      VarstrListRoundTrip(input.arguments, t);
    } else {
      assert [] + t == t;
    }
  }

  lemma InputRoundTrip(ids: AssetIds, i: TxInput, t: ByteString)
    requires EncodeInput(ids, i).Some?
    ensures ReadInput(ids, EncodeInput(ids, i).value + t) == Ok(i, t)
  {
    var version, input := i.assetVersion, i.input;
    var body, proof := EncodeCommitment(ids, version, input).value, EncodeWitness(input).value;
    var a := EncodeVarint63(version).value;
    var b := EncodeVarstr31(body + i.commitmentSuffix).value;
    var c := EncodeVarstr31(proof + i.witnessSuffix).value;
    Assoc(a, b + c, t);
    Assoc(b, c, t);
    VarintRoundTrip(version, b + (c + t));
    CommitmentReadsBack(ids, version, input, i.commitmentSuffix);
    var mid, id := Committed(input), CommittedId(ids, input);
    ExtensibleRoundTrip(s => CommitmentBody(version, s), body, (mid, id), i.commitmentSuffix, c + t);
    WitnessReadsBack(ids, version, input, i.witnessSuffix);
    ExtensibleRoundTrip(s => WitnessBody(ids, version, mid, id, s), proof, input, i.witnessSuffix, t);
  }

  lemma OutputRoundTrip(o: TxOutput, ignored: ByteString, t: ByteString)
    requires EncodeOutput(o, ignored).Some?
    ensures ReadOutput(EncodeOutput(o, ignored).value + t) == Ok(o, t)
  {
    var version := o.assetVersion;
    var body := EncodeOutputCommitment(version, o.commitment).value;
    var a, b := EncodeVarint63(version).value, EncodeVarstr31(body + o.commitmentSuffix).value;
    var c := EncodeVarstr31(ignored).value;
    Assoc(a, b + c, t);
    Assoc(b, c, t);
    VarintRoundTrip(version, b + (c + t));
    OutputBodyReadsBack(version, o.commitment, o.commitmentSuffix);
    ExtensibleRoundTrip(s => OutputBody(version, s), body, o.commitment, o.commitmentSuffix, c + t);
    VarstrRoundTrip(ignored, t);
  }

  predicate UndoesOn<T(==)>(p: ByteString -> Parsed<T>, e: T -> Option<ByteString>, x: T, t: ByteString) {
    e(x).Some? ==> p(e(x).value + t) == Ok(x, t)
  }

  /** The parser undoes the encoder. */
  ghost predicate Undoes<T(!new)>(p: ByteString -> Parsed<T>, e: T -> Option<ByteString>) {
    forall x, t :: UndoesOn(p, e, x, t)
  }

  lemma {:induction false} ManyReadBack<T(!new)>(p: ByteString -> Parsed<T>, e: T -> Option<ByteString>, l: seq<T>,
                                                 t: ByteString)
    requires Undoes(p, e) && EncodeMany(e, l).Some?
    ensures ReadMany(p, |l|, EncodeMany(e, l).value + t) == Ok(l, t)
  {
    if l == [] {
      assert [] + t == t;
    } else {
      var a, b := e(l[0]).value, EncodeMany(e, l[1..]).value;
      Assoc(a, b, t);
      assert UndoesOn(p, e, l[0], b + t);
      ManyReadBack(p, e, l[1..], t);
      assert l == [l[0]] + l[1..];
    }
  }

  lemma CountedReadsBack<T(!new)>(p: ByteString -> Parsed<T>, e: T -> Option<ByteString>, l: seq<T>, t: ByteString)
    requires Undoes(p, e) && EncodeCounted(e, l).Some?
    ensures Counted(p)(EncodeCounted(e, l).value + t) == Ok(l, t)
  {
    var a, b := EncodeVarint31(|l|).value, EncodeMany(e, l).value;
    Assoc(a, b, t);
    VarintRoundTrip(|l|, b + t);
    ManyReadBack(p, e, l, t);
  }

  lemma BothReadBack<A, B>(p: ByteString -> Parsed<A>, q: ByteString -> Parsed<B>, a: ByteString, b: ByteString, x: A,
                           y: B, t: ByteString)
    requires p(a + (b + t)) == Ok(x, b + t) && q(b + t) == Ok(y, t)
    ensures Both(p, q, a + b + t) == Ok((x, y), t)
  {
    Assoc(a, b, t);
  }

  lemma ItemsUndo(ids: AssetIds)
    ensures Undoes(InputParser(ids), InputEncoder(ids)) && Undoes(OutputParser(), OutputEncoder())
  {
    var p, e := InputParser(ids), InputEncoder(ids);
    forall x, t ensures UndoesOn(p, e, x, t) {
      if e(x).Some? {
        InputRoundTrip(ids, x, t);
      }
    }
    var q, f := OutputParser(), OutputEncoder();
    forall x, t ensures UndoesOn(q, f, x, t) {
      if f(x).Some? {
        OutputRoundTrip(x, [], t);
      }
    }
  }

  lemma ItemsReadBack(ids: AssetIds, inputs: seq<TxInput>, outputs: seq<TxOutput>, t: ByteString)
    requires EncodeItems(ids, inputs, outputs).Some?
    ensures ItemsParser(ids)(EncodeItems(ids, inputs, outputs).value + t) == Ok((inputs, outputs), t)
  {
    ItemsUndo(ids);
    var p, e, q, f := InputParser(ids), InputEncoder(ids), OutputParser(), OutputEncoder();
    var a, b := EncodeCounted(e, inputs).value, EncodeCounted(f, outputs).value;
    CountedReadsBack(p, e, inputs, b + t);
    CountedReadsBack(q, f, outputs, t);
    BothReadBack(Counted(p), Counted(q), a, b, inputs, outputs, t);
  }

  lemma HeaderReadsBack(version: nat, timeRange: nat, t: ByteString)
    requires EncodeHeader(version, timeRange).Some?
    ensures ReadHeader(EncodeHeader(version, timeRange).value + t) == Ok((version, timeRange), t)
  {
    var a, b := EncodeVarint63(version).value, EncodeVarint63(timeRange).value;
    Assoc([7], a + b, t);
    Assoc(a, b, t);
    var buf := [7] + (a + (b + t));
    assert buf[0] == 7 && buf[1..] == a + (b + t);
    VarintRoundTrip(version, b + t);
    VarintRoundTrip(timeRange, t);
  }

  /** The bytes, with t behind them, parse to the transaction, with their number as its size. */
  predicate ReadsAs(ids: AssetIds, tx: TxData, bytes: ByteString, t: ByteString) {
    ReadTx(ids, bytes + t) == Ok(tx.(serializedSize := |bytes|), t)
  }

  /** A transaction is its header and its items. */
  lemma PartsReadAs(ids: AssetIds, tx: TxData, a: ByteString, b: ByteString, t: ByteString)
    requires ReadHeader(a + (b + t)) == Ok((tx.version, tx.timeRange), b + t)
    requires ItemsParser(ids)(b + t) == Ok((tx.inputs, tx.outputs), t)
    ensures ReadsAs(ids, tx, a + b, t)
  {
    BothReadBack(ReadHeader, ItemsParser(ids), a, b, (tx.version, tx.timeRange), (tx.inputs, tx.outputs), t);
    assert |a + b + t| - |t| == |a + b|;
  }

  /** The parser undoes the encoder: every field of every encodable transaction comes back, its size is the length of
      the encoding, and what follows stays unread. */
  lemma TxRoundTrip(ids: AssetIds, tx: TxData, t: ByteString)
    requires EncodeTx(ids, tx).Some?
    ensures ReadsAs(ids, tx, EncodeTx(ids, tx).value, t)
  {
    var a, b := EncodeHeader(tx.version, tx.timeRange).value, EncodeItems(ids, tx.inputs, tx.outputs).value;
    HeaderReadsBack(tx.version, tx.timeRange, b + t);
    ItemsReadBack(ids, tx.inputs, tx.outputs, t);
    PartsReadAs(ids, tx, a, b, t);
  }

  // ---------------------------------------------------------------- what can be parsed can be encoded

  /** `e` encodes what a parse of buf that left `rest` found, in no more bytes. */
  predicate Fits(e: Option<ByteString>, buf: ByteString, rest: ByteString) {
    e.Some? && |e.value| + |rest| <= |buf|
  }

  lemma LowDigit(d: nat, z: nat)
    requires d < 128
    ensures (d + 128 * z) % 128 == d && (d + 128 * z) / 128 == z
  {
  }

  /** A shortest form is no longer than what was read. */
  lemma {:induction false} UvarintFits(buf: ByteString, i: nat, x: nat, scale: nat) returns (y: nat)
    requires ReadUvarintFrom(buf, i, x, scale).Ok?
    ensures var r := ReadUvarintFrom(buf, i, x, scale);
            r.value == x + y * scale && |PutUvarint(y)| + |r.rest| <= |buf|
    decreases |buf|
  {
    var b: nat := buf[0];
    if b < 128 {
      y := b;
    } else {
      var z := UvarintFits(buf[1..], i + 1, x + (b - 128) * scale, 128 * scale);
      y := b - 128 + 128 * z;
      LowDigit(b - 128, z);
      Digits(x, y, scale);
    }
  }

  lemma VarintFits(buf: ByteString)
    ensures ReadVarint31(buf).Ok? ==> Fits(EncodeVarint31(ReadVarint31(buf).value), buf, ReadVarint31(buf).rest)
    ensures ReadVarint63(buf).Ok? ==> Fits(EncodeVarint63(ReadVarint63(buf).value), buf, ReadVarint63(buf).rest)
  {
    if ReadUvarint(buf).Ok? {
      var y := UvarintFits(buf, 0, 0, 1);
      assert y * 1 == y;
    }
  }

  lemma VarstrFits(buf: ByteString)
    requires ReadVarstr31(buf).Ok?
    ensures Fits(EncodeVarstr31(ReadVarstr31(buf).value), buf, ReadVarstr31(buf).rest)
  {
    VarintFits(buf);
  }

  lemma {:induction false} StringsFit(n: nat, buf: ByteString)
    requires ReadMany(ReadVarstr31, n, buf).Ok?
    ensures var r := ReadMany(ReadVarstr31, n, buf); |r.value| == n && Fits(EncodeStrings(r.value), buf, r.rest)
    decreases n
  {
    if n > 0 {
      VarstrFits(buf);
      StringsFit(n - 1, ReadVarstr31(buf).rest);
      var r, more := ReadMany(ReadVarstr31, n, buf), ReadMany(ReadVarstr31, n - 1, ReadVarstr31(buf).rest);
      assert r.value[0] == ReadVarstr31(buf).value && r.value[1..] == more.value;
    }
  }

  lemma VarstrListFits(buf: ByteString)
    requires ReadVarstrList(buf).Ok?
    ensures Fits(EncodeVarstrList(ReadVarstrList(buf).value), buf, ReadVarstrList(buf).rest)
  {
    VarintFits(buf);
    StringsFit(ReadVarint31(buf).value, ReadVarint31(buf).rest);
  }

  lemma AssetAmountFits(buf: ByteString)
    requires ReadAssetAmount(buf).Ok?
    ensures Fits(EncodeAssetAmount(ReadAssetAmount(buf).value), buf, ReadAssetAmount(buf).rest)
  {
    VarintFits(ReadHash(buf).rest);
  }

  lemma ProgramFits(buf: ByteString)
    requires VersionedProgram(buf).Ok?
    ensures var r := VersionedProgram(buf); Fits(EncodeProgram(r.value.0, r.value.1), buf, r.rest)
  {
    VarintFits(buf);
    VarstrFits(ReadVarint63(buf).rest);
  }

  lemma SpendFits(buf: ByteString)
    requires SpendBody(buf).Ok?
    ensures Fits(EncodeSpend(SpendBody(buf).value), buf, SpendBody(buf).rest)
  {
    var r1 := ReadHash(buf).rest;
    var r2 := ReadAssetAmount(r1).rest;
    var r3 := ReadVarint63(r2).rest;
    AssetAmountFits(r1);
    VarintFits(r2);
    ProgramFits(r3);
  }

  lemma ExtensibleFits<T>(f: ByteString -> Parsed<T>, e: Option<ByteString>, buf: ByteString)
    requires ReadExtensible(f, buf).Ok?
    requires var s := ReadVarstr31(buf).value; Fits(e, s, f(s).rest)
    ensures var r := ReadExtensible(f, buf); Fits(EncodeExtensible(e, r.value.1), buf, r.rest)
  {
    VarstrFits(buf);
    VarintFits(buf);
    var s, r := ReadVarstr31(buf).value, ReadExtensible(f, buf);
    ShorterStringFits(e.value + r.value.1, s);
  }

  /** A shorter string needs no more bytes. */
  lemma ShorterStringFits(a: ByteString, b: ByteString)
    requires |a| <= |b| <= MAX_INT32
    ensures |EncodeVarstr31(a).value| <= |EncodeVarstr31(b).value|
  {
    UvarintMonotone(|a|, |b|);
  }

  lemma {:induction false} UvarintMonotone(x: nat, y: nat)
    requires x <= y
    ensures |PutUvarint(x)| <= |PutUvarint(y)|
    decreases y
  {
    if x >= 128 {
      UvarintMonotone(x / 128, y / 128);
    }
  }

  lemma OutputBodyFits(version: nat, buf: ByteString)
    requires OutputBody(version, buf).Ok?
    ensures var r := OutputBody(version, buf); Fits(EncodeOutputCommitment(version, r.value), buf, r.rest)
  {
    if version == 1 {
      AssetAmountFits(buf);
      ProgramFits(ReadAssetAmount(buf).rest);
    }
  }

  /** The encoding of an issuance's commitment is as long whatever its asset id is. */
  lemma IssuanceFits(ids: AssetIds, input: TypedInput, buf: ByteString)
    requires IssuanceBody(buf).Ok? && input.Issuance? && Committed(input) == IssuanceBody(buf).value.0
    requires input.vmVersion <= MAX_INT64
    ensures Fits(EncodeIssuance(ids, input), buf, IssuanceBody(buf).rest)
  {
    VarstrFits(buf);
    var r1 := ReadVarstr31(buf).rest;
    VarintFits(ReadHash(r1).rest);
  }

  /** A commitment that parses can be encoded, with any witness added. */
  lemma CommitmentFits(ids: AssetIds, version: nat, input: TypedInput, buf: ByteString)
    requires CommitmentBody(version, buf).Ok? && Committed(input) == CommitmentBody(version, buf).value.0
    requires input.Issuance? ==> input.vmVersion <= MAX_INT64
    ensures Fits(EncodeCommitment(ids, version, input), buf, CommitmentBody(version, buf).rest)
  {
    if version == 1 {
      var tail := buf[1..];
      if input.Issuance? {
        IssuanceFits(ids, input, tail);
      } else if input.Spend? {
        SpendFits(ReadVarstr31(tail).value);
        ExtensibleFits(SpendBody, EncodeSpend(input.commitment), tail);
      } else {
        VarstrFits(tail);
      }
    }
  }

  /** A witness that parses completes the committed input, and can be encoded. */
  lemma WitnessFits(ids: AssetIds, version: nat, mid: TypedInput, id: Hash, buf: ByteString)
    requires WitnessBody(ids, version, mid, id, buf).Ok? && Committed(mid) == mid && (version == 1 || mid.NoInput?)
    ensures var r := WitnessBody(ids, version, mid, id, buf);
            && Committed(r.value) == mid && (r.value.Issuance? ==> r.value.vmVersion <= MAX_INT64)
            && Fits(EncodeWitness(r.value), buf, r.rest)
  {
    if mid.Issuance? {
      VarstrFits(buf);
      var r1 := ReadVarstr31(buf).rest;
      VarintFits(r1);
      var r2 := ReadVarint63(r1).rest;
      VarstrFits(r2);
      VarstrListFits(ReadVarstr31(r2).rest);
    } else if mid.Spend? {
      VarstrListFits(buf);
    }
  }

  lemma InputFits(ids: AssetIds, buf: ByteString)
    requires ReadInput(ids, buf).Ok?
    ensures Fits(EncodeInput(ids, ReadInput(ids, buf).value), buf, ReadInput(ids, buf).rest)
  {
    VarintFits(buf);
    var version, r1 := ReadVarint63(buf).value, ReadVarint63(buf).rest;
    var f := s => CommitmentBody(version, s);
    var c := ReadExtensible(f, r1);
    var mid, id := c.value.0.0, c.value.0.1;
    var g := s => WitnessBody(ids, version, mid, id, s);
    WitnessFits(ids, version, mid, id, ReadVarstr31(c.rest).value);
    var input := g(ReadVarstr31(c.rest).value).value;
    ExtensibleFits(g, EncodeWitness(input), c.rest);
    CommitmentFits(ids, version, input, ReadVarstr31(r1).value);
    ExtensibleFits(f, EncodeCommitment(ids, version, input), r1);
  }

  lemma OutputFits(buf: ByteString)
    requires ReadOutput(buf).Ok?
    ensures Fits(EncodeOutput(ReadOutput(buf).value, []), buf, ReadOutput(buf).rest)
  {
    VarintFits(buf);
    var version, r1 := ReadVarint63(buf).value, ReadVarint63(buf).rest;
    var f := s => OutputBody(version, s);
    OutputBodyFits(version, ReadVarstr31(r1).value);
    var c := ReadExtensible(f, r1);
    ExtensibleFits(f, EncodeOutputCommitment(version, c.value.0), r1);
    VarstrFits(c.rest);
    ShorterStringFits([], ReadVarstr31(c.rest).value);
  }

  predicate FitsOn<T>(p: ByteString -> Parsed<T>, e: T -> Option<ByteString>, buf: ByteString) {
    p(buf).Ok? ==> Fits(e(p(buf).value), buf, p(buf).rest)
  }

  /** What the parser finds can be encoded in no more bytes. */
  ghost predicate AlwaysFits<T(!new)>(p: ByteString -> Parsed<T>, e: T -> Option<ByteString>) {
    forall buf :: FitsOn(p, e, buf)
  }

  lemma {:induction false} ManyFit<T(!new)>(p: ByteString -> Parsed<T>, e: T -> Option<ByteString>, n: nat,
                                            buf: ByteString)
    requires AlwaysFits(p, e) && ReadMany(p, n, buf).Ok?
    ensures var r := ReadMany(p, n, buf); |r.value| == n && Fits(EncodeMany(e, r.value), buf, r.rest)
    decreases n
  {
    if n > 0 {
      assert FitsOn(p, e, buf);
      ManyFit(p, e, n - 1, p(buf).rest);
      var r, more := ReadMany(p, n, buf), ReadMany(p, n - 1, p(buf).rest);
      assert r.value[0] == p(buf).value && r.value[1..] == more.value;
    }
  }

  lemma CountedFits<T(!new)>(p: ByteString -> Parsed<T>, e: T -> Option<ByteString>, buf: ByteString)
    requires AlwaysFits(p, e) && Counted(p)(buf).Ok?
    ensures var r := Counted(p)(buf); Fits(EncodeCounted(e, r.value), buf, r.rest)
  {
    VarintFits(buf);
    ManyFit(p, e, ReadVarint31(buf).value, ReadVarint31(buf).rest);
  }

  lemma ItemsFit(ids: AssetIds, buf: ByteString)
    requires ItemsParser(ids)(buf).Ok?
    ensures var r := ItemsParser(ids)(buf); Fits(EncodeItems(ids, r.value.0, r.value.1), buf, r.rest)
  {
    var p, e, q, f := InputParser(ids), InputEncoder(ids), OutputParser(), OutputEncoder();
    forall b ensures FitsOn(p, e, b) {
      if p(b).Ok? {
        InputFits(ids, b);
      }
    }
    forall b ensures FitsOn(q, f, b) {
      if q(b).Ok? {
        OutputFits(b);
      }
    }
    CountedFits(p, e, buf);
    CountedFits(q, f, Counted(p)(buf).rest);
  }

  lemma HeaderFits(buf: ByteString)
    requires ReadHeader(buf).Ok?
    ensures var r := ReadHeader(buf); Fits(EncodeHeader(r.value.0, r.value.1), buf, r.rest)
  {
    VarintFits(buf[1..]);
    VarintFits(ReadVarint63(buf[1..]).rest);
  }

  lemma TxFits(ids: AssetIds, buf: ByteString)
    requires ReadTx(ids, buf).Ok?
    ensures Fits(EncodeTx(ids, ReadTx(ids, buf).value), buf, ReadTx(ids, buf).rest)
  {
    HeaderFits(buf);
    ItemsFit(ids, ReadHeader(buf).rest);
  }

  /** The bytes parse to the transaction, up to its size. */
  predicate ParsesFrom(ids: AssetIds, tx: TxData, buf: ByteString) {
    match ReadTx(ids, buf)
    case Err => false
    case Ok(v, _) => tx == v.(serializedSize := tx.serializedSize)
  }

  /** Some bytes do. */
  ghost predicate Parses(ids: AssetIds, tx: TxData) {
    exists buf :: ParsesFrom(ids, tx, buf)
  }

  /** The transactions that parse are exactly the encodable ones. */
  lemma ParsesIffEncodable(ids: AssetIds, tx: TxData)
    ensures Parses(ids, tx) <==> EncodeTx(ids, tx).Some?
  {
    if Parses(ids, tx) {
      var buf :| ParsesFrom(ids, tx, buf);
      TxFits(ids, buf);
    }
    if EncodeTx(ids, tx).Some? {
      TxRoundTrip(ids, tx, []);
      assert ParsesFrom(ids, tx, EncodeTx(ids, tx).value + []);
    }
  }

  /** What is refused beyond that: other serialisation flags, input types above 2, and an issuance whose parameters do
      not give the committed asset id. */
  lemma OthersRefused(ids: AssetIds, buf: ByteString, kind: Byte, input: TypedInput, id: Hash)
    ensures ReadTx(ids, buf).Ok? ==> buf != [] && buf[0] == 7
    ensures CommitmentBody(1, [kind] + buf).Ok? ==> kind <= 2
    ensures input.Issuance? && WitnessBody(ids, 1, input, id, buf).Ok? ==>
              var v := WitnessBody(ids, 1, input, id, buf).value;
              v.Issuance? && v.vmVersion <= MAX_INT64 && ids(v.program, v.vmVersion, v.definition) == id
  {
    if input.Issuance? && WitnessBody(ids, 1, input, id, buf).Ok? {
      VarintFits(ReadVarstr31(buf).rest);
    }
  }
}
