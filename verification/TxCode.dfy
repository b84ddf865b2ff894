/** The readFrom methods of protocol/bc/types, each proved to do what its parser in TxParser says. */
module TxCode {
  import opened Bytes
  import opened Codec
  import opened CodecCode
  import opened Hash
  import opened TxParser
  import opened TxWriter

  method HashFrom(r: Reader) returns (h: Result<Hash>)
    modifies r
    ensures Agrees(ReadHash(old(r.buf)), h, r.buf)
  {
    var b := r.ReadExactly(32);
    if b.Failure? {
      return Failure;
    }
    return Success(NewHash(b.value));
  }

  method AssetAmountFrom(r: Reader) returns (a: Result<AssetAmount>)
    modifies r
    ensures Agrees(ReadAssetAmount(old(r.buf)), a, r.buf)
  {
    var id := HashFrom(r);
    if id.Failure? {
      return Failure;
    }
    var amount := r.Varint63();
    if amount.Failure? {
      return Failure;
    }
    return Success(AssetAmount(id.value, amount.value));
  }

  /** The tail that spend and output commitments share: a VM version that must be 1, then the program. */
  method VersionedProgramFrom(r: Reader) returns (p: Result<(nat, ByteString)>)
    modifies r
    ensures Agrees(VersionedProgram(old(r.buf)), p, r.buf)
  {
    var vm := r.Varint63();
    if vm.Failure? || vm.value != 1 {
      return Failure;
    }
    var program := r.Varstr31();
    if program.Failure? {
      return Failure;
    }
    return Success((vm.value, program.value));
  }

  method SpendFrom(r: Reader) returns (c: Result<SpendCommitment>)
    modifies r
    ensures Agrees(SpendBody(old(r.buf)), c, r.buf)
  {
    var source := HashFrom(r);
    if source.Failure? {
      return Failure;
    }
    var amount := AssetAmountFrom(r);
    if amount.Failure? {
      return Failure;
    }
    var position := r.Varint63();
    if position.Failure? {
      return Failure;
    }
    var p := VersionedProgramFrom(r);
    if p.Failure? {
      return Failure;
    }
    return Success(SpendCommitment(source.value, amount.value, position.value, p.value.0, p.value.1));
  }

  method OutputBodyFrom(r: Reader, assetVersion: nat) returns (c: Result<OutputCommitment>)
    modifies r
    ensures Agrees(OutputBody(assetVersion, old(r.buf)), c, r.buf)
  {
    if assetVersion != 1 {
      return Success(ZeroOutput);
    }
    var amount := AssetAmountFrom(r);
    if amount.Failure? {
      return Failure;
    }
    var p := VersionedProgramFrom(r);
    if p.Failure? {
      return Failure;
    }
    return Success(OutputCommitment(amount.value, p.value.0, p.value.1));
  }

  method IssuanceFrom(r: Reader) returns (c: Result<(TypedInput, Hash)>)
    modifies r
    ensures Agrees(IssuanceBody(old(r.buf)), c, r.buf)
  {
    var nonce := r.Varstr31();
    if nonce.Failure? {
      return Failure;
    }
    var id := HashFrom(r);
    if id.Failure? {
      return Failure;
    }
    var amount := r.Varint63();
    if amount.Failure? {
      return Failure;
    }
    return Success((Issuance(nonce.value, amount.value, [], 0, [], []), id.value));
  }

  /** SpendCommitment.readFrom: the commitment and whatever follows it in its string. */
  method SpendStringFrom(r: Reader) returns (c: Result<(SpendCommitment, ByteString)>)
    modifies r
    ensures Agrees(ReadExtensible(SpendBody, old(r.buf)), c, r.buf)
  {
    var s := r.Varstr31();
    if s.Failure? {
      return Failure;
    }
    var sr := new Reader(s.value);
    var commitment := SpendFrom(sr);
    if commitment.Failure? {
      return Failure;
    }
    return Success((commitment.value, sr.buf));
  }

  /** What TxInput.readFrom does inside the commitment string. */
  method CommitmentFrom(r: Reader, assetVersion: nat) returns (c: Result<(TypedInput, Hash)>)
    modifies r
    ensures Agrees(CommitmentBody(assetVersion, old(r.buf)), c, r.buf)
  {
    if assetVersion != 1 {
      return Success((NoInput, ZeroHash));
    }
    var kind := r.ReadExactly(1);
    if kind.Failure? {
      return Failure;
    }
    if kind.value[0] == ISSUANCE {
      c := IssuanceFrom(r);
    } else if kind.value[0] == SPEND {
      var spend := SpendStringFrom(r);
      if spend.Failure? {
        return Failure;
      }
      return Success((Spend(spend.value.1, spend.value.0, []), ZeroHash));
    } else if kind.value[0] == COINBASE {
      var arbitrary := r.Varstr31();
      if arbitrary.Failure? {
        return Failure;
      }
      return Success((Coinbase(arbitrary.value), ZeroHash));
    } else {
      return Failure;
    }
  }

  /** The issuance case inside the witness string. */
  method IssuanceWitnessFrom(r: Reader, ids: AssetIds, input: TypedInput, id: Hash) returns (w: Result<TypedInput>)
    requires input.Issuance?
    modifies r
    ensures Agrees(IssuanceWitness(ids, input, id, old(r.buf)), w, r.buf)
  {
    var definition := r.Varstr31();
    if definition.Failure? {
      return Failure;
    }
    var vm := r.Varint63();
    if vm.Failure? {
      return Failure;
    }
    var program := r.Varstr31();
    if program.Failure? {
      return Failure;
    }
    if ids(program.value, vm.value, definition.value) != id {
      return Failure;
    }
    var arguments := r.VarstrList();
    if arguments.Failure? {
      return Failure;
    }
    return Success(Issuance(input.nonce, input.amount, definition.value, vm.value, program.value, arguments.value));
  }

  /** What TxInput.readFrom does inside the witness string. */
  method WitnessFrom(r: Reader, ids: AssetIds, assetVersion: nat, input: TypedInput, id: Hash)
    returns (w: Result<TypedInput>)
    modifies r
    ensures Agrees(WitnessBody(ids, assetVersion, input, id, old(r.buf)), w, r.buf)
  {
    if assetVersion != 1 {
      return Success(input);
    }
    if input.Issuance? {
      w := IssuanceWitnessFrom(r, ids, input, id);
    } else if input.Spend? {
      var arguments := r.VarstrList();
      if arguments.Failure? {
        return Failure;
      }
      return Success(Spend(input.suffix, input.commitment, arguments.value));
    } else {
      return Success(input);
    }
  }

  /** TxInput.readFrom. */
  method InputFrom(r: Reader, ids: AssetIds) returns (t: Result<TxInput>)
    modifies r
    ensures Agrees(ReadInput(ids, old(r.buf)), t, r.buf)
  {
    var version := r.Varint63();
    if version.Failure? {
      return Failure;
    }
    var s := r.Varstr31();
    if s.Failure? {
      return Failure;
    }
    var sr := new Reader(s.value);
    var commitment := CommitmentFrom(sr, version.value);
    if commitment.Failure? {
      return Failure;
    }
    var w := r.Varstr31();
    if w.Failure? {
      return Failure;
    }
    var wr := new Reader(w.value);
    var input := WitnessFrom(wr, ids, version.value, commitment.value.0, commitment.value.1);
    if input.Failure? {
      return Failure;
    }
    return Success(TxInput(version.value, input.value, sr.buf, wr.buf));
  }

  /** TxOutput.readFrom. */
  method OutputFrom(r: Reader) returns (t: Result<TxOutput>)
    modifies r
    ensures Agrees(ReadOutput(old(r.buf)), t, r.buf)
  {
    var version := r.Varint63();
    if version.Failure? {
      return Failure;
    }
    var s := r.Varstr31();
    if s.Failure? {
      return Failure;
    }
    var sr := new Reader(s.value);
    var commitment := OutputBodyFrom(sr, version.value);
    if commitment.Failure? {
      return Failure;
    }
    var ignored := r.Varstr31();
    if ignored.Failure? {
      return Failure;
    }
    return Success(TxOutput(version.value, commitment.value, sr.buf));
  }

  /** One turn of the loop, with n of the inputs still to read by the parser p. */
  method AppendInput(r: Reader, ids: AssetIds, inputs: seq<TxInput>, ghost p: ByteString -> Parsed<TxInput>,
                     ghost n: nat, ghost whole: Parsed<seq<TxInput>>)
    returns (t: Result<seq<TxInput>>)
    requires p == InputParser(ids) && n > 0 && Reading(inputs, p, n, r.buf, whole)
    modifies r
    ensures t.Failure? ==> whole.Err?
    ensures t.Success? ==> Reading(t.value, p, n - 1, r.buf, whole)
  {
    ghost var next := p(r.buf);
    ReadingStep(inputs, p, n, r.buf, whole);
    var ti := InputFrom(r, ids);
    assert Agrees(next, ti, r.buf);
    if ti.Failure? {
      return Failure;
    }
    return Success(inputs + [ti.value]);
  }

  method RepeatInput(r: Reader, ids: AssetIds, count: nat, ghost p: ByteString -> Parsed<TxInput>,
                     ghost whole: Parsed<seq<TxInput>>)
    returns (t: Result<seq<TxInput>>)
    requires p == InputParser(ids) && Reading([], p, count, r.buf, whole)
    modifies r
    ensures Agrees(whole, t, r.buf)
  {
    var inputs: seq<TxInput> := [];
    var n := count;
    while n > 0
      invariant Reading(inputs, p, n, r.buf, whole)
    {
      var more := AppendInput(r, ids, inputs, p, n, whole);
      if more.Failure? {
        return Failure;
      }
      inputs := more.value;
      n := n - 1;
    }
    ReadingEnds(inputs, p, r.buf, whole);
    return Success(inputs);
  }

  method InputsFrom(r: Reader, ids: AssetIds) returns (t: Result<seq<TxInput>>)
    modifies r
    ensures Agrees(Counted(InputParser(ids))(old(r.buf)), t, r.buf)
  {
    var count := r.Varint31();
    if count.Failure? {
      return Failure;
    }
    ghost var p := InputParser(ids);
    ReadingStarts(p, count.value, r.buf);
    t := RepeatInput(r, ids, count.value, p, ReadMany(p, count.value, r.buf));
  }

  /** One turn of the loop, with n of the outputs still to read by the parser p. */
  method AppendOutput(r: Reader, outputs: seq<TxOutput>, ghost p: ByteString -> Parsed<TxOutput>, ghost n: nat,
                     ghost whole: Parsed<seq<TxOutput>>)
    returns (t: Result<seq<TxOutput>>)
    requires p == OutputParser() && n > 0 && Reading(outputs, p, n, r.buf, whole)
    modifies r
    ensures t.Failure? ==> whole.Err?
    ensures t.Success? ==> Reading(t.value, p, n - 1, r.buf, whole)
  {
    ghost var next := p(r.buf);
    ReadingStep(outputs, p, n, r.buf, whole);
    var to := OutputFrom(r);
    assert Agrees(next, to, r.buf);
    if to.Failure? {
      return Failure;
    }
    return Success(outputs + [to.value]);
  }

  method RepeatOutput(r: Reader, count: nat, ghost p: ByteString -> Parsed<TxOutput>,
                      ghost whole: Parsed<seq<TxOutput>>)
    returns (t: Result<seq<TxOutput>>)
    requires p == OutputParser() && Reading([], p, count, r.buf, whole)
    modifies r
    ensures Agrees(whole, t, r.buf)
  {
    var outputs: seq<TxOutput> := [];
    var n := count;
    while n > 0
      invariant Reading(outputs, p, n, r.buf, whole)
    {
      var more := AppendOutput(r, outputs, p, n, whole);
      if more.Failure? {
        return Failure;
      }
      outputs := more.value;
      n := n - 1;
    }
    ReadingEnds(outputs, p, r.buf, whole);
    return Success(outputs);
  }

  method OutputsFrom(r: Reader) returns (t: Result<seq<TxOutput>>)
    modifies r
    ensures Agrees(Counted(OutputParser())(old(r.buf)), t, r.buf)
  {
    var count := r.Varint31();
    if count.Failure? {
      return Failure;
    }
    ghost var p := OutputParser();
    ReadingStarts(p, count.value, r.buf);
    t := RepeatOutput(r, count.value, p, ReadMany(p, count.value, r.buf));
  }

  /** The serialisation flags, version and time range. */
  method HeaderFrom(r: Reader) returns (h: Result<(nat, nat)>)
    modifies r
    ensures Agrees(ReadHeader(old(r.buf)), h, r.buf)
  {
    var flags := r.ReadExactly(1);
    if flags.Failure? || flags.value[0] != SER_REQUIRED {
      return Failure;
    }
    var version := r.Varint63();
    if version.Failure? {
      return Failure;
    }
    var timeRange := r.Varint63();
    if timeRange.Failure? {
      return Failure;
    }
    return Success((version.value, timeRange.value));
  }

  method ItemsFrom(r: Reader, ids: AssetIds) returns (t: Result<(seq<TxInput>, seq<TxOutput>)>)
    modifies r
    ensures Agrees(ItemsParser(ids)(old(r.buf)), t, r.buf)
  {
    var inputs := InputsFrom(r, ids);
    if inputs.Failure? {
      return Failure;
    }
    var outputs := OutputsFrom(r);
    if outputs.Failure? {
      return Failure;
    }
    return Success((inputs.value, outputs.value));
  }

  /** If the bytes start with the encoding of a transaction, the result is that transaction and the rest is unread. */
  ghost predicate UndoesEncoding(ids: AssetIds, buf: ByteString, t: Result<TxData>, rest: ByteString) {
    forall tx, more | EncodeTx(ids, tx).Some? && buf == EncodeTx(ids, tx).value + more ::
      t == Success(tx.(serializedSize := |EncodeTx(ids, tx).value|)) && rest == more
  }

  lemma AgreesUndoes(ids: AssetIds, buf: ByteString, t: Result<TxData>, rest: ByteString)
    requires Agrees(ReadTx(ids, buf), t, rest)
    ensures UndoesEncoding(ids, buf, t, rest) && (t.Success? ==> EncodeTx(ids, t.value).Some?)
  {
    forall tx, more | EncodeTx(ids, tx).Some? && buf == EncodeTx(ids, tx).value + more
      ensures t == Success(tx.(serializedSize := |EncodeTx(ids, tx).value|)) && rest == more
    {
      TxRoundTrip(ids, tx, more);
    }
    if t.Success? {
      TxFits(ids, buf);
    }
  }

  /** The body of TxData.readFrom: the size is the difference of the unread lengths. */
  method FieldsFrom(r: Reader, ids: AssetIds) returns (t: Result<TxData>)
    modifies r
    ensures Agrees(ReadTx(ids, old(r.buf)), t, r.buf)
  {
    var start := |r.buf|;
    var h := HeaderFrom(r);
    if h.Failure? {
      return Failure;
    }
    var items := ItemsFrom(r, ids);
    if items.Failure? {
      return Failure;
    }
    return Success(TxData(h.value.0, start - |r.buf|, h.value.1, items.value.0, items.value.1));
  }

  /** TxData.readFrom. On success the size is the length of the prefix that was consumed, and the result can be encoded;
      an encoded transaction is read back. */
  method TxFrom(r: Reader, ids: AssetIds) returns (t: Result<TxData>)
    modifies r
    ensures Agrees(ReadTx(ids, old(r.buf)), t, r.buf)
    ensures t.Success? ==> IsRest(r.buf, old(r.buf)) && t.value.serializedSize == |Consumed(old(r.buf), r.buf)|
    ensures UndoesEncoding(ids, old(r.buf), t, r.buf) && (t.Success? ==> EncodeTx(ids, t.value).Some?)
  {
    t := FieldsFrom(r, ids);
    AgreesUndoes(ids, old(r.buf), t, r.buf);
    if t.Success? {
      TxLocal(ids, old(r.buf), []);
    }
  }
}
