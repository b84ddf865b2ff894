/** Asset ids of protocol/bc/asset.go and protocol/bc/types/issuance.go: what two definitions with one id share. */
module AssetId {
  import opened Bytes
  import opened BigEndian
  import opened Codec
  import opened CodecCode
  import opened Hash
  import opened HashEncoding
  import opened TxParser

  datatype Program = Program(vmVersion: Word, code: ByteString)

  datatype AssetDefinition = AssetDefinition(program: Option<Program>, data: Option<Hash>)

  function DefinitionValue(ad: AssetDefinition): HashValue {
    var program := match ad.program
                   case None => APointer(None)
                   case Some(p) => APointer(Some(AStruct([AWord(p.vmVersion), ABytes(p.code)])));
    AStruct([program, AHashPointer(ad.data)])
  }

  /** What AssetDefinition.ComputeAssetID hashes: whatever writeForHash wrote, its error ignored. */
  function PreImage(ad: AssetDefinition): ByteString {
    Put(DefinitionValue(ad)).bytes
  }

  /** What a pre-image shows of a definition. A missing data hash is written as the zero hash, and a program
      too long to be written ends the writing after the VM version. */
  datatype Shown = NoProgram(data: Hash) | Whole(program: Program, data: Hash) | CutShort(vmVersion: Word)

  function Show(ad: AssetDefinition): Shown {
    var data := match ad.data case None => ZeroHash case Some(h) => h;
    match ad.program
    case None => NoProgram(data)
    case Some(p) => if |p.code| > MAX_INT32 then CutShort(p.vmVersion) else Whole(p, data)
  }

  lemma {:induction false} PutAllTwo(v: HashValue, w: HashValue)
    ensures PutAll([v, w]) == Then(Put(v), Put(w))
  {
    assert [v, w][1..] == [w];
    PutAllOne(w);
  }

  /** The pre-image, written out. */
  lemma PreImageOf(ad: AssetDefinition)
    ensures match Show(ad)
            case NoProgram(data) => PreImage(ad) == Byte32(data)
            case CutShort(vm) => PreImage(ad) == LittleEndian(vm, 8)
            case Whole(p, data) =>
              PreImage(ad) == LittleEndian(p.vmVersion, 8) + (PutUvarint(|p.code|) + p.code) + Byte32(data)
  {
    ZeroHashBytes();
    match ad.program
    case None =>
      PutAllTwo(APointer(None), AHashPointer(ad.data));
      assert [] + Put(AHashPointer(ad.data)).bytes == Put(AHashPointer(ad.data)).bytes;
    case Some(p) =>
      var fields := [AWord(p.vmVersion), ABytes(p.code)];
      PutAllTwo(fields[0], fields[1]);
      PutAllTwo(APointer(Some(AStruct(fields))), AHashPointer(ad.data));
      assert LittleEndian(p.vmVersion, 8) + [] == LittleEndian(p.vmVersion, 8);
  }

  const DefinitionShape := SStruct([SPointer(SStruct([SWord, SBytes])), SHashPointer])

  /** A definition that is written whole can be read back from its pre-image. */
  lemma WholeReadsBack(p: Program, data: Hash)
    requires |p.code| <= MAX_INT32
    ensures var ad := AssetDefinition(Some(p), Some(data));
            Decode(DefinitionShape, PreImage(ad)) == Ok(DefinitionValue(ad), [])
  {
    var ad := AssetDefinition(Some(p), Some(data));
    var v := DefinitionValue(ad);
    var fields := [AWord(p.vmVersion), ABytes(p.code)];
    PutAllTwo(fields[0], fields[1]);
    PutAllTwo(v.fields[0], v.fields[1]);
    assert OfTypes(fields, [SWord, SBytes], false) by {
      assert fields[1..][0] == ABytes(p.code) && [SWord, SBytes][1..] == [SBytes];
    }
    assert HasShape(v, DefinitionShape) by {
      assert v.fields[1..][0] == AHashPointer(Some(data)) && DefinitionShape.fields[1..] == [SHashPointer];
    }
    RoundTrip(DefinitionShape, v, []);
    assert PreImage(ad) + [] == PreImage(ad);
  }

  lemma WholeDetermined(p: Program, data: Hash, q: Program, data': Hash)
    requires |p.code| <= MAX_INT32 && |q.code| <= MAX_INT32
    requires PreImage(AssetDefinition(Some(p), Some(data))) == PreImage(AssetDefinition(Some(q), Some(data')))
    ensures p == q && data == data'
  {
    WholeReadsBack(p, data);
    WholeReadsBack(q, data');
    var v := DefinitionValue(AssetDefinition(Some(p), Some(data)));
    var w := DefinitionValue(AssetDefinition(Some(q), Some(data')));
    assert v.fields[0].target.value.fields[0].w == p.vmVersion && w.fields[0].target.value.fields[0].w == q.vmVersion;
    assert v.fields[0].target.value.fields[1].s == p.code && w.fields[0].target.value.fields[1].s == q.code;
    assert v.fields[1].hash == Some(data) && w.fields[1].hash == Some(data');
  }

  lemma ShownDetermined(a: AssetDefinition, b: AssetDefinition)
    requires PreImage(a) == PreImage(b)
    ensures Show(a) == Show(b)
  {
    PreImageOf(a);
    PreImageOf(b);
    match (Show(a), Show(b))
    case (NoProgram(x), NoProgram(y)) =>
      HashRoundTrip(x);
      HashRoundTrip(y);
    case (CutShort(x), CutShort(y)) =>
      assert Pow256(8) == 0x1_0000_0000_0000_0000;
      LittleEndianRoundTrip(x, 8);
      LittleEndianRoundTrip(y, 8);
    case (Whole(p, x), Whole(q, y)) =>
      PreImageOf(AssetDefinition(Some(p), Some(x)));
      PreImageOf(AssetDefinition(Some(q), Some(y)));
      WholeDetermined(p, x, q, y);
    case _ =>
  }

  /** Two definitions have one pre-image exactly when they show the same. So distinct definitions with a data
      hash and programs of at most 2^31 - 1 bytes have distinct pre-images; a missing data hash stands for the
      zero hash; and of a longer program only the VM version counts, not even the data hash. */
  lemma PreImageIff(a: AssetDefinition, b: AssetDefinition)
    ensures PreImage(a) == PreImage(b) <==> Show(a) == Show(b)
  {
    if Show(a) == Show(b) {
      PreImageOf(a);
      PreImageOf(b);
    }
    if PreImage(a) == PreImage(b) {
      ShownDetermined(a, b);
    }
  }

  /** Two programs that are too long, different from their first byte on, with one pre-image. */
  lemma LongProgramsCollide(n: nat, vm: Word, data: Hash)
    requires n > MAX_INT32
    ensures var p, q := Program(vm, Zeros(n)), Program(vm, [1] + Zeros(n - 1));
            p != q && PreImage(AssetDefinition(Some(p), Some(data))) == PreImage(AssetDefinition(Some(q), Some(data)))
  {
    var p, q := Program(vm, Zeros(n)), Program(vm, [1] + Zeros(n - 1));
    assert p.code[0] != q.code[0];
    PreImageIff(AssetDefinition(Some(p), Some(data)), AssetDefinition(Some(q), Some(data)));
  }

  // ---------------------------------------------------------------- ids

  function ComputeAssetID(h: Digest, ad: AssetDefinition): Hash {
    Sum(h, PreImage(ad))
  }

  function IssuanceDefinition(h: Digest, program: ByteString, vm: Word, definition: ByteString): AssetDefinition {
    AssetDefinition(Some(Program(vm, program)), Some(Sum(h, definition)))
  }

  /** IssuanceInput.AssetID. */
  function IssuanceIds(h: Digest): AssetIds {
    (program: ByteString, vm: Word, definition: ByteString) =>
      ComputeAssetID(h, IssuanceDefinition(h, program, vm, definition))
  }

  /** Two issuances whose witnesses are accepted for one committed asset id have the same program, VM version
      and definition, or they exhibit two byte strings with one digest. */
  lemma AcceptedIssuancesAgree(h: Digest, id: Hash, i: TypedInput, s: ByteString, j: TypedInput, t: ByteString)
    requires i.Issuance? && IssuanceWitness(IssuanceIds(h), i, id, s).Ok?
    requires j.Issuance? && IssuanceWitness(IssuanceIds(h), j, id, t).Ok?
    ensures var a := IssuanceWitness(IssuanceIds(h), i, id, s).value;
            var b := IssuanceWitness(IssuanceIds(h), j, id, t).value;
            || (a.program == b.program && a.vmVersion == b.vmVersion && a.definition == b.definition)
            || Collision(h, a.definition, b.definition)
            || Collision(h, PreImage(IssuanceDefinition(h, a.program, a.vmVersion, a.definition)),
                         PreImage(IssuanceDefinition(h, b.program, b.vmVersion, b.definition)))
  {
    var a := IssuanceWitness(IssuanceIds(h), i, id, s).value;
    var b := IssuanceWitness(IssuanceIds(h), j, id, t).value;
    var x := IssuanceDefinition(h, a.program, a.vmVersion, a.definition);
    var y := IssuanceDefinition(h, b.program, b.vmVersion, b.definition);
    PreImageIff(x, y);
    SumDetermines(h, PreImage(x), PreImage(y));
    SumDetermines(h, a.definition, b.definition);
  }
}
