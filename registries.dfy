/**
 * The multihash split of migrations/_3_registries.js: the decoded bytes of an
 * IPFS hash are rendered as `hash16` and cut into the triple
 * `(ipfsHash, hashFunction, hashSize)` that `createOrgan` (line 35) and
 * `createProcedure` (line 65) receive. `_deployOrgan` (lines 29-33) and
 * `_deployNominationProcedure` (lines 59-63) run the same five lines, so both
 * are modelled by the one function `Split`.
 */
module Registries {
  import opened Options
  import opened JsText
  import opened JsNumber
  import opened ByteRendering

  /** The arguments the Kelsen factory receives for a piece of IPFS metadata. */
  datatype FactoryArgs = FactoryArgs(ipfsHash: string, hashFunction: Number, hashSize: Number)

  /**
   * Lines 30-33: render the bytes as `hash16` (`Hash16`, which
   * `Hash16IsArrayFromJoin` proves equal to line 30's `Array.from(…).join('')`), then
   * `ipfsHash = "0x" + hash16.substring(4).toLowerCase()`,
   * `hashFunction = parseInt(hash16.substring(0, 2), 16)` and
   * `hashSize = parseInt(hash16.substring(2, 4), 16)`.
   */
  function Split(bytes: seq<Byte>): FactoryArgs
  {
    var hash16 := Hash16(bytes);
    FactoryArgs(
      "0x" + ToLowerCase(Substring(hash16, 4, |hash16|)),
      ParseInt16(Substring(hash16, 0, 2)),
      ParseInt16(Substring(hash16, 2, 4)))
  }

  /** `hash16` of a buffer of two or more bytes, by its first two bytes and the rest. */
  lemma Hash16Head2(bytes: seq<Byte>)
    requires |bytes| >= 2
    ensures Hash16(bytes) == PaddedHex(bytes[0]) + PaddedHex(bytes[1]) + Hash16(bytes[2..])
  {
    var head := bytes[..2];
    assert head[0] == bytes[0] && head[1..][0] == bytes[1] && head[1..][1..] == [];
    assert Hash16(head[1..][1..]) == "";
    assert Hash16(head[1..]) == PaddedHex(bytes[1]);
    assert Hash16(head) == PaddedHex(bytes[0]) + PaddedHex(bytes[1]);
    assert bytes == head + bytes[2..];
    Hash16Append(head, bytes[2..]);
  }

  /** `hashFunction` is the first byte, and NaN for an empty buffer. */
  lemma SplitHashFunction(bytes: seq<Byte>)
    ensures Split(bytes).hashFunction == if |bytes| >= 1 then Num(bytes[0]) else NaN
  {
    var h := Hash16(bytes);
    Hash16Shape(bytes);
    if |bytes| >= 1 {
      Hash16Chunk(bytes, 0);
      assert Substring(h, 0, 2) == PaddedHex(bytes[0]);
      ParsePaddedHex(bytes[0]);
    }
  }

  /** `hashSize` is the second byte, and NaN for a buffer shorter than two bytes. */
  lemma SplitHashSize(bytes: seq<Byte>)
    ensures Split(bytes).hashSize == if |bytes| >= 2 then Num(bytes[1]) else NaN
  {
    var h := Hash16(bytes);
    Hash16Shape(bytes);
    if |bytes| >= 2 {
      Hash16Chunk(bytes, 1);
      assert Substring(h, 2, 4) == PaddedHex(bytes[1]);
      ParsePaddedHex(bytes[1]);
    } else {
      assert Substring(h, 2, 4) == [];
    }
  }

  /**
   * `ipfsHash` is `"0x"` followed by the rendering of the bytes after the
   * first two: two lower-case digits per digest byte, and exactly `"0x"`
   * when there are at most two bytes.
   */
  lemma SplitIpfsHash(bytes: seq<Byte>)
    ensures Split(bytes).ipfsHash == "0x" + Hash16(if |bytes| >= 2 then bytes[2..] else [])
    ensures |Split(bytes).ipfsHash| == 2 + 2 * (if |bytes| >= 2 then |bytes| - 2 else 0)
    ensures IsLowerHex(Split(bytes).ipfsHash[2..])
  {
    var digest := if |bytes| >= 2 then bytes[2..] else [];
    DigestOfHash16(bytes);
    LowerCaseOfHash16(digest);
    Hash16Shape(digest);
    assert Split(bytes).ipfsHash[2..] == Hash16(digest);
  }

  /** `hash16.substring(4)` is the rendering of the bytes after the first two. */
  lemma DigestOfHash16(bytes: seq<Byte>)
    ensures Substring(Hash16(bytes), 4, |Hash16(bytes)|) == Hash16(if |bytes| >= 2 then bytes[2..] else [])
  {
    Hash16Shape(bytes);
    if |bytes| >= 2 {
      Hash16Head2(bytes);
      PaddedHexValue(bytes[0]);
      PaddedHexValue(bytes[1]);
    }
  }

  /** Re-assembly: the two fields rendered again, then the digest digits, give back `hash16`. */
  lemma SplitRejoin(bytes: seq<Byte>)
    requires |bytes| >= 2
    ensures Split(bytes).hashFunction.Num? && Split(bytes).hashSize.Num?
    ensures RenderByte(Split(bytes).hashFunction.value) + RenderByte(Split(bytes).hashSize.value)
              + Split(bytes).ipfsHash[2..] == Hash16(bytes)
  {
    SplitHashFunction(bytes);
    SplitHashSize(bytes);
    SplitIpfsHash(bytes);
    Hash16Head2(bytes);
    RenderByteDigits(bytes[0]);
    RenderByteDigits(bytes[1]);
  }

  /**
   * The bytes a triple stands for: both numbers must be bytes and `ipfsHash`
   * must be `"0x"` followed by an even number of hexadecimal digits.
   */
  function Reassemble(t: FactoryArgs): Option<seq<Byte>>
  {
    if t.hashFunction.NaN? || t.hashSize.NaN? then None
    else
      var f, n := t.hashFunction.value, t.hashSize.value;
      if !(0 <= f < 256 && 0 <= n < 256) || |t.ipfsHash| < 2 || t.ipfsHash[..2] != "0x" then None
      else
        var digest := DecodeHex(t.ipfsHash[2..]);
        if digest.None? then None else Some([f, n] + digest.value)
  }

  /**
   * What the split means, field by field: the first byte, the second byte,
   * and `"0x"` followed by the rendering of the digest after them; a field
   * with no byte behind it is NaN.
   */
  function SplitSpec(bytes: seq<Byte>): FactoryArgs
  {
    FactoryArgs(
      "0x" + Hash16(if |bytes| >= 2 then bytes[2..] else []),
      if |bytes| >= 1 then Num(bytes[0]) else NaN,
      if |bytes| >= 2 then Num(bytes[1]) else NaN)
  }

  /** `Split` computes `SplitSpec`. */
  lemma SplitClosedForm(bytes: seq<Byte>)
    ensures Split(bytes) == SplitSpec(bytes)
  {
    SplitHashFunction(bytes);
    SplitHashSize(bytes);
    SplitIpfsHash(bytes);
  }

  /** A triple written as `Split` writes it re-assembles to its bytes. */
  lemma ReassembleRendered(f: Byte, n: Byte, digest: seq<Byte>)
    ensures Reassemble(FactoryArgs("0x" + Hash16(digest), Num(f), Num(n))) == Some([f, n] + digest)
  {
    var s := "0x" + Hash16(digest);
    assert s[..2] == "0x" && s[2..] == Hash16(digest);
    DecodeHash16(digest);
  }

  /**
   * The triple determines the bytes when there are at least two of them;
   * for a shorter buffer a NaN field makes the triple unusable.
   */
  lemma ReassembleSplit(bytes: seq<Byte>)
    ensures Reassemble(Split(bytes)) == if |bytes| >= 2 then Some(bytes) else None
  {
    if |bytes| >= 2 {
      SplitClosedForm(bytes);
      ReassembleRendered(bytes[0], bytes[1], bytes[2..]);
      HeadTwo(bytes);
    } else {
      SplitHashSize(bytes);
    }
  }

  lemma HeadTwo(bytes: seq<Byte>)
    requires |bytes| >= 2
    ensures [bytes[0], bytes[1]] + bytes[2..] == bytes
  {
  }

  /** `ToLowerCase` of `"0x"` and a digit string, piece by piece. */
  lemma LowerCasePrefixed(s: string)
    requires |s| >= 2 && s[..2] == "0x"
    ensures ToLowerCase(s) == "0x" + ToLowerCase(s[2..])
  {
  }

  /** What a successful re-assembly says about the triple. */
  lemma ReassembleParts(t: FactoryArgs, bytes: seq<Byte>)
    requires Reassemble(t) == Some(bytes)
    ensures |bytes| >= 2 && t.hashFunction == Num(bytes[0]) && t.hashSize == Num(bytes[1])
    ensures |t.ipfsHash| >= 2 && t.ipfsHash[..2] == "0x"
    ensures DecodeHex(t.ipfsHash[2..]) == Some(bytes[2..])
  {
    var digest := DecodeHex(t.ipfsHash[2..]).value;
    assert bytes == [t.hashFunction.value, t.hashSize.value] + digest;
    assert bytes[2..] == digest;
  }

  /** Every triple that re-assembles is what `Split` makes of its bytes, up to letter case. */
  lemma SplitReassemble(t: FactoryArgs, bytes: seq<Byte>)
    requires Reassemble(t) == Some(bytes)
    ensures Split(bytes) == FactoryArgs(ToLowerCase(t.ipfsHash), t.hashFunction, t.hashSize)
  {
    ReassembleParts(t, bytes);
    SplitClosedForm(bytes);
    Hash16OfDecoded(t.ipfsHash[2..], bytes[2..]);
    LowerCasePrefixed(t.ipfsHash);
  }

  /** Different buffers give different triples, whatever their length. */
  lemma SplitInjective(a: seq<Byte>, b: seq<Byte>)
    requires Split(a) == Split(b)
    ensures a == b
  {
    SplitClosedForm(a);
    SplitClosedForm(b);
    SplitSpecInjective(a, b);
  }

  lemma SplitSpecInjective(a: seq<Byte>, b: seq<Byte>)
    requires SplitSpec(a) == SplitSpec(b)
    ensures a == b
  {
    if |a| >= 2 {
      assert |b| >= 2;
      assert SplitSpec(a).ipfsHash[2..] == Hash16(a[2..]);
      assert SplitSpec(b).ipfsHash[2..] == Hash16(b[2..]);
      Hash16Injective(a[2..], b[2..]);
      HeadTwo(a);
      HeadTwo(b);
    } else if |a| == 1 {
      assert [a[0]] == a && [b[0]] == b;
    }
  }

  /** A hexadecimal account or contract address, as truffle passes it. */
  type Address = string

  /** The factory call each deployment function ends with. */
  datatype FactoryCall =
    | CreateOrgan(args: FactoryArgs)
    | CreateProcedure(procedureType: string, args: FactoryArgs, nominatersOrgan: Address)

  /**
   * `_deployOrgan` (lines 29-35) from the decoded metadata hash: the organ
   * factory receives a triple from which the bytes can be recovered.
   */
  function OrganCall(bytes: seq<Byte>): (r: FactoryCall)
    ensures r.CreateOrgan?
    ensures |bytes| >= 2 ==> Reassemble(r.args) == Some(bytes)
    ensures |bytes| < 2 ==> Reassemble(r.args) == None
  {
    ReassembleSplit(bytes);
    CreateOrgan(Split(bytes))
  }

  /** The keys of the `nominationsProcedures` table (lines 12-21). */
  predicate IsProcedureType(procedureType: string)
  {
    procedureType == "simpleAdminAndMasterNomination" || procedureType == "simpleNormNomination"
  }

  /**
   * `_deployNominationProcedure` (lines 59-65): the procedure factory named by
   * `procedureType` receives the same triple as an organ with the same
   * metadata would, followed by the nominating organ. A type that is not a
   * key of `nominationsProcedures` makes line 65 throw a TypeError, here `None`.
   */
  function ProcedureCall(procedureType: string, bytes: seq<Byte>, nominatersOrgan: Address): (r: Option<FactoryCall>)
    ensures r.Some? <==> IsProcedureType(procedureType)
    ensures r.Some? ==> r.value.CreateProcedure? && r.value.procedureType == procedureType
    ensures r.Some? ==> r.value.nominatersOrgan == nominatersOrgan
    ensures r.Some? ==> r.value.args == OrganCall(bytes).args
  {
    if IsProcedureType(procedureType) then
      Some(CreateProcedure(procedureType, Split(bytes), nominatersOrgan))
    else
      None
  }
}
