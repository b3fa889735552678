/**
 * The multihash layout of the IETF draft "draft-multiformats-multihash",
 * section 2: `<hash function code><digest length><digest>`, where both
 * numbers are unsigned varints (seven bits per byte, least significant
 * group first, the high bit set on every byte but the last, and no
 * superfluous trailing zero group). It is the reference against which the
 * single-byte reading of `Split` is compared.
 */
module Multihash {
  import opened Options
  import opened JsNumber
  import opened ByteRendering
  import opened Registries

  /** The multicodec code of sha2-256, the hash function IPFS uses for its v0 identifiers. */
  const Sha2_256: nat := 0x12

  datatype Multihash = Multihash(code: nat, length: nat, digest: seq<Byte>)

  /** A multihash whose digest has the length it announces. */
  predicate WellFormed(m: Multihash) {
    |m.digest| == m.length
  }

  /** The unsigned-varint encoding of `n`. */
  function Varint(n: nat): (r: seq<Byte>)
    ensures 1 <= |r|
    ensures |r| == 1 <==> n < 0x80
    ensures r[|r| - 1] < 0x80
    ensures forall i | 0 <= i < |r| - 1 :: r[i] >= 0x80
    ensures |r| > 1 ==> r[|r| - 1] != 0
  {
    if n < 0x80 then [n] else [0x80 + n % 0x80] + Varint(n / 0x80)
  }

  /**
   * Reads an unsigned varint at the start of `bs`: its value and the number
   * of bytes it takes. `None` when `bs` ends inside the varint or the varint
   * ends in a superfluous zero group.
   */
  function ReadVarint(bs: seq<Byte>): (r: Option<(nat, nat)>)
    ensures r.Some? ==> 1 <= r.value.1 <= |bs|
    ensures r.Some? && r.value.1 == 1 ==> r.value.0 == bs[0]
  {
    if |bs| == 0 then None
    else if bs[0] < 0x80 then Some((bs[0], 1))
    else
      match ReadVarint(bs[1..])
      case None => None
      case Some((v, k)) => if v == 0 then None else Some((bs[0] - 0x80 + 0x80 * v, k + 1))
  }

  /** Reading a varint back returns its value and length, whatever follows it. */
  lemma {:induction false} ReadVarintOfVarint(n: nat, rest: seq<Byte>)
    ensures ReadVarint(Varint(n) + rest) == Some((n, |Varint(n)|))
  {
    if n >= 0x80 {
      var bs := Varint(n) + rest;
      assert bs[1..] == Varint(n / 0x80) + rest;
      ReadVarintOfVarint(n / 0x80, rest);
    }
  }

  /** The bytes a varint is read from are that value's encoding. */
  lemma {:induction false} VarintOfReadVarint(bs: seq<Byte>)
    requires ReadVarint(bs).Some?
    ensures bs[..ReadVarint(bs).value.1] == Varint(ReadVarint(bs).value.0)
  {
    if bs[0] >= 0x80 {
      var v, k := ReadVarintStep(bs);
      VarintOfReadVarint(bs[1..]);
      SevenBitGroup(bs[0] - 0x80, v);
      PrefixCons(bs, k);
    } else {
      assert bs[..1] == [bs[0]];
    }
  }

  /** One continuation byte of `ReadVarint`: its low seven bits, then a non-zero remainder. */
  lemma ReadVarintStep(bs: seq<Byte>) returns (v: nat, k: nat)
    requires ReadVarint(bs).Some? && bs[0] >= 0x80
    ensures ReadVarint(bs[1..]) == Some((v, k)) && v > 0 && k + 1 <= |bs|
    ensures ReadVarint(bs) == Some((bs[0] - 0x80 + 0x80 * v, k + 1))
  {
    v, k := ReadVarint(bs[1..]).value.0, ReadVarint(bs[1..]).value.1;
  }

  lemma PrefixCons(bs: seq<Byte>, k: nat)
    requires k + 1 <= |bs|
    ensures bs[..k + 1] == [bs[0]] + bs[1..][..k]
  {
  }

  /** A low seven-bit group followed by a non-zero remainder encodes as that group and the remainder. */
  lemma SevenBitGroup(low: nat, v: nat)
    requires low < 0x80 && v > 0
    ensures Varint(low + 0x80 * v) == [0x80 + low] + Varint(v)
  {
    var n := low + 0x80 * v;
    assert n / 0x80 == v && n % 0x80 == low;
  }

  function Encode(m: Multihash): seq<Byte>
  {
    Varint(m.code) + Varint(m.length) + m.digest
  }

  /** Reads a multihash; `None` when a varint is cut short or the digest is not of the announced length. */
  function Decode(bs: seq<Byte>): (r: Option<Multihash>)
    ensures r.Some? ==> WellFormed(r.value)
  {
    match ReadVarint(bs)
    case None => None
    case Some((code, k1)) =>
      match ReadVarint(bs[k1..])
      case None => None
      case Some((length, k2)) =>
        if |bs[k1..][k2..]| == length then Some(Multihash(code, length, bs[k1..][k2..])) else None
  }

  /** Decoding an encoded well-formed multihash gives it back. */
  lemma DecodeEncode(m: Multihash)
    requires WellFormed(m)
    ensures Decode(Encode(m)) == Some(m)
  {
    var c, l := Varint(m.code), Varint(m.length);
    var bs := Encode(m);
    assert bs == c + (l + m.digest);
    ReadVarintOfVarint(m.code, l + m.digest);
    assert bs[|c|..] == l + m.digest;
    ReadVarintOfVarint(m.length, m.digest);
    assert (l + m.digest)[|l|..] == m.digest;
  }

  /** Whatever decodes is the encoding of what it decodes to. */
  lemma EncodeDecode(bs: seq<Byte>)
    requires Decode(bs).Some?
    ensures Encode(Decode(bs).value) == bs
  {
    var m := Decode(bs).value;
    var k1 := ReadVarint(bs).value.1;
    var rest := bs[k1..];
    var k2 := ReadVarint(rest).value.1;
    VarintOfReadVarint(bs);
    VarintOfReadVarint(rest);
    assert m.digest == rest[k2..];
    SplitAt(rest, k2);
    SplitAt(bs, k1);
  }

  lemma SplitAt(s: seq<Byte>, k: nat)
    requires k <= |s|
    ensures s[..k] + s[k..] == s
  {
  }

  /** The triple `Split` should hand the factory for a multihash. */
  function Intended(m: Multihash): FactoryArgs
  {
    FactoryArgs("0x" + Hash16(m.digest), Num(m.code), Num(m.length))
  }

  /**
   * The single-byte reading of `Split` gives the multihash's code, length and
   * digest exactly when both are below 0x80, that is, when each varint is one byte.
   */
  lemma SplitReadsMultihash(m: Multihash)
    requires WellFormed(m)
    ensures Split(Encode(m)) == Intended(m) <==> m.code < 0x80 && m.length < 0x80
  {
    var bs := Encode(m);
    SplitClosedForm(bs);
    SplitSpecMultihash(m);
  }

  lemma SplitSpecMultihash(m: Multihash)
    requires WellFormed(m)
    ensures SplitSpec(Encode(m)) == Intended(m) <==> m.code < 0x80 && m.length < 0x80
  {
    var bs := Encode(m);
    if m.code < 0x80 && m.length < 0x80 {
      assert bs == [m.code, m.length] + m.digest;
      assert bs[2..] == m.digest;
    } else {
      assert |bs| > 2 + |m.digest|;
      Hash16Shape(bs[2..]);
      Hash16Shape(m.digest);
      assert |SplitSpec(bs).ipfsHash| != |Intended(m).ipfsHash|;
    }
  }

  /**
   * For the identifiers IPFS produces (sha2-256, a 32-byte digest) the factory
   * receives 0x12, 0x20 and a `bytes32`-sized hexadecimal digest.
   */
  lemma SplitSha256(digest: seq<Byte>)
    requires |digest| == 32
    ensures Split(Encode(Multihash(Sha2_256, 32, digest))) == FactoryArgs("0x" + Hash16(digest), Num(0x12), Num(0x20))
    ensures |Split(Encode(Multihash(Sha2_256, 32, digest))).ipfsHash| == 66
  {
    SplitReadsMultihash(Multihash(Sha2_256, 32, digest));
    Hash16Shape(digest);
  }

  /**
   * For bytes that decode as a multihash, `Split` agrees with the decoder
   * exactly when the first two bytes are below 0x80.
   */
  lemma SplitAgreesWithDecode(bs: seq<Byte>)
    requires Decode(bs).Some?
    ensures |bs| >= 2
    ensures Split(bs) == Intended(Decode(bs).value) <==> bs[0] < 0x80 && bs[1] < 0x80
  {
    var m := Decode(bs).value;
    EncodeDecode(bs);
    LeadingBytes(m);
    SplitReadsMultihash(m);
  }

  /** Both leading bytes of an encoding are below 0x80 exactly when both varints are single bytes. */
  lemma LeadingBytes(m: Multihash)
    ensures |Encode(m)| >= 2
    ensures Encode(m)[0] < 0x80 && Encode(m)[1] < 0x80 <==> m.code < 0x80 && m.length < 0x80
  {
    var c, l := Varint(m.code), Varint(m.length);
    var bs := Encode(m);
    assert bs == c + (l + m.digest);
    assert bs[0] == c[0];
    if m.code < 0x80 {
      assert bs[1] == l[0];
    } else {
      assert bs[1] == c[1];
    }
  }
}
