/**
 * The rendering of decoded multihash bytes as `hash16`: every byte becomes
 * two lower-case, zero-padded hexadecimal digits and the pieces are joined
 * in order (migrations/_3_registries.js, lines 30 and 60). A decoder for such
 * strings shows that nothing is lost.
 */
module ByteRendering {
  import opened Options
  import opened JsText
  import opened JsNumber

  /** An element of the byte buffer `bs58.decode` returns. */
  type Byte = x: int | 0 <= x < 256

  /**
   * The mapping callback `byte => ('0' + (byte & 0xFF).toString(16)).slice(-2)`.
   * What it yields is stated by `RenderByteDigits`.
   */
  function RenderByte(x: int): string
  {
    Slice("0" + ToHexString(Mask8(x)), -2)
  }

  /** Two lower-case hexadecimal digits for a byte, high digit first. */
  function PaddedHex(b: Byte): string
  {
    [HexDigit(b / 16), HexDigit(b % 16)]
  }

  /** A padded byte is two lower-case digits whose value is the byte. */
  lemma PaddedHexValue(b: Byte)
    ensures |PaddedHex(b)| == 2 && IsLowerHex(PaddedHex(b)) && IsHexString(PaddedHex(b))
    ensures HexValue(PaddedHex(b)) == b
  {
    var r := PaddedHex(b);
    assert r[..1] == [r[0]] && r[..1][..0] == [];
    assert HexValue(r[..1]) == b / 16;
    assert HexValue(r) == 16 * (b / 16) + b % 16;
  }

  /** `toString(16)` of a byte: one digit below 16, two digits from 16 on. */
  lemma ToHexStringOfByte(n: Byte)
    ensures ToHexString(n) == if n < 16 then [HexDigit(n)] else [HexDigit(n / 16), HexDigit(n % 16)]
  {
    if n >= 16 {
      assert ToHexString(n / 16) == [HexDigit(n / 16)];
    }
  }

  /**
   * The callback writes the low byte of `x` as exactly two lower-case
   * hexadecimal digits, high digit first, padded with `'0'`.
   */
  lemma RenderByteDigits(x: int)
    ensures RenderByte(x) == PaddedHex(Mask8(x))
    ensures |RenderByte(x)| == 2 && IsLowerHex(RenderByte(x))
    ensures HexValue(RenderByte(x)) == Mask8(x)
  {
    var n := Mask8(x);
    ToHexStringOfByte(n);
    var padded := "0" + ToHexString(n);
    if n < 16 {
      assert HexDigit(0) == '0';
      assert padded == PaddedHex(n);
    } else {
      assert padded[1..] == PaddedHex(n);
    }
    PaddedHexValue(n);
  }

  /** `Array.from(bytes, f)`: the callback applied to each element, in order. */
  function ArrayFrom(bytes: seq<Byte>, f: int -> string): seq<string>
  {
    if |bytes| == 0 then [] else [f(bytes[0])] + ArrayFrom(bytes[1..], f)
  }

  /** `hash16`: every byte padded to two digits, concatenated in order. */
  function Hash16(bytes: seq<Byte>): string
  {
    if |bytes| == 0 then "" else PaddedHex(bytes[0]) + Hash16(bytes[1..])
  }

  /** `Hash16` is what line 30 computes: `Array.from(bytes, RenderByte).join('')`. */
  lemma {:induction false} Hash16IsArrayFromJoin(bytes: seq<Byte>)
    ensures Hash16(bytes) == Join(ArrayFrom(bytes, RenderByte))
  {
    if |bytes| > 0 {
      Hash16IsArrayFromJoin(bytes[1..]);
      RenderByteDigits(bytes[0]);
      var parts := ArrayFrom(bytes, RenderByte);
      assert parts[1..] == ArrayFrom(bytes[1..], RenderByte);
    }
  }

  /** Rendering distributes over concatenation of buffers. */
  lemma {:induction false} Hash16Append(a: seq<Byte>, b: seq<Byte>)
    ensures Hash16(a + b) == Hash16(a) + Hash16(b)
  {
    if |a| == 0 {
      assert a + b == b;
    } else {
      assert (a + b)[1..] == a[1..] + b;
      Hash16Append(a[1..], b);
    }
  }

  /** `hash16` has two characters per byte, all of them lower-case hexadecimal digits. */
  lemma {:induction false} Hash16Shape(bytes: seq<Byte>)
    ensures |Hash16(bytes)| == 2 * |bytes|
    ensures IsLowerHex(Hash16(bytes)) && IsHexString(Hash16(bytes))
  {
    if |bytes| > 0 {
      Hash16Shape(bytes[1..]);
      PaddedHexValue(bytes[0]);
      var p, t := PaddedHex(bytes[0]), Hash16(bytes[1..]);
      assert forall i | 0 <= i < |p + t| :: (p + t)[i] == if i < 2 then p[i] else t[i - 2];
    }
  }

  /** Characters `[2i, 2i + 2)` of `hash16` are the padded digits of byte `i`. */
  lemma {:induction false} Hash16Chunk(bytes: seq<Byte>, i: nat)
    requires i < |bytes|
    ensures 2 * i + 2 <= |Hash16(bytes)|
    ensures Hash16(bytes)[2 * i..2 * i + 2] == PaddedHex(bytes[i])
  {
    Hash16Shape(bytes);
    if i > 0 {
      Hash16Chunk(bytes[1..], i - 1);
      var p, t := PaddedHex(bytes[0]), Hash16(bytes[1..]);
      assert (p + t)[2 * i..2 * i + 2] == t[2 * (i - 1)..2 * (i - 1) + 2];
    }
  }

  /** `parseInt(…, 16)` reads each padded byte back as that byte. */
  lemma ParsePaddedHex(b: Byte)
    ensures ParseInt16(PaddedHex(b)) == Num(b)
  {
    PaddedHexValue(b);
  }

  /**
   * The inverse of `Hash16`: a string of an even number of radix-16 digits
   * (either case) read two digits per byte; anything else is `None`.
   */
  function DecodeHex(s: string): (r: Option<seq<Byte>>)
    ensures r.Some? <==> |s| % 2 == 0 && IsHexString(s)
    ensures r.Some? ==> 2 * |r.value| == |s|
  {
    if |s| == 0 then Some([])
    else if |s| == 1 then None
    else
      HexStringCons2(s);
      if !IsHexDigit(s[0]) || !IsHexDigit(s[1]) then None
      else
        match DecodeHex(s[2..])
        case None => None
        case Some(tail) => Some([PairValue(s[0], s[1])] + tail)
  }

  /** The byte two radix-16 digits stand for. */
  function PairValue(hi: char, lo: char): Byte
    requires IsHexDigit(hi) && IsHexDigit(lo)
  {
    DigitValue(hi) * 16 + DigitValue(lo)
  }

  /** A string of two or more characters is a digit string when its first two characters and the rest are. */
  lemma HexStringCons2(s: string)
    requires |s| >= 2
    ensures IsHexString(s) <==> IsHexDigit(s[0]) && IsHexDigit(s[1]) && IsHexString(s[2..])
  {
    if IsHexDigit(s[0]) && IsHexDigit(s[1]) && IsHexString(s[2..]) {
      forall i | 2 <= i < |s| ensures IsHexDigit(s[i]) {
        assert s[i] == s[2..][i - 2];
      }
    }
  }

  /** Decoding a padded byte in front of a decodable string. */
  lemma DecodePaddedHex(b: Byte, rest: string, tail: seq<Byte>)
    requires DecodeHex(rest) == Some(tail)
    ensures DecodeHex(PaddedHex(b) + rest) == Some([b] + tail)
  {
    var s := PaddedHex(b) + rest;
    assert s[2..] == rest;
  }

  /** Decoding the rendering of a buffer gives the buffer back. */
  lemma {:induction false} DecodeHash16(bytes: seq<Byte>)
    ensures DecodeHex(Hash16(bytes)) == Some(bytes)
  {
    if |bytes| > 0 {
      DecodeHash16(bytes[1..]);
      DecodePaddedHex(bytes[0], Hash16(bytes[1..]), bytes[1..]);
      assert [bytes[0]] + bytes[1..] == bytes;
    }
  }

  /** One step of `DecodeHex`: two digits make the first byte, the rest decodes to the others. */
  lemma DecodeStep(s: string, bytes: seq<Byte>)
    requires DecodeHex(s) == Some(bytes) && |s| > 0
    ensures |bytes| > 0 && |s| >= 2 && IsHexDigit(s[0]) && IsHexDigit(s[1])
    ensures bytes[0] == PairValue(s[0], s[1])
    ensures DecodeHex(s[2..]) == Some(bytes[1..])
  {
    var tail := DecodeHex(s[2..]).value;
    assert bytes == [bytes[0]] + tail;
    assert bytes[1..] == tail;
  }

  /** Two digits read as a byte pad back to the same two digits in lower case. */
  lemma PaddedDigitPair(hi: char, lo: char)
    requires IsHexDigit(hi) && IsHexDigit(lo)
    ensures PaddedHex(PairValue(hi, lo)) == [LowerChar(hi), LowerChar(lo)]
  {
    var b := PairValue(hi, lo);
    assert b / 16 == DigitValue(hi) && b % 16 == DigitValue(lo);
  }

  /** Lower-casing the first two characters and the rest separately. */
  lemma LowerCaseCons2(s: string)
    requires |s| >= 2
    ensures ToLowerCase(s) == [LowerChar(s[0]), LowerChar(s[1])] + ToLowerCase(s[2..])
  {
  }

  /** Whatever decodes to a buffer is that buffer's rendering, up to letter case. */
  lemma {:induction false} Hash16OfDecoded(s: string, bytes: seq<Byte>)
    requires DecodeHex(s) == Some(bytes)
    ensures Hash16(bytes) == ToLowerCase(s)
  {
    if |s| > 0 {
      DecodeStep(s, bytes);
      PaddedDigitPair(s[0], s[1]);
      Hash16OfDecoded(s[2..], bytes[1..]);
      LowerCaseCons2(s);
    }
  }

  /** Different buffers have different renderings. */
  lemma Hash16Injective(a: seq<Byte>, b: seq<Byte>)
    requires Hash16(a) == Hash16(b)
    ensures a == b
  {
    DecodeHash16(a);
    DecodeHash16(b);
  }

  /** `toLowerCase()` leaves a rendering unchanged. */
  lemma LowerCaseOfHash16(bytes: seq<Byte>)
    ensures ToLowerCase(Hash16(bytes)) == Hash16(bytes)
  {
    Hash16Shape(bytes);
    ToLowerCaseNoUpper(Hash16(bytes));
  }
}
