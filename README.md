# Multihash split of the Kelsen registry migration

The migration script `migrations/_3_registries.js` deploys organs and nomination
procedures through the Kelsen factory. Each deployment first stores a small JSON
metadata record on IPFS. It then passes the record's IPFS hash to the factory as
three values:

- `ipfsHash`: `"0x"` followed by the digest in hexadecimal;
- `hashFunction`: the multihash function code;
- `hashSize`: the digest length.

To get them, the script base58-decodes the hash into bytes. It renders every byte
as two lower-case hexadecimal digits and joins them into `hash16`. Then it cuts
`hash16` at characters 2 and 4, and parses the first two pieces with
`parseInt(…, 16)`. `_deployOrgan` (lines 29-33) and `_deployNominationProcedure`
(lines 59-63) contain the same five lines.

This project models that computation in Dafny, starting from the decoded bytes.
Every JavaScript built-in it calls is modelled with its own edge cases:

- `substring` clamps and swaps its indices;
- `slice(-2)` keeps the last two characters;
- `x & 0xFF` reduces modulo 256;
- `Number#toString(16)` writes digits without padding;
- `parseInt(s, 16)` skips white space, a sign and a `0x` prefix, reads the longest
  run of digits, and gives NaN when there is none.

NaN is a value of the model (`JsNumber.Number`). The modules are these:

- `JsText` (js_text.dfy): the string built-ins.
- `JsNumber` (js_number.dfy): the number built-ins.
- `ByteRendering` (byte_rendering.dfy): the rendering of bytes as `hash16`, and a
  decoder that inverts it.
- `Registries` (registries.dfy): the split, an independent field-by-field
  statement of it (`SplitSpec`), re-assembly of a triple into bytes, and the two
  factory calls.
- `Multihash` (multihash.dfy): a reference encoder and decoder for the format of
  the IETF draft "draft-multiformats-multihash", section 2. That section
  defines the layout `<code varint><length varint><digest>`. The module shows
  exactly when the script's one-byte-per-field reading agrees with the format.

The code treats both varints as single bytes. Its result equals the intended
`(digest, code, length)` exactly when the code and the length are both below
0x80. That holds for the sha2-256 hashes IPFS produces (0x12, 0x20).

The system's design describes a content digest with real varints, a check that
the announced size matches the digest, and errors for malformed input. The
script does none of these. The model follows the script: any byte sequence is
split, and a field with no byte behind it is NaN.

`Split` uses `Hash16`, which pads each byte to two digits and concatenates the
results. `Hash16IsArrayFromJoin` proves that this is exactly line 30's
`Array.from(bytes, callback).join('')` with the callback as written.

## Model

| member | source | states |
|---|---|---|
| JsText.Substring | migrations/_3_registries.js:31-33 | `substring(start, end)` gives `s[start..end]` for in-range ordered indices, swaps reversed ones, and gives `""` when both are past the end |
| JsText.Slice | migrations/_3_registries.js:30 | `slice(-k)` gives the last `k` characters, or the whole string when it is shorter; a non-negative start gives the suffix from that index |
| JsText.Join | migrations/_3_registries.js:30 | `join('')` concatenates the rendered pieces in order; with `ArrayFrom` it is tied to `Hash16` by `Hash16IsArrayFromJoin` |
| JsText.ToLowerCase | migrations/_3_registries.js:31 | the result has the same length, contains no upper-case letter, and keeps every character that is not an upper-case letter |
| JsText.ToLowerCaseNoUpper | migrations/_3_registries.js:31 | lower-casing a string without upper-case letters is the identity |
| JsNumber.Mask8 | migrations/_3_registries.js:30 | `x & 0xFF` lies in 0..255, is congruent to `x` modulo 256, and is `x` itself for a byte |
| JsNumber.HexDigit | migrations/_3_registries.js:30 | the digit written for `d < 16` is a lower-case hex digit whose value is `d` |
| JsNumber.ToHexString | migrations/_3_registries.js:30 | `n.toString(16)` is a non-empty lower-case hex string with no leading zero, whose radix-16 value is `n`; it has one digit exactly when `n < 16` |
| JsNumber.TrimStart | migrations/_3_registries.js:32-33 | `parseInt` drops a prefix made only of white space, and what remains does not start with white space |
| JsNumber.HexDigitPrefix | migrations/_3_registries.js:32-33 | `parseInt` reads the longest prefix of hex digits: a prefix, all digits, followed by a non-digit or the end |
| JsNumber.HexDigitPrefixOfHexString | migrations/_3_registries.js:32-33 | a string of hex digits is read entirely |
| JsNumber.ParseInt16 | migrations/_3_registries.js:32-33 | `parseInt("", 16)` is NaN, and a non-empty string of hex digits parses to its radix-16 value |
| ByteRendering.RenderByte | migrations/_3_registries.js:30 | the callback `byte => ('0' + (byte & 0xFF).toString(16)).slice(-2)` as written; `RenderByteDigits` states what it yields |
| ByteRendering.ArrayFrom | migrations/_3_registries.js:30 | `Array.from(bytes, f)`, one `f(byte)` per byte in order; `Hash16IsArrayFromJoin` ties it, with `Join` and `RenderByte`, to `Hash16` |
| ByteRendering.Hash16 | migrations/_3_registries.js:30 | `hash16`, each byte padded to two digits and concatenated; `Hash16IsArrayFromJoin` proves it equal to line 30's expression, `Hash16Shape` and `Hash16Chunk` give its layout |
| ByteRendering.ToHexStringOfByte | migrations/_3_registries.js:30 | `toString(16)` of a byte is one digit below 16 and two digits, high first, from 16 on |
| ByteRendering.PaddedHexValue | migrations/_3_registries.js:30 | the padded form of a byte is two lower-case hex digits whose radix-16 value is the byte |
| ByteRendering.RenderByteDigits | migrations/_3_registries.js:30 | the callback `('0' + (byte & 0xFF).toString(16)).slice(-2)` renders the low byte of its argument as exactly two lower-case hex digits, high digit first, zero-padded, whose value is that byte |
| ByteRendering.Hash16IsArrayFromJoin | migrations/_3_registries.js:30 | `Array.from(bytes, callback).join('')` equals `Hash16`, the padded digits of each byte concatenated in order |
| ByteRendering.Hash16Append | migrations/_3_registries.js:30 | rendering distributes over concatenation of byte buffers |
| ByteRendering.Hash16Shape | migrations/_3_registries.js:30 | `hash16` has two characters per byte and holds only lower-case hex digits |
| ByteRendering.Hash16Chunk | migrations/_3_registries.js:30 | characters `[2i, 2i+2)` of `hash16` are the two padded digits of byte `i` |
| ByteRendering.ParsePaddedHex | migrations/_3_registries.js:30-33 | `parseInt(…, 16)` of a rendered byte returns that byte |
| ByteRendering.DecodeHex | migrations/_3_registries.js:30 | the inverse of the rendering succeeds exactly on even-length hex strings, with one byte per two digits |
| ByteRendering.DecodeHash16 | migrations/_3_registries.js:30 | decoding `hash16` returns the original bytes |
| ByteRendering.Hash16OfDecoded | migrations/_3_registries.js:30 | a string that decodes to some bytes is their rendering, up to letter case |
| ByteRendering.Hash16Injective | migrations/_3_registries.js:30 | different byte buffers have different renderings |
| ByteRendering.LowerCaseOfHash16 | migrations/_3_registries.js:30-31 | `toLowerCase()` of a rendering changes nothing |
| Registries.Split | migrations/_3_registries.js:29-33 | the split as written, with `substring`, `toLowerCase` and `parseInt(…, 16)`; `SplitClosedForm` equates it with the field-by-field `SplitSpec`, `ReassembleSplit` and `SplitReassemble` give the round trip |
| Registries.SplitHashFunction | migrations/_3_registries.js:32 | `hashFunction` is the first byte, and NaN for an empty buffer |
| Registries.SplitHashSize | migrations/_3_registries.js:33 | `hashSize` is the second byte, and NaN for buffers shorter than two bytes |
| Registries.SplitIpfsHash | migrations/_3_registries.js:31 | `ipfsHash` is `"0x"` followed by the lower-case rendering of the bytes after the first two; its length is 2 plus two characters per byte after the second, so it is exactly `"0x"` for two bytes or fewer |
| Registries.DigestOfHash16 | migrations/_3_registries.js:31 | `hash16.substring(4)` is the rendering of the bytes after the first two, and empty for shorter buffers |
| Registries.SplitClosedForm | migrations/_3_registries.js:29-33 | the split equals the field-by-field reference `SplitSpec` for every input length |
| Registries.SplitRejoin | migrations/_3_registries.js:30-33 | for two or more bytes, re-rendering `hashFunction` and `hashSize` and appending the digits of `ipfsHash` gives back `hash16` |
| Registries.ReassembleSplit | migrations/_3_registries.js:29-35 | the triple re-assembles to the original bytes when there are at least two, and to nothing for shorter buffers |
| Registries.SplitReassemble | migrations/_3_registries.js:29-33 | every triple that re-assembles to some bytes is what the split makes of those bytes, up to letter case |
| Registries.SplitInjective | migrations/_3_registries.js:29-33 | different byte buffers, of any length, give different triples |
| Registries.OrganCall | migrations/_3_registries.js:29-35 | `_deployOrgan` calls `createOrgan`, and its triple re-assembles to the metadata bytes exactly when there are at least two of them |
| Registries.ProcedureCall | migrations/_3_registries.js:59-65 | `_deployNominationProcedure` calls `createProcedure` exactly when `procedureType` is a key of `nominationsProcedures` (lines 12-21), with the same triple `_deployOrgan` computes for the same bytes, followed by the nominating organ; any other type makes line 65 throw, modelled as `None` |
| Multihash.SplitReadsMultihash | migrations/_3_registries.js:29-33 | for a well-formed multihash, the split gives its code, length and digest exactly when both are below 0x80, that is, when each varint takes one byte |
| Multihash.SplitSha256 | migrations/_3_registries.js:29-35 | for a sha2-256 multihash with a 32-byte digest, the factory receives 0x12, 0x20 and a 66-character `ipfsHash` |
| Multihash.SplitAgreesWithDecode | migrations/_3_registries.js:29-33 | for bytes that decode as a multihash, the split agrees with the decoder exactly when the first two bytes are below 0x80 |

The reference codec in `Multihash` has its own laws, which state nothing about
the script: `Varint`, `ReadVarint`, `ReadVarintOfVarint`, `VarintOfReadVarint`,
`Decode`, `DecodeEncode` and `EncodeDecode`. They give both directions of the
varint and multihash round trips. Non-minimal varints are rejected.

## Left out

- `bs58.decode` (lines 29, 59) is a foreign library call. The model starts from the decoded bytes, so every element is a `Byte` in 0..255.
- The IPFS upload (`ipfsNode.add`, `IPFS.create`) and the check that it returned a result (lines 25-27, 53-57, 84-86) are network I/O.
- The factory calls themselves and everything after them are left out: `createOrgan`, `createProcedure`, the event-log lookup, `Organ.at`, `organ.metadata = hash`, logging and `.catch(console.error)` (lines 35-49, 65-80). The Solidity contracts they call are not part of this model. `OrganCall` and `ProcedureCall` model only the arguments.
- The `.factory` entries of `nominationsProcedures` are set by the deployment sequence (line 105) before any `_deployNominationProcedure` call. `ProcedureCall` assumes they are set; a call made before that would throw at line 65, and that case is not modelled.
- The deployment sequence in `module.exports` (lines 83-187) is left out: factory lookups, the `Promise.all` fan-out, `addMaster`/`addAdmin`/`addNorm`/`remove*` and logging. These are asynchronous contract calls whose behaviour lives in code outside this model.
- `multihashToCid` in `migrations/2_demo.js` always returns an empty content identifier, and joins its fields in the opposite order. It is not an inverse of the split, so it is not modelled. The demo's other reads and the permission constants are not modelled either.
- JsNumber.ParseInt16: results are unbounded integers. The model ignores the loss of precision above 2^53 and does not distinguish `-0`. Neither case can arise from a two-digit rendering.
- JsText.ToLowerCase: only the ASCII letters are mapped, not the full Unicode case mapping. The strings the split lowers contain only hex digits.
- JsNumber.ToHexString: covers non-negative integers only. Its argument is always a masked byte.
- JsNumber.Mask8: integer arguments only. A buffer element is never fractional.
- JsText: strings are sequences of Unicode scalar values, not UTF-16 code units. This is the same for every string the split handles.
- Multihash.ReadVarint: does not enforce the unsigned-varint limit of nine bytes.
