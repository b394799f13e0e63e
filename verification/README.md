# Vector-mask layer-info decoder of psd.rb, in Dafny

psd.rb reads Photoshop documents. Each layer carries "additional layer
information" blocks, and each block is tagged with a four-character key.
`PSD::VectorMask` decodes the blocks tagged `vmsk` or `vsms`, the vector
mask setting. Such a block's payload holds:

- a 32-bit version word, which the decoder reads and discards;
- a 32-bit control word, whose bits 0, 1 and 2 give `invert`, `not_link`
  and `disable`;
- an array of 26-byte path records. Their count is `(length - 10) / 26`,
  where `length` is the declared payload length.

This project models that decoder as pure functions over a byte sequence
with an explicit cursor, and proves properties of it.

- `wrappers.dfy` (`Wrappers`): `Option`, and a `Result` whose error is
  `UnexpectedEof(offset, count)`.
- `bits.dfy` (`Bits`): Ruby's `Integer#&` and `Integer#^` on unbounded
  integers, for a non-negative second operand. Each integer is treated as
  two's complement with infinite sign extension. `BitAt` gives bit `k`, and the lemmas state `&` and `^` bit by
  bit.
- `cursor.dfy` (`Cursor`): bytes (`uint8`) and `read_int`, a big-endian
  signed 32-bit read that advances the cursor by four bytes. It also
  defines the encoder that inverts it.
- `vector_mask.dfy` (`VectorMask`): `should_parse?`, the three flags, the
  record count, the record loop and `parse`.
- `vector_mask_properties.dfy` (`VectorMaskProperties`): lemmas that relate
  several decodes, and a reference encoder for payloads.

Ruby's `/` floors, and so does Dafny's `/` when the divisor is positive. A
length below 10 therefore gives a negative `num_records`, and
`Integer#times` then runs zero times. The model keeps this behaviour
(`RecordCount`, `PathCount`).

The constant 10 is two more than the eight header bytes the decoder
actually reads. The model keeps it, and two lemmas spell out what it
means:

- `RoundTrip`: a payload declared two bytes longer than its header and
  records decodes to all of its records.
- `ExactLengthDropsLastRecord`: a payload declared at exactly that size
  loses its last record.

## Model

| member | source | states |
|---|---|---|
| VectorMask.ShouldParse | lib/psd/layer/info/vector_mask.rb:5-7 | a key is accepted iff it is "vmsk" or "vsms"; every other key, including other spellings or lengths, is rejected |
| VectorMask.Decode | lib/psd/layer/info/vector_mask.rb:4-11 | a block is handled iff its key is one of the two accepted keys, and both keys are decoded by the same parse, so they yield identical results |
| Cursor.ReadInt | lib/psd/layer/info/vector_mask.rb:12-13 | the read succeeds iff four bytes remain. It yields the signed big-endian word at the cursor, always within the 32-bit range, and advances the cursor by exactly 4. Otherwise it fails with an end-of-input error at the cursor |
| Cursor.ReadIntEncodeInt | lib/psd/layer/info/vector_mask.rb:12-13 | reading back a four-byte encoding of any 32-bit value, at any position, returns that value and advances by 4 |
| Bits.Pow2 | lib/psd/layer/info/vector_mask.rb:16-17 | `0x01 << k` is a positive power of two (at least 1), so the masks on lines 16 and 17 are never zero |
| Bits.And | lib/psd/layer/info/vector_mask.rb:15-17 | Ruby's `a & b`, modelled for a non-negative mask `b` only (the source's masks are 1, 2 and 4); the result is a natural number that never exceeds the mask |
| Bits.AndBits | lib/psd/layer/info/vector_mask.rb:15-17 | the model of Ruby's `&` is bitwise conjunction: bit k of `a & b` is set iff bit k is set in both |
| Bits.AndPow2 | lib/psd/layer/info/vector_mask.rb:16-17 | masking with `1 << k` keeps bit k in place and clears the rest, so the result is positive iff bit k is set |
| VectorMask.Invert | lib/psd/layer/info/vector_mask.rb:15 | `invert` is bit 0 of the control word, so it is the integer 0 or 1 (not a boolean) |
| VectorMask.NotLink | lib/psd/layer/info/vector_mask.rb:16 | `not_link` is true iff bit 1 of the control word is set |
| VectorMask.Disable | lib/psd/layer/info/vector_mask.rb:17 | `disable` is true iff bit 2 of the control word is set |
| VectorMaskProperties.FlagsFollowTheirBitOnly | lib/psd/layer/info/vector_mask.rb:15-17 | flipping bit j of the control word toggles exactly the flag held in bit j, and leaves the other flags unchanged; flipping bits 3 and up changes no flag |
| VectorMaskProperties.FlagsIgnoreSign | lib/psd/layer/info/vector_mask.rb:13-17 | reading the control word as signed or as unsigned gives the same three flags |
| VectorMaskProperties.FlagsFromLastByte | lib/psd/layer/info/vector_mask.rb:13-17 | the three flags are determined by the last, least significant byte of the big-endian control word alone |
| VectorMask.RecordCount | lib/psd/layer/info/vector_mask.rb:20 | `num_records` is the floor of (length - 10) / 26: 26·n ≤ length - 10 < 26·(n + 1), and it is negative for lengths below 10 |
| VectorMask.PathCount | lib/psd/layer/info/vector_mask.rb:20-22 | the loop runs max(0, floor((length - 10) / 26)) times. That is zero for every length below 10, and otherwise the floor characterisation above |
| VectorMask.ReadPathRecords | lib/psd/layer/info/vector_mask.rb:21-24 | reading n records succeeds iff 26·n bytes remain. Record i is the 26 bytes at offset 26·i, so file order is kept, and the cursor ends 26·n further on. A failure names a read that really runs past the input |
| VectorMask.Parse | lib/psd/layer/info/vector_mask.rb:11-25 | decoding succeeds iff the input holds 8 + 26·PathCount(length) bytes from the cursor. Then the flags are those of the word at offset 4, there are PathCount(length) paths, and path i is the 26 bytes at offset 8 + 26·i. The cursor ends at 8 + 26·(number of paths). A failure names a read past the input |
| VectorMaskProperties.VersionIgnored | lib/psd/layer/info/vector_mask.rb:12-17 | inputs that differ only in the four version bytes, or anywhere before the cursor, decode to the same mask and the same cursor |
| VectorMaskProperties.ShortPayloadHasNoPaths | lib/psd/layer/info/vector_mask.rb:20-24 | for a declared length below 10, decoding succeeds iff 8 bytes remain, yields no path, and consumes exactly 8 bytes |
| VectorMaskProperties.StaysInsidePayload | lib/psd/layer/info/vector_mask.rb:12-24 | for a declared length of at least 10, the decoder ends at least 2 bytes before the end of the payload, so it never reads past its payload |
| VectorMaskProperties.TinyPayloadOverrunsPayload | lib/psd/layer/info/vector_mask.rb:12-13 | for a declared length below 8, a successful decode ends past the payload, because both header words are read regardless of length |
| VectorMaskProperties.DecodeEncodedPayload | lib/psd/layer/info/vector_mask.rb:11-25 | decoding an encoded payload (version, control word, records), at any position and with any declared length, yields the control word's flags and the first PathCount(length) records in order |
| VectorMaskProperties.RoundTrip | lib/psd/layer/info/vector_mask.rb:19-24 | an encoded payload declared two bytes longer than it is decodes to every record, with the flags of its control word. The cursor ends right after the last record |
| VectorMaskProperties.ExactLengthDropsLastRecord | lib/psd/layer/info/vector_mask.rb:19-22 | an encoded payload with at least one record, declared at its exact size, decodes to all records but the last. This follows from the allowance of 10 |

## Left out

- The path-record parser, `PathRecord.new`, is not part of this model. Its
  selector dispatch and 8.24 fixed-point points are therefore not modelled.
  A record is kept as the 26 bytes it is read from. This matches the
  divisor 26, which assumes that each record consumes exactly 26 bytes.
- The `LayerInfo` base class and the file reader are not part of this model.
  The model assumes that this unseen caller sets `@length` to the declared
  payload length and moves to the end of the block after `parse`. Their effects enter only as parameters: the declared length and
  the cursor position. Reading past the end of the input is modelled as an
  `UnexpectedEof` failure. Ruby's actual behaviour on a short read depends on
  the unseen reader.
- `read_int` is taken to be a signed big-endian 32-bit read, the reading of
  its name in the unseen reader. `FlagsIgnoreSign` shows that the
  choice does not affect any decoded field.
- Bits.And: models `a & b` only for a non-negative mask `b`, because the
  decoder's masks are the constants 1, 2 and 4. A negative mask is not
  modelled.
- The version word has no meaning in the decoder, so none is modelled.
- `vmsk` and `vsms` are treated identically, as the code does.
- A count `(length - 10) / 26` that is not a whole number is silently
  floored, as the code does. It is neither flagged nor rejected.
- The integration test `spec/parsing_spec.rb` is not modelled. It reads
  fixture documents from disk and checks header, layer and layer-comp code
  that this model does not cover.
- The reference encoder (`Concat`, `EncodePayload`) is not code of the
  library. It exists only to state the round-trip lemmas.
