/** The byte cursor the layer-info readers draw from: a byte sequence and
    an explicit position. Only the one read the vector-mask decoder uses is
    modelled, the big-endian 32-bit signed integer read (`read_int`). */
module Cursor {
  import opened Wrappers

  /** A byte of the input. */
  type uint8 = x: int | 0 <= x < 256

  const TWO_TO_THE_31: int := 0x8000_0000
  const TWO_TO_THE_32: int := 0x1_0000_0000

  /** `v` fits in a signed 32-bit word. */
  predicate IsInt32(v: int) {
    -TWO_TO_THE_31 <= v < TWO_TO_THE_31
  }

  /** Four bytes read as an unsigned big-endian number. */
  function Uint32Of(word: seq<uint8>): (u: nat)
    requires |word| == 4
    ensures u < TWO_TO_THE_32
  {
    ((word[0] as int * 256 + word[1]) * 256 + word[2]) * 256 + word[3]
  }

  /** The four bytes at `pos` read as an unsigned big-endian number. */
  function Uint32At(data: seq<uint8>, pos: nat): (u: nat)
    requires pos + 4 <= |data|
    ensures u < TWO_TO_THE_32
  {
    Uint32Of(data[pos..pos + 4])
  }

  /** The signed 32-bit value with the same two's complement bits as the
      unsigned word `u`. */
  function ToSigned(u: int): (v: int)
    requires 0 <= u < TWO_TO_THE_32
    ensures IsInt32(v)
    ensures v == u || v == u - TWO_TO_THE_32
  {
    if u < TWO_TO_THE_31 then u else u - TWO_TO_THE_32
  }

  /** The signed big-endian 32-bit integer stored at `pos`. */
  function Int32At(data: seq<uint8>, pos: nat): (v: int)
    requires pos + 4 <= |data|
    ensures IsInt32(v)
  {
    ToSigned(Uint32At(data, pos))
  }

  /** `read_int`: the signed 32-bit integer at the cursor and the cursor
      advanced past it, or an end-of-input error when fewer than four
      bytes remain. */
  function ReadInt(data: seq<uint8>, pos: nat): (r: Result<(int, nat)>)
    ensures r.Success? <==> pos + 4 <= |data|
    ensures r.Success? ==> r.value.1 == pos + 4 && IsInt32(r.value.0)
    ensures r.Success? ==> r.value.0 == Int32At(data, pos)
    ensures r.Failure? ==> r.error == UnexpectedEof(pos, 4) && pos + 4 > |data|
  {
    if pos + 4 <= |data| then Success((Int32At(data, pos), pos + 4))
    else Failure(UnexpectedEof(pos, 4))
  }

  /** The four big-endian two's complement bytes of a 32-bit value: the
      inverse of `ReadInt`. */
  function EncodeInt(v: int): (bytes: seq<uint8>)
    requires IsInt32(v)
    ensures |bytes| == 4
  {
    var u := if v < 0 then v + TWO_TO_THE_32 else v;
    var q1 := u / 256;
    var q2 := q1 / 256;
    var q3 := q2 / 256;
    [q3, q2 % 256, q1 % 256, u % 256]
  }

  /** Reading back an encoded 32-bit value, wherever it sits in the input,
      yields that value and moves the cursor by four bytes. */
  lemma ReadIntEncodeInt(prefix: seq<uint8>, v: int, suffix: seq<uint8>)
    requires IsInt32(v)
    ensures ReadInt(prefix + EncodeInt(v) + suffix, |prefix|) == Success((v, |prefix| + 4))
  {
  }
}
