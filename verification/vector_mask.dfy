/** The vector-mask layer-info decoder: the payload of an additional layer
    information block tagged `vmsk` or `vsms` (the "vector mask setting" of
    the Photoshop file format). The payload holds a version word, a control
    word whose low three bits are the mask flags, and an array of 26-byte
    path records. */
module VectorMask {
  import opened Wrappers
  import opened Bits
  import opened Cursor

  /** Bytes in one path record. */
  const PATH_RECORD_SIZE: nat := 26

  /** Bytes the decoder reads before the first path record: version and
      control word. */
  const HEADER_SIZE: nat := 8

  /** What the record count subtracts from the payload length before
      dividing. It is two more than `HEADER_SIZE`; the decoder keeps it as
      an empirical constant. */
  const LENGTH_ALLOWANCE: int := 10

  /** One path record, kept undecoded: the 26 bytes it was read from.
      Whatever the path-record parser makes of them is a function of
      these bytes. */
  datatype PathRecord = PathRecord(raw: seq<uint8>)

  /** The decoded block. `invert` is the integer 0 or 1, as the decoder
      leaves it; the two other flags are booleans. */
  datatype VectorMask = VectorMask(invert: int, notLink: bool, disable: bool, paths: seq<PathRecord>)

  /** The layer-info keys this decoder handles. */
  const KEYS: seq<string> := ["vmsk", "vsms"]

  /** `should_parse?`: whether a layer-info block with this key is a
      vector mask. */
  function ShouldParse(key: string): (r: bool)
    ensures r <==> key == "vmsk" || key == "vsms"
    ensures r ==> |key| == 4
  {
    key in KEYS
  }

  /** The `invert` field: the control word masked with 1. */
  function Invert(tag: int): (r: int)
    ensures r == BitAt(tag, 0)
    ensures r == 0 || r == 1
  {
    AndPow2(tag, 0);
    And(tag, 1)
  }

  /** The `not_link` field: whether masking with `1 << 1` leaves anything. */
  function NotLink(tag: int): (r: bool)
    ensures r <==> BitAt(tag, 1) == 1
  {
    AndPow2(tag, 1);
    And(tag, Pow2(1)) > 0
  }

  /** The `disable` field: whether masking with `1 << 2` leaves anything. */
  function Disable(tag: int): (r: bool)
    ensures r <==> BitAt(tag, 2) == 1
  {
    AndPow2(tag, 2);
    And(tag, Pow2(2)) > 0
  }

  /** `num_records`: the payload length less the allowance, divided by the
      record size with flooring division, so it is negative for lengths
      below the allowance. */
  function RecordCount(length: int): (n: int)
    ensures PATH_RECORD_SIZE * n <= length - LENGTH_ALLOWANCE < PATH_RECORD_SIZE * (n + 1)
  {
    (length - LENGTH_ALLOWANCE) / PATH_RECORD_SIZE
  }

  /** How many path records are read: `Integer#times` runs its block
      `num_records` times, and not at all when that is negative. */
  function PathCount(length: int): (n: nat)
    ensures length < LENGTH_ALLOWANCE ==> n == 0
    ensures length >= LENGTH_ALLOWANCE ==>
              PATH_RECORD_SIZE * n <= length - LENGTH_ALLOWANCE < PATH_RECORD_SIZE * (n + 1)
  {
    var count := RecordCount(length);
    if count < 0 then 0 else count
  }

  /** Reads `n` path records from `pos` on, in order, and returns them
      with the cursor after the last one; fails when the input ends first.
      The cursor never stands past the end of the input. */
  function ReadPathRecords(data: seq<uint8>, pos: nat, n: nat): (r: Result<(seq<PathRecord>, nat)>)
    requires pos <= |data|
    ensures r.Success? <==> pos + PATH_RECORD_SIZE * n <= |data|
    ensures r.Success? ==> |r.value.0| == n && r.value.1 == pos + PATH_RECORD_SIZE * n
    ensures r.Success? ==>
              forall i :: 0 <= i < n ==>
                r.value.0[i].raw == data[pos + PATH_RECORD_SIZE * i .. pos + PATH_RECORD_SIZE * (i + 1)]
    ensures r.Failure? ==> pos <= r.error.offset && r.error.offset + r.error.count > |data|
    decreases n
  {
    if n == 0 then
      Success(([], pos))
    else if pos + PATH_RECORD_SIZE > |data| then
      Failure(UnexpectedEof(pos, PATH_RECORD_SIZE))
    else
      var record := PathRecord(data[pos .. pos + PATH_RECORD_SIZE]);
      var rest :- ReadPathRecords(data, pos + PATH_RECORD_SIZE, n - 1);
      Success(([record] + rest.0, rest.1))
  }

  /** `parse`: decodes a vector-mask payload of the given declared length
      starting at `pos`, returning the mask and the cursor after the last
      byte read. */
  function Parse(length: int, data: seq<uint8>, pos: nat): (r: Result<(VectorMask, nat)>)
    ensures r.Success? <==> pos + HEADER_SIZE + PATH_RECORD_SIZE * PathCount(length) <= |data|
    ensures r.Success? ==>
              && r.value.0.invert == Invert(Int32At(data, pos + 4))
              && r.value.0.notLink == NotLink(Int32At(data, pos + 4))
              && r.value.0.disable == Disable(Int32At(data, pos + 4))
    ensures r.Success? ==>
              && |r.value.0.paths| == PathCount(length)
              && r.value.1 == pos + HEADER_SIZE + PATH_RECORD_SIZE * |r.value.0.paths|
    ensures r.Success? ==>
              forall i :: 0 <= i < |r.value.0.paths| ==>
                r.value.0.paths[i].raw
                == data[pos + HEADER_SIZE + PATH_RECORD_SIZE * i .. pos + HEADER_SIZE + PATH_RECORD_SIZE * (i + 1)]
    ensures r.Failure? ==> pos <= r.error.offset && r.error.offset + r.error.count > |data|
  {
    var version :- ReadInt(data, pos);
    var tag :- ReadInt(data, version.1);
    var paths :- ReadPathRecords(data, tag.1, PathCount(length));
    Success((VectorMask(Invert(tag.0), NotLink(tag.0), Disable(tag.0), paths.0), paths.1))
  }

  /** The layer-info dispatcher's view: a block whose key this decoder does
      not accept is left to other decoders (`None`); both accepted keys are
      decoded by the same `Parse`. */
  function Decode(key: string, length: int, data: seq<uint8>, pos: nat): (r: Option<Result<(VectorMask, nat)>>)
    ensures r.Some? <==> key == "vmsk" || key == "vsms"
    ensures r.Some? ==> r.value == Parse(length, data, pos)
  {
    if ShouldParse(key) then Some(Parse(length, data, pos)) else None
  }
}
