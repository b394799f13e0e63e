/** Properties of the vector-mask decoder that relate several calls: how
    the flags depend on the control word's bits, what the version word
    does not influence, how far the decoder reads, and what it recovers
    from a payload built by a reference encoder. */
module VectorMaskProperties {
  import opened Wrappers
  import opened Bits
  import opened Cursor
  import opened VectorMask

  /** Flipping bit `j` of the control word toggles the flag stored in bit
      `j` and leaves the other two flags as they were. */
  lemma {:induction false} FlagsFollowTheirBitOnly(tag: int, j: nat)
    ensures Invert(Xor(tag, Pow2(j))) == if j == 0 then 1 - Invert(tag) else Invert(tag)
    ensures NotLink(Xor(tag, Pow2(j))) == if j == 1 then !NotLink(tag) else NotLink(tag)
    ensures Disable(Xor(tag, Pow2(j))) == if j == 2 then !Disable(tag) else Disable(tag)
  {
    XorBits(tag, Pow2(j), 0);
    XorBits(tag, Pow2(j), 1);
    XorBits(tag, Pow2(j), 2);
    Pow2Bits(j, 0);
    Pow2Bits(j, 1);
    Pow2Bits(j, 2);
  }

  /** Whether the control word is read as signed or unsigned does not
      change any flag: the two readings differ by 2^32, which leaves the
      low bits alone. */
  lemma FlagsIgnoreSign(u: int)
    requires 0 <= u < TWO_TO_THE_32
    ensures Invert(ToSigned(u)) == Invert(u)
    ensures NotLink(ToSigned(u)) == NotLink(u)
    ensures Disable(ToSigned(u)) == Disable(u)
  {
  }

  /** The flags depend only on the last (least significant) byte of the
      big-endian control word. */
  lemma FlagsFromLastByte(data: seq<uint8>, pos: nat)
    requires pos + 4 <= |data|
    ensures Invert(Int32At(data, pos)) == Invert(data[pos + 3])
    ensures NotLink(Int32At(data, pos)) == NotLink(data[pos + 3])
    ensures Disable(Int32At(data, pos)) == Disable(data[pos + 3])
  {
  }

  /** Reading path records looks at nothing before the cursor. */
  lemma {:induction false} ReadPathRecordsFrame(d1: seq<uint8>, d2: seq<uint8>, pos: nat, n: nat)
    requires pos <= |d1| == |d2|
    requires d1[pos..] == d2[pos..]
    ensures ReadPathRecords(d1, pos, n) == ReadPathRecords(d2, pos, n)
    decreases n
  {
    if n > 0 && pos + PATH_RECORD_SIZE <= |d1| {
      assert d1[pos .. pos + PATH_RECORD_SIZE] == d1[pos..][.. PATH_RECORD_SIZE];
      assert d2[pos .. pos + PATH_RECORD_SIZE] == d2[pos..][.. PATH_RECORD_SIZE];
      assert d1[pos + PATH_RECORD_SIZE ..] == d1[pos..][PATH_RECORD_SIZE ..];
      assert d2[pos + PATH_RECORD_SIZE ..] == d2[pos..][PATH_RECORD_SIZE ..];
      ReadPathRecordsFrame(d1, d2, pos + PATH_RECORD_SIZE, n - 1);
    }
  }

  /** The version word is read but decides nothing: two inputs that differ
      only in the four version bytes (and anywhere before the cursor)
      decode to the same mask and the same cursor. */
  lemma VersionIgnored(length: int, d1: seq<uint8>, d2: seq<uint8>, pos: nat)
    requires pos + 4 <= |d1| == |d2|
    requires d1[pos + 4..] == d2[pos + 4..]
    ensures Parse(length, d1, pos) == Parse(length, d2, pos)
  {
    if pos + 8 <= |d1| {
      assert d1[pos + 4 .. pos + 8] == d1[pos + 4..][..4];
      assert d2[pos + 4 .. pos + 8] == d2[pos + 4..][..4];
      assert Int32At(d1, pos + 4) == Int32At(d2, pos + 4);
      assert d1[pos + 8..] == d1[pos + 4..][4..];
      assert d2[pos + 8..] == d2[pos + 4..][4..];
      ReadPathRecordsFrame(d1, d2, pos + 8, PathCount(length));
    }
  }

  /** A payload shorter than the allowance of 10 bytes yields no path
      record; only the two header words are read. */
  lemma ShortPayloadHasNoPaths(length: int, data: seq<uint8>, pos: nat)
    requires length < LENGTH_ALLOWANCE
    ensures Parse(length, data, pos).Success? <==> pos + HEADER_SIZE <= |data|
    ensures Parse(length, data, pos).Success? ==>
              Parse(length, data, pos).value.0.paths == []
              && Parse(length, data, pos).value.1 == pos + HEADER_SIZE
  {
  }

  /** For a payload of at least 10 bytes the decoder stops at least two
      bytes before the payload's end, so skipping to the end of the block
      afterwards never moves the cursor backwards. */
  lemma StaysInsidePayload(length: int, data: seq<uint8>, pos: nat)
    requires length >= LENGTH_ALLOWANCE
    ensures Parse(length, data, pos).Success? ==>
              Parse(length, data, pos).value.1 <= pos + length - 2
  {
  }

  /** For a payload shorter than the eight header bytes the decoder still
      reads both header words and so ends past the payload. */
  lemma TinyPayloadOverrunsPayload(length: int, data: seq<uint8>, pos: nat)
    requires length < HEADER_SIZE
    ensures Parse(length, data, pos).Success? ==>
              Parse(length, data, pos).value.1 > pos + length
  {
  }

  /** Every record of a payload built by the reference encoder is 26 bytes. */
  predicate ValidRecords(records: seq<PathRecord>) {
    forall i :: 0 <= i < |records| ==> |records[i].raw| == PATH_RECORD_SIZE
  }

  /** The path records laid end to end, as a writer would store them. */
  function Concat(records: seq<PathRecord>): (bytes: seq<uint8>)
    requires ValidRecords(records)
    ensures |bytes| == PATH_RECORD_SIZE * |records|
    ensures forall i :: 0 <= i < |records| ==>
              bytes[PATH_RECORD_SIZE * i .. PATH_RECORD_SIZE * (i + 1)] == records[i].raw
  {
    if records == [] then []
    else
      var rest := Concat(records[1..]);
      var bytes := records[0].raw + rest;
      assert forall i :: 1 <= i < |records| ==>
          bytes[PATH_RECORD_SIZE * i .. PATH_RECORD_SIZE * (i + 1)]
          == rest[PATH_RECORD_SIZE * (i - 1) .. PATH_RECORD_SIZE * i];
      bytes
  }

  /** A reference encoder: version word, control word, then the records. */
  function EncodePayload(version: int, tag: int, records: seq<PathRecord>): (payload: seq<uint8>)
    requires IsInt32(version) && IsInt32(tag) && ValidRecords(records)
    ensures |payload| == HEADER_SIZE + PATH_RECORD_SIZE * |records|
  {
    EncodeInt(version) + EncodeInt(tag) + Concat(records)
  }

  /** Reading `k` records from encoded records returns the first `k`. */
  lemma ReadPathRecordsOfConcat(prefix: seq<uint8>, records: seq<PathRecord>, suffix: seq<uint8>, k: nat)
    requires ValidRecords(records) && k <= |records|
    ensures ReadPathRecords(prefix + Concat(records) + suffix, |prefix|, k)
            == Success((records[..k], |prefix| + PATH_RECORD_SIZE * k))
  {
    var data := prefix + Concat(records) + suffix;
    var p := |prefix|;
    var r := ReadPathRecords(data, p, k);
    assert r.Success?;
    forall i | 0 <= i < k
      ensures r.value.0[i] == records[i]
    {
      assert data[p + PATH_RECORD_SIZE * i .. p + PATH_RECORD_SIZE * (i + 1)]
             == Concat(records)[PATH_RECORD_SIZE * i .. PATH_RECORD_SIZE * (i + 1)];
    }
    assert r.value.0 == records[..k];
  }

  /** Decoding an encoded payload whose declared length is `length`
      recovers the flags of the control word and the first
      `PathCount(length)` records. */
  lemma DecodeEncodedPayload(prefix: seq<uint8>, version: int, tag: int, records: seq<PathRecord>,
                             suffix: seq<uint8>, length: int)
    requires IsInt32(version) && IsInt32(tag) && ValidRecords(records)
    requires PathCount(length) <= |records|
    ensures Parse(length, prefix + EncodePayload(version, tag, records) + suffix, |prefix|)
            == Success((VectorMask(Invert(tag), NotLink(tag), Disable(tag), records[..PathCount(length)]),
                        |prefix| + HEADER_SIZE + PATH_RECORD_SIZE * PathCount(length)))
  {
    var data := prefix + EncodePayload(version, tag, records) + suffix;
    var p := |prefix|;
    assert data == prefix + EncodeInt(version) + (EncodeInt(tag) + Concat(records) + suffix);
    ReadIntEncodeInt(prefix, version, EncodeInt(tag) + Concat(records) + suffix);
    assert data == (prefix + EncodeInt(version)) + EncodeInt(tag) + (Concat(records) + suffix);
    ReadIntEncodeInt(prefix + EncodeInt(version), tag, Concat(records) + suffix);
    assert data == (prefix + EncodeInt(version) + EncodeInt(tag)) + Concat(records) + suffix;
    ReadPathRecordsOfConcat(prefix + EncodeInt(version) + EncodeInt(tag), records, suffix, PathCount(length));
  }

  /** With the declared length two bytes longer than what the records
      occupy, which is what the allowance of 10 expects, every record is
      recovered and the cursor ends right after the last one. */
  lemma RoundTrip(prefix: seq<uint8>, version: int, tag: int, records: seq<PathRecord>, suffix: seq<uint8>)
    requires IsInt32(version) && IsInt32(tag) && ValidRecords(records)
    ensures var payload := EncodePayload(version, tag, records);
            Parse(|payload| + 2, prefix + payload + suffix, |prefix|)
            == Success((VectorMask(Invert(tag), NotLink(tag), Disable(tag), records), |prefix| + |payload|))
  {
    var payload := EncodePayload(version, tag, records);
    assert PathCount(|payload| + 2) == |records|;
    DecodeEncodedPayload(prefix, version, tag, records, suffix, |payload| + 2);
    assert records[..|records|] == records;
  }

  /** With the declared length equal to what the header and records
      occupy, the allowance of 10 costs the last record: it stays unread. */
  lemma ExactLengthDropsLastRecord(prefix: seq<uint8>, version: int, tag: int, records: seq<PathRecord>,
                                   suffix: seq<uint8>)
    requires IsInt32(version) && IsInt32(tag) && ValidRecords(records) && |records| >= 1
    ensures var payload := EncodePayload(version, tag, records);
            Parse(|payload|, prefix + payload + suffix, |prefix|)
            == Success((VectorMask(Invert(tag), NotLink(tag), Disable(tag), records[..|records| - 1]),
                        |prefix| + |payload| - PATH_RECORD_SIZE))
  {
    var payload := EncodePayload(version, tag, records);
    assert PathCount(|payload|) == |records| - 1;
    DecodeEncodedPayload(prefix, version, tag, records, suffix, |payload|);
  }
}
