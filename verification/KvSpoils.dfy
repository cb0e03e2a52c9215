/** A record written over the erased bytes that end the record before it: what lies where afterwards, and that
    the damage is always noticed. */
module KvSpoils {
  import opened KvStore
  import opened KvCollect
  import opened Crc32
  import opened FlashBytes
  import opened FlashNumbers
  import opened StatusTable
  import opened RecordBytes
  import opened KvWalks
  import opened KvScans

  // ---- The checksum of a difference ----

  function Xor(s: Bytes, t: Bytes): (r: Bytes)
    requires |s| == |t|
    ensures |r| == |s|
  {
    seq(|s|, i requires 0 <= i < |s| => s[i] ^ t[i])
  }

  lemma DifferenceOfWords(x: byte, y: byte)
    ensures Difference(x as bv32, y as bv32) == (x ^ y) as bv32
  {
  }

  lemma FoldDifference(c: bv32, d: bv32, x: byte, y: byte)
    ensures Difference(Fold(c, x), Fold(d, y)) == Fold(Difference(c, d), x ^ y)
  {
    hide Difference;
    DifferenceOfWords(x, y);
    DifferenceOfShifted(c, Fold(d, y), x as bv32);
    DifferenceOfShifted(c, d, y as bv32);
    DifferenceReorders(Difference(c, d), x as bv32, y as bv32);
  }

  /** Reading bytes is linear over bitwise difference. */
  lemma {:induction false} AbsorbDifference(c: bv32, d: bv32, s: Bytes, t: Bytes)
    requires |s| == |t|
    ensures Difference(Absorb(c, s), Absorb(d, t)) == Absorb(Difference(c, d), Xor(s, t))
    decreases |s|
  {
    hide ByteStep, Fold, Difference;
    if s != [] {
      assert Xor(s, t)[1..] == Xor(s[1..], t[1..]);
      ByteStepLinear(Fold(c, s[0]), Fold(d, t[0]));
      FoldDifference(c, d, s[0], t[0]);
      AbsorbDifference(ByteStep(Fold(c, s[0])), ByteStep(Fold(d, t[0])), s[1..], t[1..]);
    }
  }

  // ---- The first bytes of a record over erased bytes ----

  const ERASED_END: Bytes := [0xFF, 0xFF, 0xFF, 0xFF, 0xFF, 0xFF, 0xFF]

  /** A status byte, the erased rest of the status field, and the first three bytes of the magic word. */
  function RecordFront(status: byte): Bytes { [status, 0xFF, 0xFF, 0xFF, 0x4B, 0x56, 0x30] }

  /** What differs between erased bytes and the front of a record. */
  function FrontBits(status: byte): Bytes { [0xFF ^ status, 0x00, 0x00, 0x00, 0xB4, 0xA9, 0xCF] }

  lemma FrontDiffers(status: byte)
    ensures Xor(ERASED_END, RecordFront(status)) == FrontBits(status)
  {
  }

  /** The two bytes that a written status can be, as far as it is known. */
  lemma WrittenByte(b: byte)
    requires Encodes([b], KV_STATUS_NUM, StatusIndex(Written)) && LowBitsErased(b)
    ensures b == 0x3F || b == 0xBF
  {
    assert Erased([b], 2) && Erased([b], 3) && Erased([b], 4) && !Erased([b], 1);
  }

  lemma StepsOfC0()
    ensures ByteStep(Fold(0, 0xC0)) == 0x9B64C2B0 && ByteStep(Fold(0x9B64C2B0, 0)) == 0xCBFAD74E
    ensures ByteStep(Fold(0xCBFAD74E, 0)) == 0x91AF9640 && ByteStep(Fold(0x91AF9640, 0)) == 0x764DEE06
    ensures ByteStep(Fold(0x764DEE06, 0xB4)) == 0x25199F4E && ByteStep(Fold(0x25199F4E, 0xA9)) == 0x3E4B6E44
    ensures ByteStep(Fold(0x3E4B6E44, 0xCF)) == 0x7A5411C6
  {
  }

  lemma StepsOf40()
    ensures ByteStep(Fold(0, 0x40)) == 0x76DC4190 && ByteStep(Fold(0x76DC4190, 0)) == 0xF0794F05
    ensures ByteStep(Fold(0xF0794F05, 0)) == 0x709A8DC0 && ByteStep(Fold(0x709A8DC0, 0)) == 0x9B14583D
    ensures ByteStep(Fold(0x9B14583D, 0xB4)) == 0x94FF2FDC && ByteStep(Fold(0x94FF2FDC, 0xA9)) == 0x20FB7A9C
    ensures ByteStep(Fold(0x20FB7A9C, 0xCF)) == 0xF242FB34
  {
  }

  /** The checksum of the difference, for every number of bytes of it. */
  lemma FrontChangesCrc(status: byte, k: nat)
    requires (status == 0x3F || status == 0xBF) && 1 <= k <= 7
    ensures Absorb(0, FrontBits(status)[..k]) != 0
  {
    hide ByteStep, Fold, Absorb;
    var d := FrontBits(status);
    StepsOfC0();
    StepsOf40();
    assert d[..0] == [];
    AbsorbNone(0);
    AbsorbOne(0, d, 0);
    AbsorbOne(0, d, 1);
    AbsorbOne(0, d, 2);
    AbsorbOne(0, d, 3);
    AbsorbOne(0, d, 4);
    AbsorbOne(0, d, 5);
    AbsorbOne(0, d, 6);
  }

  lemma AbsorbNone(c: bv32)
    ensures Absorb(c, []) == c
  {
  }

  lemma NoDifferenceToItself(c: bv32)
    ensures Difference(c, c) == 0
  {
  }

  /** Two messages, equal but for their ends, one of erased bytes and one of the front of a record, have
      different checksums. */
  lemma EndChangesCrc(data: Bytes, status: byte, k: nat)
    requires (status == 0x3F || status == 0xBF) && 1 <= k <= 7
    ensures Crc(0, data + ERASED_END[..k]) != Crc(0, data + RecordFront(status)[..k])
  {
    hide Absorb, Complement, Difference;
    var e, r := ERASED_END[..k], RecordFront(status)[..k];
    var c := Absorb(Complement(0), data);
    AbsorbAppend(Complement(0), data, e);
    AbsorbAppend(Complement(0), data, r);
    AbsorbDifference(c, c, e, r);
    NoDifferenceToItself(c);
    FrontDiffers(status);
    assert Xor(e, r) == FrontBits(status)[..k];
    FrontChangesCrc(status, k);
    NoDifferenceToItself(Absorb(c, e));
    ComplementTwice(Absorb(c, e));
    ComplementTwice(Absorb(c, r));
  }

  // ---- On flash ----

  /** The front of a written record. */
  lemma FrontOnFlash(f: Bytes, f': Bytes, a: nat, name: Bytes, value: Bytes) returns (status: byte)
    requires RecordWritten(f, f', a, name, value)
    ensures (status == 0x3F || status == 0xBF) && Slice(f', a, 7) == RecordFront(status)
  {
    hide Encodes, LowBitsErased, Payload, NatBytes, NameLenField, WordBytes;
    status := f'[a];
    WrittenByte(status);
    SliceParts(f', a, 1, 3);
    SliceParts(f', a, 4, 3);
    assert Slice(f', a + 4, 3) == Slice(f', a + 4, 4)[..3];
    assert Slice(f', a, 1) == [status];
  }

  /** The payload of the record before, with its last bytes overwritten. */
  lemma PayloadCut(f: Bytes, f': Bytes, at: nat, n: nat, k: nat, a: nat, name: Bytes, value: Bytes, status: byte)
    requires RecordWritten(f, f', a, name, value) && Slice(f', a, 7) == RecordFront(status)
    requires 1 <= k <= 7 && k <= n && at + n == a + k
    requires forall i :: n - k <= i < n ==> Slice(f, at, n)[i] == BYTE_ERASED
    ensures Slice(f, at, n) == Slice(f, at, n - k) + ERASED_END[..k]
    ensures Slice(f', at, n) == Slice(f, at, n - k) + RecordFront(status)[..k]
  {
    hide LiesAt, Encodes, LowBitsErased;
    SliceParts(f, at, n - k, k);
    SliceParts(f', at, n - k, k);
    assert Slice(f', at, n - k) == Slice(f, at, n - k);
    assert Slice(f', a, k) == Slice(f', a, 7)[..k];
    forall i | 0 <= i < k ensures Slice(f, a, k)[i] == BYTE_ERASED {
      assert Slice(f, at, n)[n - k + i] == BYTE_ERASED;
    }
    assert Slice(f, a, k) == ERASED_END[..k];
  }

  lemma EndOfPayload(name: Bytes, value: Bytes, k: nat)
    requires k <= TrailingErased(name + value)
    ensures var p := Payload(name, value);
            |p| == 8 + |name| + |value| && forall i :: |p| - k <= i < |p| ==> p[i] == BYTE_ERASED
  {
    var p, d := Payload(name, value), name + value;
    assert p == NameLenField(name) + NatBytes(|value|) + d;
    forall i | |p| - k <= i < |p| ensures p[i] == BYTE_ERASED {
      assert p[i] == d[i - 8] == 0xFF;
    }
  }

  /** A record that is written where a walk that falls short ends: the record before it, whose end it
      overwrites, does not pass its check any more. */
  lemma OverwriteIsNoticed(f: Bytes, f': Bytes, recs: seq<Record>, maxSize: nat, status: nat, kv: KvObject,
                           name: Bytes, value: Bytes)
    requires Holds(f, recs) && recs != [] && recs[|recs| - 1].crcOk
    requires 1 <= WalkShort(recs) <= 7 && WalkShort(recs) <= Start(recs, |recs|)
    requires RecordWritten(f, f', Start(recs, |recs|) - WalkShort(recs), name, value)
    requires status < KV_STATUS_NUM && Reads(f', Start(recs, |recs| - 1), maxSize, status, kv)
    ensures !kv.crcOk
  {
    hide Holds, LiesAt, RecordWritten, Reads, NatBytes, NameLenField, Payload, UsedBytes, Crc, StrayTotal,
      TrailingErased;
    var r, at, k := recs[|recs| - 1], Start(recs, |recs| - 1), WalkShort(recs);
    LastRecord(f, recs);
    EndOfPayload(r.name, r.value, k);
    PayloadOnFlash(f, at, r.name, r.value);
    var front := FrontOnFlash(f, f', at + RecordSize(r.name, r.value) - k, name, value);
    PayloadCut(f, f', at + 16, 8 + |r.name| + |r.value|, k, at + RecordSize(r.name, r.value) - k, name, value, front);
    EndChangesCrc(Slice(f, at + 16, 8 + |r.name| + |r.value| - k), front, k);
    HeaderKept(f, f', at, at + RecordSize(r.name, r.value) - k, name, value);
    CrcMismatch(f, f', at, maxSize, status, kv, r.name, r.value);
  }

  lemma HeaderKept(f: Bytes, f': Bytes, at: nat, a: nat, name: Bytes, value: Bytes)
    requires RecordWritten(f, f', a, name, value) && at + 16 <= a
    ensures Slice(f', at + 8, 4) == Slice(f, at + 8, 4) && Slice(f', at + 12, 4) == Slice(f, at + 12, 4)
  {
    hide LiesAt, Encodes, LowBitsErased;
  }

  lemma CrcMismatch(f: Bytes, f': Bytes, at: nat, maxSize: nat, status: nat, kv: KvObject, name: Bytes, value: Bytes)
    requires LiesAt(f, at, name, value) && RecordSize(name, value) < SECTOR_LIMIT
    requires Slice(f', at + 8, 4) == Slice(f, at + 8, 4) && Slice(f', at + 12, 4) == Slice(f, at + 12, 4)
    requires Crc(0, Payload(name, value)) != Crc(0, Slice(f', at + 16, RecordSize(name, value) - 16))
    requires status < KV_STATUS_NUM && Reads(f', at, maxSize, status, kv)
    ensures !kv.crcOk
  {
    hide Crc, WordBytes, WordOf, NatOf, NatBytes, Payload, NameLenField;
    NatRoundTrip(RecordSize(name, value));
    WordRoundTrip(Crc(0, Payload(name, value)));
  }
}
