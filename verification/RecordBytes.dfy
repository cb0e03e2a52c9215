/** One record of the key-value database as bytes on flash: how it is laid down, how it is read back, and
    how the records of a sector are found again. Addresses are relative to the sector. */
module RecordBytes {
  import opened KvStore
  import opened Crc32
  import opened FlashBytes
  import opened FlashNumbers
  import opened StatusTable

  const KV_STATUS_NUM: nat := 6
  const LEN_UNSET: nat := 0xFFFF_FFFF

  function StatusIndex(s: KvStatus): (i: nat)
    ensures i < KV_STATUS_NUM
  {
    match s
    case Unused => 0
    case PreWrite => 1
    case Written => 2
    case PreDelete => 3
    case Deleted => 4
    case ErrHdr => 5
  }

  function StatusOf(i: nat): (s: KvStatus)
    requires i < KV_STATUS_NUM
    ensures StatusIndex(s) == i
  {
    match i
    case 0 => Unused
    case 1 => PreWrite
    case 2 => Written
    case 3 => PreDelete
    case 4 => Deleted
    case _ => ErrHdr
  }

  // ---- Words on flash ----

  function LowByte(w: bv32): byte { (w & 0xFF) as byte }

  function WordBytes(w: bv32): (s: Bytes)
    ensures |s| == 4
  {
    [LowByte(w), LowByte(w >> 8), LowByte(w >> 16), LowByte(w >> 24)]
  }

  function WordOf(s: Bytes): bv32
    requires |s| == 4
  {
    (s[0] as bv32) | ((s[1] as bv32) << 8) | ((s[2] as bv32) << 16) | ((s[3] as bv32) << 24)
  }

  lemma WordRoundTrip(w: bv32)
    ensures WordOf(WordBytes(w)) == w
  {
  }

  // ---- The layout of a record ----

  /** The length of the name, in a field padded with erased bytes; the checksum covers the padding. */
  function NameLenField(name: Bytes): (s: Bytes)
    ensures |s| == 4
  {
    [ByteOf(|name|), BYTE_ERASED, BYTE_ERASED, BYTE_ERASED]
  }

  /** What the checksum covers. */
  function Payload(name: Bytes, value: Bytes): Bytes {
    NameLenField(name) + NatBytes(|value|) + name + value
  }

  /** The header behind the status: magic word, total length, checksum. */
  function Header(name: Bytes, value: Bytes): (s: Bytes)
    ensures |s| == 12
  {
    MAGIC + NatBytes(RecordSize(name, value)) + WordBytes(Crc(0, Payload(name, value)))
  }

  /** A record from its magic word on. */
  function RecordData(key: Bytes, value: Bytes): (s: Bytes)
    ensures |s| == RecordSize(key, value) - 4
  {
    Header(key, value) + Payload(key, value)
  }

  predicate MagicIn(data: Bytes, p: nat)
    requires p + 4 <= |data|
  {
    data[p..p + 4] == MAGIC
  }

  /** No second magic word lies among the first `cut` bytes of a record from its magic word on, so that a search
      does not stop inside it. */
  predicate PassedOver(key: Bytes, value: Bytes, cut: nat) {
    forall p :: 1 <= p && p + 4 <= cut && p + 4 <= RecordSize(key, value) - 4 ==> !MagicIn(RecordData(key, value), p)
  }

  /** A record intact on flash, at `a`, with some status. */
  ghost predicate LiesAt(f: Bytes, a: nat, name: Bytes, value: Bytes) {
    && Slice(f, a + 1, 3) == [BYTE_ERASED, BYTE_ERASED, BYTE_ERASED]
    && Slice(f, a + 4, 4) == MAGIC
    && Slice(f, a + 8, 4) == NatBytes(RecordSize(name, value))
    && Slice(f, a + 12, 4) == WordBytes(Crc(0, Payload(name, value)))
    && Slice(f, a + 16, 4) == NameLenField(name)
    && Slice(f, a + 20, 4) == NatBytes(|value|)
    && Slice(f, a + 24, |name|) == name
    && Slice(f, a + 24 + |name|, |value|) == value
  }

  lemma PayloadOnFlash(f: Bytes, a: nat, name: Bytes, value: Bytes)
    requires LiesAt(f, a, name, value)
    ensures Slice(f, a + 16, 8 + |name| + |value|) == Payload(name, value)
  {
    SliceParts(f, a + 16, 4, 4);
    SliceParts(f, a + 16, 8, |name|);
    SliceParts(f, a + 16, 8 + |name|, |value|);
  }

  // ---- Reading a record ----

  /** What is read of a record: `name` is cut to what fits the buffer. */
  datatype KvObject = KvObject(status: KvStatus, len: nat, crcOk: bool, name: Bytes, nameLen: nat, valueLen: nat,
                               valueAddr: nat)

  /** The length in a header is set and plausible. */
  predicate LenPlausible(len: nat, maxSize: nat) {
    len != LEN_UNSET && len <= maxSize && len >= KV_HDR_SIZE
  }

  function NameRead(f: Bytes, a: nat, nameLen: nat): Bytes {
    Slice(f, a + KV_HDR_SIZE, if nameLen >= NAME_MAX then NAME_MAX - 1 else nameLen)
  }

  /** What a read finds, given the status: the checksum is taken over the payload in one go. */
  ghost predicate Reads(f: Bytes, a: nat, maxSize: nat, status: nat, kv: KvObject)
    requires status < KV_STATUS_NUM
  {
    var len := NatOf(Slice(f, a + 8, 4));
    if !LenPlausible(len, maxSize) then
      kv.status == ErrHdr && kv.len == KV_HDR_SIZE && !kv.crcOk
    else
      && kv.status == StatusOf(status) && kv.len == len
      && kv.crcOk == (Crc(0, Slice(f, a + 16, len - 16)) == WordOf(Slice(f, a + 12, 4)))
      && (kv.crcOk ==>
            && kv.nameLen == Value(Slice(f, a + 16, 4)[0]) && kv.valueLen == NatOf(Slice(f, a + 20, 4))
            && kv.valueAddr == a + KV_HDR_SIZE + kv.nameLen && kv.name == NameRead(f, a, kv.nameLen))
  }

  lemma CrcOfParts(f: Bytes, a: nat, n: nat, m: nat)
    ensures Crc(Crc(0, Slice(f, a, n)), Slice(f, a + n, m)) == Crc(0, Slice(f, a, n + m))
  {
    hide Crc;
    CrcByChunks(0, Slice(f, a, n), Slice(f, a + n, m));
    SliceParts(f, a, n, m);
  }

  /** Read a record, its payload in pieces of 32 bytes. A record without a plausible length is marked. */
  method ReadKv(medium: Medium, flash: array<byte>, a: nat, maxSize: nat) returns (kv: KvObject)
    requires a < flash.Length
    modifies flash
    ensures exists status: nat | status < KV_STATUS_NUM ::
              Encodes([old(flash[a])], KV_STATUS_NUM, status) && Reads(old(flash[..]), a, maxSize, status, kv)
    ensures (LenPlausible(NatOf(Slice(old(flash[..]), a + 8, 4)), maxSize)
             || Encodes([old(flash[a])], KV_STATUS_NUM, StatusIndex(ErrHdr))) ==> flash[..] == old(flash[..])
  {
    hide Crc, Encodes, NatOf, WordOf, Value;
    ghost var f := flash[..];
    var status := GetStatus([flash[a]], KV_STATUS_NUM);
    var len := NatOf(Slice(flash[..], a + 8, 4));
    if !LenPlausible(len, maxSize) {
      kv := KvObject(ErrHdr, KV_HDR_SIZE, false, [], 0, 0, 0);
      if status != StatusIndex(ErrHdr) {
        StatusIsOther([flash[a]], status);
        WriteStatus(medium, flash, a, KV_STATUS_NUM, StatusIndex(ErrHdr));
      }
      return;
    }
    var crc := PayloadCrc(flash, a, len);
    if crc != WordOf(Slice(flash[..], a + 12, 4)) {
      return KvObject(StatusOf(status), len, false, [], 0, 0, 0);
    }
    var nameLen := Value(Slice(flash[..], a + 16, 4)[0]);
    return KvObject(StatusOf(status), len, true, NameRead(flash[..], a, nameLen), nameLen,
                    NatOf(Slice(flash[..], a + 20, 4)), a + KV_HDR_SIZE + nameLen);
  }

  lemma StatusIsOther(t: Bytes, status: nat)
    requires Encodes(t, KV_STATUS_NUM, status) && status != StatusIndex(ErrHdr)
    ensures !Encodes(t, KV_STATUS_NUM, StatusIndex(ErrHdr))
  {
    if Encodes(t, KV_STATUS_NUM, StatusIndex(ErrHdr)) {
      EncodingUnique(t, KV_STATUS_NUM, status, StatusIndex(ErrHdr));
    }
  }

  /** The checksum of a payload: its two length fields, then pieces of up to 32 bytes. */
  method PayloadCrc(flash: array<byte>, a: nat, len: nat) returns (crc: bv32)
    requires len >= KV_HDR_SIZE
    ensures crc == Crc(0, Slice(flash[..], a + 16, len - 16))
  {
    hide Crc;
    crc := CalcCrc32(0, Slice(flash[..], a + 16, 4));
    crc := CalcCrc32(crc, Slice(flash[..], a + 20, 4));
    CrcOfParts(flash[..], a + 16, 4, 4);
    var done: nat := 0;
    while done < len - KV_HDR_SIZE
      invariant done <= len - KV_HDR_SIZE
      invariant crc == Crc(0, Slice(flash[..], a + 16, 8 + done))
    {
      var size := if done + 32 < len - KV_HDR_SIZE then 32 else len - KV_HDR_SIZE - done;
      CrcOfParts(flash[..], a + 16, 8 + done, size);
      crc := CalcCrc32(crc, Slice(flash[..], a + KV_HDR_SIZE + done, size));
      done := done + size;
    }
  }

  /** Whatever intact record lies on flash, reading it finds its status, length, name and value, for all
      sizes; only a name that does not fit the buffer is cut. */
  lemma ReadsBack(f: Bytes, a: nat, maxSize: nat, status: nat, kv: KvObject, name: Bytes, value: Bytes)
    requires status < KV_STATUS_NUM && Reads(f, a, maxSize, status, kv)
    requires LiesAt(f, a, name, value) && |name| <= NAME_MAX
    requires RecordSize(name, value) <= maxSize && RecordSize(name, value) < LEN_UNSET
    ensures kv.status == StatusOf(status) && kv.len == RecordSize(name, value) && kv.crcOk
    ensures kv.nameLen == |name| && kv.valueLen == |value|
    ensures kv.name == if |name| < NAME_MAX then name else name[..NAME_MAX - 1]
    ensures Slice(f, kv.valueAddr, kv.valueLen) == value
  {
    hide Crc, WordBytes, WordOf, NatOf, NatBytes, Value, ByteOf, Payload;
    NatRoundTrip(RecordSize(name, value));
    NatRoundTrip(|value|);
    WordRoundTrip(Crc(0, Payload(name, value)));
    PayloadOnFlash(f, a, name, value);
    ByteRoundTrip(|name|);
  }

  /** Damage to the payload of a record that stays within four consecutive bytes is always noticed. */
  lemma DamageIsNoticed(f: Bytes, f': Bytes, a: nat, maxSize: nat, status: nat, kv: KvObject,
                        name: Bytes, value: Bytes, start: nat)
    requires status < KV_STATUS_NUM && Reads(f', a, maxSize, status, kv)
    requires LiesAt(f, a, name, value) && RecordSize(name, value) < LEN_UNSET
    requires Slice(f', a + 8, 8) == Slice(f, a + 8, 8)
    requires DifferInWindow(Slice(f, a + 16, RecordSize(name, value) - 16),
        Slice(f', a + 16, RecordSize(name, value) - 16), start)
    ensures !kv.crcOk
  {
    hide Crc, WordBytes, WordOf, NatOf, NatBytes, Payload, DifferInWindow;
    NatRoundTrip(RecordSize(name, value));
    WordRoundTrip(Crc(0, Payload(name, value)));
    PayloadOnFlash(f, a, name, value);
    SliceParts(f, a + 8, 4, 4);
    SliceParts(f', a + 8, 4, 4);
    assert Slice(f', a + 8, 4) == Slice(f, a + 8, 8)[..4] == Slice(f, a + 8, 4);
    assert Slice(f', a + 12, 4) == Slice(f, a + 8, 8)[4..] == Slice(f, a + 12, 4);
    DetectsBurst(0, Slice(f, a + 16, RecordSize(name, value) - 16), Slice(f', a + 16, RecordSize(name, value) - 16),
        start);
  }

  // ---- Writing a record ----

  /** The checksum of a new record, over its fields one by one. */
  method NewCrc(name: Bytes, value: Bytes) returns (crc: bv32)
    ensures crc == Crc(0, Payload(name, value))
  {
    hide Crc;
    crc := CalcCrc32(0, NameLenField(name));
    crc := CalcCrc32(crc, NatBytes(|value|));
    crc := CalcCrc32(crc, name);
    crc := CalcCrc32(crc, value);
    CrcByChunks(0, NameLenField(name), NatBytes(|value|));
    CrcByChunks(0, NameLenField(name) + NatBytes(|value|), name);
    CrcByChunks(0, NameLenField(name) + NatBytes(|value|) + name, value);
  }

  /** The header, name and value of a record, one behind the other, behind an erased status field. */
  lemma LaidDown(f: Bytes, f': Bytes, a: nat, name: Bytes, value: Bytes)
    requires ErasedFrom(f, a + 1, 3) && Patched(f, f', a + 4, Header(name, value) + Payload(name, value))
    ensures LiesAt(f', a, name, value)
  {
    hide Crc, NatBytes, WordBytes, NameLenField, Patched;
    var h := Header(name, value) + Payload(name, value);
    StatusFieldErased(f, f', a, h);
    PatchedSlice(f, f', a + 4, h, 0, 4);
    PatchedSlice(f, f', a + 4, h, 4, 4);
    PatchedSlice(f, f', a + 4, h, 8, 4);
    PatchedSlice(f, f', a + 4, h, 12, 4);
    PatchedSlice(f, f', a + 4, h, 16, 4);
    PatchedSlice(f, f', a + 4, h, 20, |name|);
    PatchedSlice(f, f', a + 4, h, 20 + |name|, |value|);
    HeaderFields(name, value);
    PayloadFields(name, value);
  }

  lemma StatusFieldErased(f: Bytes, f': Bytes, a: nat, data: Bytes)
    requires ErasedFrom(f, a + 1, 3) && Patched(f, f', a + 4, data)
    ensures Slice(f', a + 1, 3) == [BYTE_ERASED, BYTE_ERASED, BYTE_ERASED]
  {
  }

  lemma HeaderFields(name: Bytes, value: Bytes)
    ensures var h := Header(name, value) + Payload(name, value);
            && h[0..4] == MAGIC && h[4..8] == NatBytes(RecordSize(name, value))
            && h[8..12] == WordBytes(Crc(0, Payload(name, value)))
  {
    hide Crc, NatBytes, WordBytes, Payload;
  }

  lemma PayloadFields(name: Bytes, value: Bytes)
    ensures var h := Header(name, value) + Payload(name, value);
            && |h| == 20 + |name| + |value|
            && h[12..16] == NameLenField(name) && h[16..20] == NatBytes(|value|)
            && h[20..20 + |name|] == name && h[20 + |name|..20 + |name| + |value|] == value
  {
    hide Header, NatBytes, NameLenField;
  }

  /** Write a record into erased flash, status first and last. */
  method CreateBlob(medium: Medium, flash: array<byte>, secSize: nat, a: nat, name: Bytes, value: Bytes)
    returns (error: Error)
    requires RecordSize(name, value) + SECTOR_HDR_SIZE <= secSize && |name| <= NAME_MAX ==>
               ErasedFrom(flash[..], a, RecordSize(name, value))
    modifies flash
    ensures error == if |name| > NAME_MAX then NameError
                     else if RecordSize(name, value) + SECTOR_HDR_SIZE > secSize then SavedFull else NoError
    ensures error != NoError ==> flash[..] == old(flash[..])
    ensures error == NoError ==> RecordWritten(old(flash[..]), flash[..], a, name, value)
  {
    if |name| > NAME_MAX {
      return NameError;
    }
    if RecordSize(name, value) + SECTOR_HDR_SIZE > secSize {
      return SavedFull;
    }
    WriteRecord(medium, flash, a, name, value);
    error := NoError;
  }

  /** A written record lies at `a`, and nothing around it has changed. */
  ghost predicate RecordWritten(f: Bytes, f': Bytes, a: nat, name: Bytes, value: Bytes) {
    && |f'| == |f| && a + RecordSize(name, value) <= |f|
    && LiesAt(f', a, name, value)
    && Encodes([f'[a]], KV_STATUS_NUM, StatusIndex(Written)) && LowBitsErased(f'[a])
    && forall k :: 0 <= k < |f| && !(a <= k < a + RecordSize(name, value)) ==> f'[k] == f[k]
  }

  method WriteRecord(medium: Medium, flash: array<byte>, a: nat, name: Bytes, value: Bytes)
    requires ErasedFrom(flash[..], a, RecordSize(name, value))
    modifies flash
    ensures RecordWritten(old(flash[..]), flash[..], a, name, value)
  {
    hide Crc, NatBytes, WordBytes, NameLenField, Encodes, Patched, ErasedFrom, OnlyAt, RecordWritten, LowBitsErased;
    var crc := NewCrc(name, value);
    var header := MAGIC + NatBytes(RecordSize(name, value)) + WordBytes(crc) + NameLenField(name) + NatBytes(|value|);
    ghost var f0 := flash[..];
    ErasedStatus(f0, a, RecordSize(name, value), KV_STATUS_NUM);
    ErasedLowBits(f0, a, RecordSize(name, value));
    AdvanceStatus(medium, flash, a, KV_STATUS_NUM, 0, StatusIndex(PreWrite));
    ghost var f1 := flash[..];
    ErasedBehindStatus(f0, f1, a, RecordSize(name, value));
    ErasedSplit(f1, a + 4, 20, |name| + |value|);
    WriteBytes(medium, flash, a + 4, header);
    ghost var f2 := flash[..];
    ErasedBehind(f1, f2, a + 4, header, |name| + |value|);
    ErasedSplit(f2, a + 24, |name|, |value|);
    WriteBytes(medium, flash, a + 24, name);
    ghost var f3 := flash[..];
    ErasedBehind(f2, f3, a + 24, name, |value|);
    WriteBytes(medium, flash, a + 24 + |name|, value);
    ghost var f4 := flash[..];
    PatchedTwice(f1, f2, f3, a + 4, header, name);
    PatchedTwice(f1, f3, f4, a + 4, header + name, value);
    assert header + name + value == Header(name, value) + Payload(name, value);
    StatusKept(f1, f4, a, header + name + value);
    AdvanceStatus(medium, flash, a, KV_STATUS_NUM, StatusIndex(PreWrite), StatusIndex(Written));
    WrittenInAll(f0, f1, f4, flash[..], a, name, value);
  }

  lemma ErasedLowBits(f: Bytes, a: nat, n: nat)
    requires ErasedFrom(f, a, n) && n > 0
    ensures LowBitsErased(f[a])
  {
  }

  lemma ErasedBehindStatus(f: Bytes, f': Bytes, a: nat, n: nat)
    requires ErasedFrom(f, a, n) && OnlyAt(f, f', a) && n >= 4
    ensures ErasedFrom(f', a + 1, 3) && ErasedFrom(f', a + 4, n - 4)
  {
  }

  lemma StatusKept(f: Bytes, f': Bytes, a: nat, data: Bytes)
    requires Patched(f, f', a + 4, data)
    ensures |f'| == |f| && a < |f| && f'[a] == f[a]
  {
  }

  lemma WrittenInAll(f0: Bytes, f1: Bytes, f4: Bytes, f5: Bytes, a: nat, name: Bytes, value: Bytes)
    requires OnlyAt(f0, f1, a) && ErasedFrom(f1, a + 1, 3)
    requires Patched(f1, f4, a + 4, Header(name, value) + Payload(name, value))
    requires OnlyAt(f4, f5, a) && a < |f5|
    requires Encodes([f5[a]], KV_STATUS_NUM, StatusIndex(Written)) && LowBitsErased(f5[a])
    ensures RecordWritten(f0, f5, a, name, value)
  {
    hide Crc, Header, Payload, Encodes, LiesAt, LowBitsErased;
    LaidDown(f1, f4, a, name, value);
    PayloadFields(name, value);
    StatusByteOnly(f4, f5, a, name, value);
  }

  lemma StatusByteOnly(f: Bytes, f': Bytes, a: nat, name: Bytes, value: Bytes)
    requires LiesAt(f, a, name, value) && OnlyAt(f, f', a)
    ensures LiesAt(f', a, name, value)
  {
    hide Crc, NatBytes, WordBytes, NameLenField, Payload;
    SameSlice(f, f', a, 1, 3);
    SameSlice(f, f', a, 4, 4);
    SameSlice(f, f', a, 8, 4);
    SameSlice(f, f', a, 12, 4);
    SameSlice(f, f', a, 16, 4);
    SameSlice(f, f', a, 20, 4);
    SameSlice(f, f', a, 24, |name|);
    SameSlice(f, f', a, 24 + |name|, |value|);
  }

}
