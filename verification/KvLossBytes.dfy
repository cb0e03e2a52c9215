/** What a set that power interrupts leaves on flash, byte by byte, and the record that this counts as. */
module KvLossBytes {
  import opened KvStore
  import opened KvCollect
  import opened Crc32
  import opened FlashBytes
  import opened FlashNumbers
  import opened StatusTable
  import opened RecordBytes
  import opened KvWalks
  import opened KvScans
  import opened KvCrash
  import opened Wrappers

  /** The first status byte of a record, and `cut` bytes from its magic word on, were written to erased flash. */
  ghost predicate Begun(f: Bytes, f': Bytes, a: nat, data: Bytes, cut: nat) {
    && |f'| == |f| && a + 4 + |data| <= |f| && cut <= |data| && f'[a] == 0x7F
    && forall p :: 0 <= p < |f| && p != a ==> f'[p] == if a + 4 <= p < a + 4 + cut then data[p - a - 4] else f[p]
  }

  lemma PreWriteByte()
    ensures Encodes([0x7F], KV_STATUS_NUM, StatusIndex(PreWrite)) && LowBitsErased(0x7F)
  {
  }

  // ---- One more record ----

  /** A sector whose new record lies behind the others holds it, too. */
  lemma OneMoreHolds(f: Bytes, f': Bytes, recs: seq<Record>, r: Record)
    requires Holds(f, recs) && |f'| == |f| && Start(recs, |recs|) + r.Len() <= |f|
    requires forall p :: 0 <= p < |f| && !(Start(recs, |recs|) <= p < Start(recs, |recs|) + r.Len()) ==> f'[p] == f[p]
    requires HoldsOne(f', recs + [r], |recs|)
    ensures Holds(f', recs + [r])
  {
    hide UsedBytes, HoldsOne;
    var recs' := recs + [r];
    StartOfPrefix(recs, r, |recs|);
    StartNext(recs', |recs|);
    forall k | 0 <= k < |recs'| ensures HoldsOne(f', recs', k) {
      StartOfPrefix(recs, r, k);
      if k < |recs| {
        RecordFits(f, recs, k);
        StartNext(recs, k);
        StartsInOrder(recs, k + 1, |recs|);
        SameWhereUnchanged(f, f', recs, recs', k);
      }
    }
  }

  lemma ErasedEnd(f: Bytes, recs: seq<Record>, n: nat)
    requires Holds(f, recs) && Start(recs, |recs|) + n <= |f|
    ensures ErasedFrom(f, Start(recs, |recs|), n)
  {
    hide UsedBytes, HoldsOne;
  }

  // ---- Without a complete magic word ----

  lemma StrayBytesOnFlash(f: Bytes, f': Bytes, a: nat, key: Bytes, value: Bytes, cut: nat)
    requires ErasedFrom(f, a, RecordSize(key, value)) && Begun(f, f', a, RecordData(key, value), cut) && cut < 4
    ensures Slice(f', a, |StrayBytes(cut)|) == StrayBytes(cut)
    ensures forall p :: 0 <= p < |f| && !(a <= p < a + |StrayBytes(cut)|) ==> f'[p] == f[p]
  {
    var data := RecordData(key, value);
    MagicBegins(key, value);
    forall i | 0 <= i < |StrayBytes(cut)| ensures Slice(f', a, |StrayBytes(cut)|)[i] == StrayBytes(cut)[i] {
      assert i >= 4 ==> data[i - 4] == MAGIC[i - 4];
    }
  }

  lemma MagicBegins(key: Bytes, value: Bytes)
    ensures RecordData(key, value)[..4] == MAGIC
    ensures forall i :: 0 <= i < 4 ==> RecordData(key, value)[i] == MAGIC[i]
  {
    hide Payload, NatBytes, WordBytes, Crc;
    HeaderFields(key, value);
    assert RecordData(key, value)[0..4] == MAGIC;
    assert forall i :: 0 <= i < 4 ==> RecordData(key, value)[i] == RecordData(key, value)[0..4][i];
  }

  /** Behind other records this leaves stray bytes. */
  lemma StrayOnFlash(f: Bytes, f': Bytes, recs: seq<Record>, key: Bytes, value: Bytes, cut: nat)
    requires Holds(f, recs) && Begun(f, f', Start(recs, |recs|), RecordData(key, value), cut) && cut < 4
    ensures Holds(f', recs + [StrayRecord(cut)])
  {
    hide UsedBytes, Holds, RecordData, StrayBytes, Slice;
    var a := Start(recs, |recs|);
    ErasedEnd(f, recs, RecordSize(key, value));
    StrayBytesOnFlash(f, f', a, key, value, cut);
    PreWriteByte();
    StartOfPrefix(recs, StrayRecord(cut), |recs|);
    OneMoreHolds(f, f', recs, StrayRecord(cut));
  }

  // ---- Without a complete length ----

  /** A length of which not all bytes are there is no length. */
  lemma NoLength(f: Bytes, f': Bytes, a: nat, key: Bytes, value: Bytes, cut: nat)
    requires ErasedFrom(f, a, RecordSize(key, value)) && Begun(f, f', a, RecordData(key, value), cut) && cut < 8
    ensures NatOf(Slice(f', a + 8, 4)) >= LEN_LIMIT
  {
    hide RecordData, Value;
    var s := Slice(f', a + 8, 4);
    assert s[3] == f'[a + 11] == BYTE_ERASED;
    ErasedIsHighest();
  }

  lemma MagicOnFlash(f: Bytes, f': Bytes, a: nat, key: Bytes, value: Bytes, cut: nat)
    requires Begun(f, f', a, RecordData(key, value), cut) && cut >= 4
    ensures Slice(f', a + 4, 4) == MAGIC
  {
    hide RecordData;
    MagicBegins(key, value);
  }

  lemma FieldErased(f: Bytes, f': Bytes, a: nat, key: Bytes, value: Bytes, cut: nat)
    requires ErasedFrom(f, a, RecordSize(key, value)) && Begun(f, f', a, RecordData(key, value), cut)
    ensures Slice(f', a + 1, 3) == [BYTE_ERASED, BYTE_ERASED, BYTE_ERASED]
  {
    hide RecordData;
  }

  /** A magic word on flash, behind the one of the record itself, is one in the record. */
  lemma MagicOfData(f: Bytes, f': Bytes, a: nat, data: Bytes, cut: nat, p: nat)
    requires ErasedFrom(f, a, 4 + |data|) && Begun(f, f', a, data, cut)
    requires a + 5 <= p && p + 4 <= a + 4 + |data| && MagicAt(f', p)
    ensures p + 4 <= a + 4 + cut && MagicIn(data, p - a - 4)
  {
    var q := p - a - 4;
    assert f'[p] == Slice(f', p, 4)[0] == MAGIC[0] && f'[p + 1] == Slice(f', p, 4)[1] == MAGIC[1];
    assert f'[p + 2] == Slice(f', p, 4)[2] == MAGIC[2] && f'[p + 3] == Slice(f', p, 4)[3] == MAGIC[3];
    assert data[q..q + 4] == MAGIC;
  }

  /** What is written of a record has no magic word that the whole record does not have. */
  lemma NoMagicInCut(f: Bytes, f': Bytes, a: nat, key: Bytes, value: Bytes, cut: nat, p: nat)
    requires ErasedFrom(f, a, RecordSize(key, value)) && Begun(f, f', a, RecordData(key, value), cut)
    requires PassedOver(key, value, cut)
    requires a + 5 <= p && p + 4 <= a + RecordSize(key, value)
    ensures !MagicAt(f', p)
  {
    hide RecordData, Begun, ErasedFrom, MagicAt, MagicIn;
    if MagicAt(f', p) {
      MagicOfData(f, f', a, RecordData(key, value), cut, p);
    }
  }

  /** Between the magic word and the length there is no room for another one. */
  lemma NoneInHeader(key: Bytes, value: Bytes, cut: nat)
    requires cut < 8
    ensures PassedOver(key, value, cut)
  {
    hide RecordData;
    forall q | 1 <= q && q + 4 <= cut ensures !MagicIn(RecordData(key, value), q) {
      MagicBegins(key, value);
      assert RecordData(key, value)[q..q + 4][0] == RecordData(key, value)[q];
    }
  }

  lemma ErrorLies(f: Bytes, f': Bytes, a: nat, key: Bytes, value: Bytes, cut: nat, first: bool)
    requires ErasedFrom(f, a, RecordSize(key, value)) && Begun(f, f', a, RecordData(key, value), cut)
    requires cut < 8 && (first || cut >= 4)
    ensures LiesBroken(f', a, ERROR_RECORD, first)
  {
    hide RecordData, Begun, ErasedFrom, NatOf, MagicAt, PassedOver;
    NoneInHeader(key, value, cut);
    NoLength(f, f', a, key, value, cut);
    FieldErased(f, f', a, key, value, cut);
    if cut >= 4 {
      MagicOnFlash(f, f', a, key, value, cut);
    }
    forall p | a + 5 <= p && p + 4 <= a + KV_HDR_SIZE ensures !MagicAt(f', p) {
      NoMagicInCut(f, f', a, key, value, cut, p);
    }
  }

  /** Once a read has marked it, this counts as a bare header with an error. */
  lemma ErrorOnFlash(f: Bytes, f': Bytes, f'': Bytes, recs: seq<Record>, key: Bytes, value: Bytes, cut: nat)
    requires Holds(f, recs) && Begun(f, f', Start(recs, |recs|), RecordData(key, value), cut)
    requires cut < 8 && (recs == [] || cut >= 4)
    requires OnlyAt(f', f'', Start(recs, |recs|)) && LowBitsErased(f''[Start(recs, |recs|)])
    requires Encodes([f''[Start(recs, |recs|)]], KV_STATUS_NUM, StatusIndex(ErrHdr))
    ensures Holds(f'', recs + [ERROR_RECORD])
  {
    hide UsedBytes, Holds, RecordData, LiesBroken, Encodes, LowBitsErased;
    var a := Start(recs, |recs|);
    ErasedEnd(f, recs, RecordSize(key, value));
    ErrorLies(f, f', a, key, value, cut, recs == []);
    BrokenUnchanged(f', f'', a, ERROR_RECORD, recs == []);
    StartOfPrefix(recs, ERROR_RECORD, |recs|);
    OutsideHeader(f, f', f'', a, key, value, cut);
    OneMoreHolds(f, f'', recs, ERROR_RECORD);
  }

  lemma OutsideHeader(f: Bytes, f': Bytes, f'': Bytes, a: nat, key: Bytes, value: Bytes, cut: nat)
    requires Begun(f, f', a, RecordData(key, value), cut) && cut < 8 && OnlyAt(f', f'', a)
    ensures forall p :: 0 <= p < |f| && !(a <= p < a + KV_HDR_SIZE) ==> f''[p] == f[p]
  {
    hide RecordData;
  }

  // ---- With a complete length ----

  lemma LengthOnFlash(f: Bytes, f': Bytes, a: nat, key: Bytes, value: Bytes, cut: nat)
    requires Begun(f, f', a, RecordData(key, value), cut) && cut >= 8 && RecordSize(key, value) < LEN_LIMIT
    ensures NatOf(Slice(f', a + 8, 4)) == RecordSize(key, value)
  {
    hide RecordData, NatOf, NatBytes;
    LengthInData(key, value);
    NatRoundTrip(RecordSize(key, value));
    assert Slice(f', a + 8, 4) == RecordData(key, value)[4..8];
  }

  lemma LengthInData(key: Bytes, value: Bytes)
    ensures RecordData(key, value)[4..8] == NatBytes(RecordSize(key, value))
  {
    hide Payload, NatBytes, WordBytes, Crc;
    HeaderFields(key, value);
  }

  /** The checksum on flash is not that of what is on flash. */
  ghost predicate CrcFails(f: Bytes, a: nat, key: Bytes, value: Bytes) {
    Crc(0, Slice(f, a + 16, RecordSize(key, value) - 16)) != WordOf(Slice(f, a + 12, 4))
  }

  lemma BrokenLies(f: Bytes, f': Bytes, a: nat, key: Bytes, value: Bytes, cut: nat, first: bool)
    requires ErasedFrom(f, a, RecordSize(key, value)) && Begun(f, f', a, RecordData(key, value), cut)
    requires cut >= 8 && RecordSize(key, value) < LEN_LIMIT && PassedOver(key, value, cut)
        && CrcFails(f', a, key, value)
    ensures LiesBroken(f', a, Record(PreWrite, false, key, value), first)
  {
    hide RecordData, Begun, ErasedFrom, NatOf, MagicAt, Crc, WordOf, PassedOver;
    LengthOnFlash(f, f', a, key, value, cut);
    FieldErased(f, f', a, key, value, cut);
    MagicOnFlash(f, f', a, key, value, cut);
    forall p | a + 5 <= p && p + 4 <= a + RecordSize(key, value) ensures !MagicAt(f', p) {
      NoMagicInCut(f, f', a, key, value, cut, p);
    }
  }

  /** A record that is not complete, and one that is but for its status. */
  lemma RecordOnFlash(f: Bytes, f': Bytes, recs: seq<Record>, key: Bytes, value: Bytes, cut: nat)
    requires Holds(f, recs) && Begun(f, f', Start(recs, |recs|), RecordData(key, value), cut)
    requires cut >= 8 && |key| <= NAME_MAX && PassedOver(key, value, cut)
    requires CrcFails(f', Start(recs, |recs|), key, value)
    ensures Holds(f', recs + [Record(PreWrite, false, key, value)])
  {
    hide UsedBytes, Holds, RecordData, LiesBroken, Encodes, LowBitsErased, PassedOver, CrcFails;
    var a, r := Start(recs, |recs|), Record(PreWrite, false, key, value);
    SizeLimit(f, recs);
    ErasedEnd(f, recs, RecordSize(key, value));
    BrokenLies(f, f', a, key, value, cut, recs == []);
    PreWriteByte();
    StartOfPrefix(recs, r, |recs|);
    OneMoreHolds(f, f', recs, r);
  }

  lemma SizeLimit(f: Bytes, recs: seq<Record>)
    requires Holds(f, recs)
    ensures |f| < SECTOR_LIMIT
  {
    hide UsedBytes, HoldsOne;
  }

  lemma CompleteLies(f: Bytes, f': Bytes, a: nat, key: Bytes, value: Bytes)
    requires ErasedFrom(f, a, RecordSize(key, value))
    requires Begun(f, f', a, RecordData(key, value), RecordSize(key, value) - 4)
    ensures LiesAt(f', a, key, value)
  {
    hide Header, Payload, LiesAt;
    var g := f[a := 0x7F];
    LaidDown(g, f', a, key, value);
  }

  lemma CompleteOnFlash(f: Bytes, f': Bytes, recs: seq<Record>, key: Bytes, value: Bytes)
    requires Holds(f, recs) && |key| <= NAME_MAX
    requires Begun(f, f', Start(recs, |recs|), RecordData(key, value), RecordSize(key, value) - 4)
    ensures Holds(f', recs + [Record(PreWrite, true, key, value)])
  {
    hide UsedBytes, Holds, RecordData, LiesAt, Encodes, LowBitsErased;
    var r := Record(PreWrite, true, key, value);
    ErasedEnd(f, recs, RecordSize(key, value));
    CompleteLies(f, f', Start(recs, |recs|), key, value);
    PreWriteByte();
    StartOfPrefix(recs, r, |recs|);
    OneMoreHolds(f, f', recs, r);
  }

  // ---- All losses ----

  /** The bytes after a loss are those of one more record, the one that `NewRecordAfter` says: at once, or, if it
      has no length, once the next read has marked it. The checksum of a record that is not complete matches if
      what is missing would have been erased bytes; otherwise this asks that it does not match by chance, and that
      the record has no second magic word. */
  lemma LossOnFlash(f: Bytes, f': Bytes, f'': Bytes, recs: seq<Record>, key: Bytes, value: Bytes, l: Loss)
    requires Holds(f, recs) && |key| <= NAME_MAX && l.Possible() && 4 <= l.writes <= 7
    requires Begun(f, f', Start(recs, |recs|), RecordData(key, value), Cut(l, key, value))
    requires SkippedWhole(l, key, value)
    requires l.LeavesRecord() && l.writes < 7 ==>
               if l.crc then Begun(f, f', Start(recs, |recs|), RecordData(key, value), RecordSize(key, value) - 4)
               else CrcFails(f', Start(recs, |recs|), key, value)
    requires var r := NewRecordAfter(l, recs == [], key, value);
             if r == ERROR_RECORD then
               && OnlyAt(f', f'', Start(recs, |recs|)) && LowBitsErased(f''[Start(recs, |recs|)])
               && Encodes([f''[Start(recs, |recs|)]], KV_STATUS_NUM, StatusIndex(ErrHdr))
             else f'' == f'
    ensures Holds(f'', recs + [NewRecordAfter(l, recs == [], key, value)])
  {
    hide UsedBytes, Holds, RecordData, Begun, PassedOver, CrcFails, Encodes, LowBitsErased, OnlyAt;
    if l.NoMagic() && recs != [] {
      StrayOnFlash(f, f', recs, key, value, l.header);
    } else if !l.LeavesRecord() && l.writes == 4 {
      ErrorOnFlash(f, f', f'', recs, key, value, l.header);
    } else if l.writes == 7 || l.crc {
      CompleteOnFlash(f, f', recs, key, value);
    } else {
      RecordOnFlash(f, f', recs, key, value, Cut(l, key, value));
    }
  }

  // ---- Exactly when a search stops inside ----

  lemma MagicFromData(f': Bytes, a: nat, data: Bytes, cut: nat, q: nat)
    requires q + 4 <= cut <= |data| && a + 4 + cut <= |f'| && MagicIn(data, q)
    requires forall p :: a + 4 <= p < a + 4 + cut ==> f'[p] == data[p - a - 4]
    ensures MagicAt(f', a + 4 + q)
  {
    assert Slice(f', a + 4 + q, 4) == data[q..q + 4];
  }

  lemma MagicIsWritten(f: Bytes, f': Bytes, a: nat, data: Bytes, cut: nat, p: nat)
    requires a <= |f| && ErasedFrom(f, a, |f| - a) && Begun(f, f', a, data, cut) && a + 5 <= p && MagicAt(f', p)
    ensures p + 4 <= a + 4 + cut && MagicIn(data, p - a - 4)
  {
    assert Slice(f', p, 4)[3] == if p + 3 < |f'| then f'[p + 3] else BYTE_ERASED;
    assert MAGIC[3] != BYTE_ERASED;
    MagicOfData(f, f', a, data, cut, p);
  }

  /** Behind an incomplete record with a length, the search that begins one byte into it finds nothing exactly if
      no second magic word was written; otherwise it stops inside the record. */
  lemma SearchPassesExactly(f: Bytes, f': Bytes, recs: seq<Record>, key: Bytes, value: Bytes, cut: nat, r: Option<nat>)
    requires Holds(f, recs) && Begun(f, f', Start(recs, |recs|), RecordData(key, value), cut)
    requires Start(recs, |recs|) + RecordSize(key, value) + REMAIN_THRESHOLD < |f|
    requires r.Some? ==> Start(recs, |recs|) + 1 <= r.value && MagicAt(f', r.value + 4)
    requires r.None? ==> forall p :: Start(recs, |recs|) + 5 <= p && p + 32 < |f| - SECTOR_HDR_SIZE ==> !MagicAt(f', p)
    ensures PassedOver(key, value, cut) <==> r == None
    ensures r.Some? ==> r.value + 4 < Start(recs, |recs|) + RecordSize(key, value)
  {
    hide UsedBytes, Holds, RecordData, MagicAt, MagicIn, Begun, ErasedFrom;
    var a, data := Start(recs, |recs|), RecordData(key, value);
    StartWithin(f, recs);
    ErasedEnd(f, recs, |f| - a);
    BegunBytes(f, f', a, data, cut);
    if r.Some? {
      MagicIsWritten(f, f', a, data, cut, r.value + 4);
    } else if !PassedOver(key, value, cut) {
      var q :| 1 <= q && q + 4 <= cut && q + 4 <= |data| && MagicIn(data, q);
      MagicFromData(f', a, data, cut, q);
    }
  }

  lemma StartWithin(f: Bytes, recs: seq<Record>)
    requires Holds(f, recs)
    ensures Start(recs, |recs|) <= |f|
  {
    hide UsedBytes, HoldsOne;
  }

  lemma BegunBytes(f: Bytes, f': Bytes, a: nat, data: Bytes, cut: nat)
    requires Begun(f, f', a, data, cut)
    ensures |f'| == |f| && cut <= |data| && a + 4 + |data| <= |f|
    ensures forall p :: a + 4 <= p < a + 4 + cut ==> f'[p] == data[p - a - 4]
  {
  }
}
