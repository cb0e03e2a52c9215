/** What the name cache of the key-value database knows, what changes of the flash do to that, and which names it
    can take for each other. */
module KvNames {
  import opened KvStore
  import opened KvCollect
  import opened KvRefinement
  import opened KvEvery
  import opened KvCaches
  import opened Crc32
  import opened FlashBytes
  import opened RecordBytes
  import opened KvScans
  import opened KvFlashes
  import opened Wrappers

  /** Every cached address belongs to a written record whose name has the cached checksum; nothing is
      claimed for the checksums in `except`. */
  ghost predicate PointsExcept(nodes: seq<CacheNode>, db: Db, except: set<bv32>) {
    forall j :: 0 <= j < |nodes| && nodes[j].addr.Some? && nodes[j].crc !in except ==>
      WrittenUnder(db, nodes[j].addr.value, nodes[j].crc)
  }

  /** A written record whose name has the checksum. */
  ghost predicate WrittenUnder(db: Db, a: Address, crc: bv32) {
    && db.HasRecord(a) && db.RecordAt(a).crcOk && db.RecordAt(a).status == Written
    && NameCrc(db.RecordAt(a).name) == crc
  }

  lemma KnownIsWritten(nodes: seq<CacheNode>, db: Db, except: set<bv32>, crc: bv32, a: Address)
    requires PointsExcept(nodes, db, except) && Knows(nodes, crc, a) && crc !in except
    ensures WrittenUnder(db, a, crc)
  {
    hide NameCrc, WrittenUnder;
  }

  /** A name as the program remembers it: one of the maximal length loses its last byte. */
  function CutName(name: Bytes): Bytes {
    if |name| == NAME_MAX then name[..NAME_MAX - 1] + [0] else name
  }

  /** The checksums under which the cache may be wrong once a record with this name has been moved: the move
      files its new address under the checksum of the cut name, and leaves the old address where it was. */
  function Taint(name: Bytes): set<bv32> {
    if |name| == NAME_MAX then {NameCrc(name), NameCrc(CutName(name))} else {}
  }

  predicate IsShort(r: Record) { |r.name| < NAME_MAX }

  /** Moving this record leaves what is known about the checksum alone. */
  function SparesCrc(crc: bv32): Record -> bool { (r: Record) => crc !in Taint(r.name) }

  lemma SparesIsStable(crc: bv32)
    ensures Stable(SparesCrc(crc))
  {
  }

  /** With short names only, no move leaves anything in doubt. */
  lemma ShortSpares(db: Db, crc: bv32)
    requires ShortNames(db)
    ensures Every(db, SparesCrc(crc))
  {
  }

  lemma MoveSpares(db: Db, a: Address, crc: bv32)
    requires Every(db, SparesCrc(crc)) && db.oldest < |db.secs| && db.HasRecord(a) && db.RecordAt(a).Movable()
    ensures Every(Move(db, a).db, SparesCrc(crc)) && crc !in Taint(db.RecordAt(a).name)
  {
    hide Move, Stable, Taint, Every;
    SparesIsStable(crc);
    MoveKeepsEvery(db, a, SparesCrc(crc));
    RecordHas(db, a, SparesCrc(crc));
  }

  lemma MarkSpares(db: Db, a: Address, status: KvStatus, crc: bv32)
    requires Every(db, SparesCrc(crc)) && db.HasRecord(a) && !db.RecordAt(a).Stray() && status != Unused
    ensures Every(MarkRecord(db, a, status), SparesCrc(crc))
  {
    hide Taint, Every, MarkRecord;
    SparesIsStable(crc);
    MarkKeepsEvery(db, a, status, SparesCrc(crc));
  }

  lemma ReplaceSpares(db: Db, i: nat, old_: Option<Address>, key: Bytes, value: Bytes, crc: bv32)
    requires Every(db, SparesCrc(crc)) && db.oldest < |db.secs| && i < |db.secs| && crc !in Taint(key)
    requires old_.Some? ==> db.HasRecord(old_.value) && !db.RecordAt(old_.value).Stray()
    ensures Every(Replace(db, i, old_, key, value).db, SparesCrc(crc))
  {
    hide Taint, Every, Replace;
    SparesIsStable(crc);
    ReplaceKeepsEvery(db, i, old_, key, value, SparesCrc(crc));
  }

  /** What a set and a delete do to the map when the cache has a record of that name. */
  lemma LongSet(db: Db, i: nat, old_: Option<Address>, key: Bytes, value: Bytes, m: map<Bytes, Bytes>)
    requires Idle(db) && Reserved(db, i, RecordSize(key, value)) && |key| == NAME_MAX && Represents(LiveOf(db.secs), m)
    requires old_.Some? ==>
               && db.HasRecord(old_.value) && db.RecordAt(old_.value).crcOk && db.RecordAt(old_.value).name == key
    ensures var r := Replace(db, i, old_, key, value); r.error == NoError && Represents(LiveOf(r.db.secs), m)
  {
    hide LiveOf, Idle, Reserved, Replace;
    ReplaceEffect(db, i, old_, key, value);
  }

  lemma LongDelete(db: Db, a: Address, key: Bytes, m: map<Bytes, Bytes>)
    requires Idle(db) && |key| == NAME_MAX && Represents(LiveOf(db.secs), m)
    requires db.HasRecord(a) && db.RecordAt(a).crcOk && db.RecordAt(a).name == key
    ensures Represents(LiveOf(MarkRecord(db, a, Deleted).secs), m) && m - {key} == m
  {
    hide LiveOf, Idle, MarkRecord;
    DeleteEffect(db, a);
  }

  /** No record has this name. */
  function OtherName(key: Bytes): Record -> bool { (r: Record) => r.name != key }

  lemma OtherIsStable(key: Bytes)
    ensures Stable(OtherName(key))
  {
  }

  lemma ShortIsOther(db: Db, key: Bytes)
    requires ShortNames(db) && |key| >= NAME_MAX
    ensures Every(db, OtherName(key))
  {
  }

  /** No name of the maximal length is on flash. */
  ghost predicate ShortNames(db: Db) { Every(db, IsShort) }

  lemma ShortIsStable()
    ensures Stable(IsShort)
  {
  }

  // ---- Changes of the flash ----

  lemma MarkedNames(nodes: seq<CacheNode>, db: Db, a: Address, status: KvStatus, except: set<bv32>)
    requires PointsExcept(nodes, db, except) && db.HasRecord(a)
    ensures PointsExcept(nodes, MarkRecord(db, a, status), except + {NameCrc(db.RecordAt(a).name)})
    ensures db.RecordAt(a).status != Written ==> PointsExcept(nodes, MarkRecord(db, a, status), except)
  {
    hide NameCrc;
  }

  lemma AppendedNames(nodes: seq<CacheNode>, db: Db, i: nat, r: Record, except: set<bv32>)
    requires PointsExcept(nodes, db, except) && i < |db.secs|
    ensures PointsExcept(nodes, AppendRecord(db, i, r), except)
  {
    hide NameCrc;
  }

  lemma AppendedRecord(db: Db, i: nat, r: Record)
    requires i < |db.secs|
    ensures var db', a := AppendRecord(db, i, r), Address(i, |db.secs[i].recs|);
            db'.HasRecord(a) && db'.RecordAt(a) == r && a.pos == |db'.secs[i].recs| - 1
  {
  }

  lemma LearnedName(old_: seq<CacheNode>, new_: seq<CacheNode>, db: Db, a: Address, except: set<bv32>)
    requires db.HasRecord(a) && db.RecordAt(a).crcOk && db.RecordAt(a).status == Written
    requires PointsExcept(old_, db, except + {NameCrc(db.RecordAt(a).name)})
    requires Learns(old_, new_, NameCrc(db.RecordAt(a).name), a)
    ensures PointsExcept(new_, db, except)
  {
    hide NameCrc;
  }

  /** After a move the address is filed under the checksum of the cut name. */
  lemma LearnedCut(old_: seq<CacheNode>, new_: seq<CacheNode>, db: Db, a: Address, except: set<bv32>)
    requires db.HasRecord(a) && db.RecordAt(a).crcOk && db.RecordAt(a).status == Written
    requires PointsExcept(old_, db, except + {NameCrc(db.RecordAt(a).name)})
    requires Learns(old_, new_, NameCrc(CutName(db.RecordAt(a).name)), a) && |db.RecordAt(a).name| <= NAME_MAX
    ensures PointsExcept(new_, db, except + Taint(db.RecordAt(a).name))
  {
    hide NameCrc;
  }

  lemma ForgottenName(old_: seq<CacheNode>, new_: seq<CacheNode>, db: Db, crc: bv32, except: set<bv32>)
    requires PointsExcept(old_, db, except + {crc}) && Forgets(old_, new_, crc)
    ensures PointsExcept(new_, db, except)
  {
    hide NameCrc;
  }

  lemma ErasedNames(nodes: seq<CacheNode>, db: Db, x: nat, except: set<bv32>)
    requires PointsExcept(nodes, db, except) && x < |db.secs|
    requires forall j :: 0 <= j < |db.secs[x].recs| ==> db.secs[x].recs[j].status != Written
    ensures PointsExcept(nodes, db.SetSector(x, EMPTY_SECTOR), except)
  {
    hide NameCrc;
  }

  lemma PointsWeaker(nodes: seq<CacheNode>, db: Db, except: set<bv32>, crc: bv32)
    requires PointsExcept(nodes, db, except) || PointsExcept(nodes, db, except + {crc})
    ensures PointsExcept(nodes, db, except + {crc})
  {
    hide NameCrc;
  }

  lemma MatchIsFound(db: Db, a: Address, key: Bytes)
    requires db.Shaped() && db.HasRecord(a) && db.RecordAt(a).Matches(key) && db.secs[a.sector].store != Empty
    ensures Find(db, key).Some?
  {
    if Find(db, key).None? {
      FindFromMisses(db, key, 0, a.sector, a.pos);
    }
  }

  lemma LongIsNotFound(db: Db, key: Bytes)
    requires db.oldest < |db.secs| && |key| >= NAME_MAX
    ensures Find(db, key) == None
  {
  }

  // ---- The check by prefix ----

  /** How the code decides that a cached record is the one looked for: as many bytes as the key has, from
      where the record's name starts, are those of the key. */
  predicate StartsWithKey(f: Bytes, a: nat, key: Bytes) {
    |key| <= NAME_MAX && Slice(f, a + KV_HDR_SIZE, NAME_MAX)[..|key|] == key
  }

  /** The name of an intact record is where the check reads. */
  lemma NameOnFlash(f: Bytes, s: Sector, k: nat, n: nat)
    requires HoldsSector(f, s) && k < |s.recs| && Intact(s.recs[k]) && n <= |s.recs[k].name|
    ensures |s.recs[k].name| <= NAME_MAX
    ensures Slice(f, Start(s.recs, k) + KV_HDR_SIZE, NAME_MAX)[..n] == s.recs[k].name[..n]
  {
    hide HeaderHolds, UsedBytes, HoldsOne;
    SourceOfCopy(f, s, k);
    var a, name := Start(s.recs, k) + KV_HDR_SIZE, s.recs[k].name;
    forall i | 0 <= i < n ensures Slice(f, a, NAME_MAX)[i] == name[i] {
      assert Slice(f, a, |name|)[i] == name[i];
    }
  }

  /** A record passes the check for its own name, and for the beginnings of its name. */
  lemma PassesCheck(f: Bytes, s: Sector, k: nat, key: Bytes)
    requires HoldsSector(f, s) && k < |s.recs| && Intact(s.recs[k]) && key <= s.recs[k].name
    ensures StartsWithKey(f, Start(s.recs, k), key)
  {
    hide HoldsSector, UsedBytes;
    NameOnFlash(f, s, k, |key|);
    assert s.recs[k].name[..|key|] == key;
  }

  /** The cache tells these two names apart neither by checksum nor by comparing as many bytes as the name
      looked for has. */
  predicate Mistakable(name: Bytes, key: Bytes) {
    name != key && NameCrc(name) == NameCrc(key) && (key <= name || name <= key)
  }

  /** A record that passes the check for another key has a name that can be mistaken for it. */
  lemma PrefixIsMistakable(f: Bytes, s: Sector, k: nat, key: Bytes)
    requires HoldsSector(f, s) && k < |s.recs| && Intact(s.recs[k]) && StartsWithKey(f, Start(s.recs, k), key)
    requires s.recs[k].name != key && NameCrc(s.recs[k].name) == NameCrc(key)
    ensures Mistakable(s.recs[k].name, key)
  {
    hide HoldsSector, NameCrc, UsedBytes;
    var name := s.recs[k].name;
    var n := if |key| <= |name| then |key| else |name|;
    NameOnFlash(f, s, k, n);
    assert key[..n] == Slice(f, Start(s.recs, k) + KV_HDR_SIZE, NAME_MAX)[..|key|][..n];
    assert key[..n] == name[..n];
  }

  /** No key of the map can be mistaken for this one. */
  ghost predicate Unmistakable(m: map<Bytes, Bytes>, key: Bytes) {
    forall k :: k in m ==> !Mistakable(k, key)
  }

  /** No name of the maximal length can be mistaken for this one. */
  function ApartFromLong(key: Bytes): Record -> bool {
    (r: Record) => |r.name| >= NAME_MAX ==> !Mistakable(r.name, key)
  }

  lemma ApartIsStable(key: Bytes)
    ensures Stable(ApartFromLong(key))
  {
  }

  lemma ShortIsApart(db: Db, key: Bytes)
    requires ShortNames(db)
    ensures Every(db, ApartFromLong(key))
  {
  }

  lemma WrittenIsInMap(db: Db, a: Address, m: map<Bytes, Bytes>)
    requires db.HasRecord(a) && db.RecordAt(a).crcOk && db.RecordAt(a).status == Written
    requires |db.RecordAt(a).name| < NAME_MAX && Represents(LiveOf(db.secs), m)
    ensures db.RecordAt(a).name in m
  {
    MatchIsLive(db, a, db.RecordAt(a).name);
  }

  /** No two of these names can be mistaken for each other. */
  ghost predicate AllApart(names: set<Bytes>) {
    forall a, b :: a in names && b in names ==> !Mistakable(a, b)
  }

  lemma ApartIsUnmistakable(names: set<Bytes>, m: map<Bytes, Bytes>, key: Bytes)
    requires AllApart(names) && m.Keys <= names && key in names
    ensures Unmistakable(m, key)
  {
    hide Mistakable;
  }

  // ---- Two names that are mistaken for each other ----

  /** "led" and "lednw". */
  const SHORTER_NAME: Bytes := [0x6C, 0x65, 0x64]
  const LONGER_NAME: Bytes := SHORTER_NAME + [0x6E, 0x77]

  lemma MistakableByte0()
    ensures ByteStep(Fold(0xFFFFFFFF, 0x6C)) == 0x69F93D01
  {
  }

  lemma MistakableByte1()
    ensures ByteStep(Fold(0x69F93D01, 0x65)) == 0x4AB65C7C
  {
  }

  lemma MistakableByte2()
    ensures ByteStep(Fold(0x4AB65C7C, 0x64)) == 0x13262E0A
  {
  }

  lemma MistakableByte3()
    ensures ByteStep(Fold(0x13262E0A, 0x6E)) == 0x4ACC836F
  {
  }

  lemma MistakableByte4()
    ensures ByteStep(Fold(0x4ACC836F, 0x77)) == 0x132654D5
  {
  }

  lemma AbsorbNext(c: bv32, b: byte, rest: Bytes)
    ensures Absorb(c, [b] + rest) == Absorb(ByteStep(Fold(c, b)), rest)
  {
    assert ([b] + rest)[1..] == rest;
  }

  lemma ShorterNameAbsorbed(rest: Bytes)
    ensures Absorb(0xFFFFFFFF, SHORTER_NAME + rest) == Absorb(0x13262E0A, rest)
  {
    hide ByteStep, Fold, Absorb;
    MistakableByte0();
    MistakableByte1();
    MistakableByte2();
    assert SHORTER_NAME + rest == [0x6C] + ([0x65] + ([0x64] + rest));
    AbsorbNext(0xFFFFFFFF, 0x6C, [0x65] + ([0x64] + rest));
    AbsorbNext(0x69F93D01, 0x65, [0x64] + rest);
    AbsorbNext(0x4AB65C7C, 0x64, rest);
  }

  lemma LongerNameAbsorbed()
    ensures Absorb(0xFFFFFFFF, LONGER_NAME) == 0x132654D5
  {
    hide ByteStep, Fold;
    MistakableByte3();
    MistakableByte4();
    ShorterNameAbsorbed([0x6E, 0x77]);
    assert [0x6E, 0x77] == [0x6E] + ([0x77] + []);
    AbsorbNext(0x13262E0A, 0x6E, [0x77] + []);
    AbsorbNext(0x4ACC836F, 0x77, []);
  }

  lemma NamesCanBeMistaken()
    ensures Mistakable(LONGER_NAME, SHORTER_NAME) && |LONGER_NAME| < NAME_MAX && !Mistakable(SHORTER_NAME, SHORTER_NAME)
  {
    hide Absorb;
    ShorterNameAbsorbed([]);
    LongerNameAbsorbed();
    assert SHORTER_NAME + [] == SHORTER_NAME;
    AbsorbNothing(0x13262E0A);
    assert LONGER_NAME[..3] == SHORTER_NAME;
  }

  lemma AbsorbNothing(c: bv32)
    ensures Absorb(c, []) == c
  {
  }
}
