/** Visiting the log of a time series database: forwards, backwards, and a span of time. */
module TsQueries {
  import opened TsLog
  import opened TsPacking
  import opened TsDbs
  import opened TsFlashes
  import opened Wrappers

  function Reversed(s: seq<Tsl>): (r: seq<Tsl>)
    ensures |r| == |s|
  {
    if s == [] then [] else [s[|s| - 1]] + Reversed(s[..|s| - 1])
  }

  lemma {:induction false} ReversedConcat(a: seq<Tsl>, b: seq<Tsl>)
    ensures Reversed(a + b) == Reversed(b) + Reversed(a)
  {
    if b == [] {
      assert a + b == a;
    } else {
      assert (a + b)[..|a + b| - 1] == a + b[..|b| - 1];
      ReversedConcat(a, b[..|b| - 1]);
    }
  }

  /** The entries of a span of time. */
  function Within(s: seq<Tsl>, from: int, to: int): seq<Tsl> {
    if s == [] then []
    else Within(s[..|s| - 1], from, to) + (if from <= s[|s| - 1].time <= to then [s[|s| - 1]] else [])
  }

  lemma {:induction false} WithinConcat(a: seq<Tsl>, b: seq<Tsl>, from: int, to: int)
    ensures Within(a + b, from, to) == Within(a, from, to) + Within(b, from, to)
  {
    if b == [] {
      assert a + b == a;
    } else {
      assert (a + b)[..|a + b| - 1] == a + b[..|b| - 1];
      WithinConcat(a, b[..|b| - 1], from, to);
    }
  }

  lemma {:induction false} NoneWithin(s: seq<Tsl>, from: int, to: int)
    requires forall i :: 0 <= i < |s| ==> s[i].time < from || s[i].time > to
    ensures Within(s, from, to) == []
  {
    if s != [] {
      NoneWithin(s[..|s| - 1], from, to);
    }
  }

  lemma {:induction false} AllWithin(s: seq<Tsl>, from: int, to: int)
    requires forall i :: 0 <= i < |s| ==> from <= s[i].time <= to
    ensures Within(s, from, to) == s
  {
    if s != [] {
      AllWithin(s[..|s| - 1], from, to);
    }
  }

  /** The result says exactly which entries are in the span, and in what order: it is what a filter by time
      keeps. */
  lemma {:induction false} WithinExactly(s: seq<Tsl>, from: int, to: int)
    requires Increasing(s)
    ensures Increasing(Within(s, from, to))
    ensures forall t :: t in Within(s, from, to) <==> t in s && from <= t.time <= to
  {
    if s != [] {
      var a, t := s[..|s| - 1], s[|s| - 1];
      assert s == a + [t];
      WithinExactly(a, from, to);
      forall u | u in Within(a, from, to) ensures u.time < t.time {
        assert u in a;
      }
    }
  }

  // ---- Sectors ----

  /** What the visits need to know about a sector: for the one in use the cursor knows it, for the others
      their header does. */
  method SectorInfoFor(db: TsDb, i: nat) returns (info: SectorInfo)
    requires db.Valid() && i < |db.secs|
    ensures info.addr == i && info.status == db.secs[i].store
    ensures info.status == Empty <==> db.secs[i].log == []
    ensures info.status != Empty ==>
              && var log := db.secs[i].log;
                 info.startTime == Some(log[0].time) && info.endTime == log[|log| - 1].time
                     && info.endIdx == IndexAt(|log| - 1)
  {
    hide Contents, Increasing, IsSuffix;
    KindOfSector(db.secSize, db.secs, db.oldest, db.cur.addr, i);
    info := db.ReadSectorInfo(i, false, SectorInfo(0, Empty, None, 0, 0, 0, 0, 0));
    if info.status == Using {
      info := db.cur;
    }
  }

  /** The slot at an index address. */
  function SlotAt(addr: int): (k: nat)
    requires addr >= SECTOR_HDR_SIZE
  {
    (addr - SECTOR_HDR_SIZE) / LOG_IDX_SIZE
  }

  lemma SlotOfIndex(k: nat)
    ensures SlotAt(IndexAt(k)) == k
  {
  }

  /** The entries of one sector, first to last. */
  method VisitSector(db: TsDb, info: SectorInfo) returns (visited: seq<Tsl>)
    requires db.OnFlash() && info.addr < |db.secs| && db.secs[info.addr].log != []
    requires info.endIdx == IndexAt(|db.secs[info.addr].log| - 1)
    ensures visited == db.secs[info.addr].log
  {
    hide TsDb.OnFlash, DataBytes;
    ghost var s := db.secs[info.addr];
    var k := 0;
    visited := [];
    while true
      invariant 0 <= k < |s.log| && visited == s.log[..k]
      decreases |s.log| - k
    {
      var slot := db.ReadSlot(info.addr, k);
      visited := visited + [slot.value];
      if IndexAt(k) + LOG_IDX_SIZE <= info.endIdx {
        k := k + 1;
      } else {
        break;
      }
    }
  }

  /** The entries of one sector, last to first. */
  method VisitSectorReverse(db: TsDb, info: SectorInfo) returns (visited: seq<Tsl>)
    requires db.OnFlash() && info.addr < |db.secs| && db.secs[info.addr].log != []
    requires info.endIdx == IndexAt(|db.secs[info.addr].log| - 1)
    ensures visited == Reversed(db.secs[info.addr].log)
  {
    hide TsDb.OnFlash, DataBytes;
    ghost var s := db.secs[info.addr];
    hide SlotAt;
    SlotOfIndex(|s.log| - 1);
    var k := SlotAt(info.endIdx);
    visited := [];
    assert s.log[..k + 1] == s.log;
    while true
      invariant 0 <= k < |s.log| && visited + Reversed(s.log[..k + 1]) == Reversed(s.log)
      decreases k
    {
      var slot := db.ReadSlot(info.addr, k);
      assert s.log[..k + 1][..k] == s.log[..k];
      visited := visited + [slot.value];
      if IndexAt(k) >= SECTOR_HDR_SIZE + LOG_IDX_SIZE {
        k := k - 1;
      } else {
        break;
      }
    }
  }

  lemma LogsNext(s: seq<Sector>, k: nat)
    requires k < |s|
    ensures Logs(s[..k + 1]) == Logs(s[..k]) + s[k].log
  {
    assert s[..k + 1][..k] == s[..k];
  }

  /** Visit the whole log: from the oldest sector on, every entry once. */
  method Iterate(db: TsDb) returns (visited: seq<Tsl>)
    requires db.Valid()
    ensures visited == db.Log()
  {
    hide Ring, InfoAgrees, TsDb.Remembers, Order, Logs, Next;
    ghost var order := Order(db.secs, db.oldest);
    var i: nat, n: nat := db.oldest, |db.secs|;
    visited := [];
    NoLogs(order);
    for k := 0 to n
      invariant i < n && (k < n ==> Place(n, db.oldest, i) == k)
      invariant visited == Logs(order[..k])
    {
      OrderAtPlace(db.secs, db.oldest, i);
      LogsNext(order, k);
      var info := SectorInfoFor(db, i);
      if info.status != Empty {
        var entries := VisitSector(db, info);
        visited := visited + entries;
      }
      NextPlace(n, db.oldest, i);
      i := Next(n, i);
    }
    assert order[..n] == order;
  }

  lemma NoLogs(s: seq<Sector>)
    ensures Logs(s[..0]) == []
  {
  }

  function Previous(n: nat, i: nat): (j: nat)
    requires i < n
    ensures j < n && Next(n, j) == i
  {
    if i >= 1 then i - 1 else n - 1
  }

  /** The place of the sector that is `t` steps before the current one. */
  function PlaceBefore(n: nat, p: nat, t: nat): (q: nat)
    requires p < n && t < n
    ensures q < n
  {
    if t <= p then p - t else p + n - t
  }

  lemma PreviousPlace(n: nat, oldest: nat, i: nat)
    requires oldest < n && i < n
    ensures Place(n, oldest, Previous(n, i)) == if Place(n, oldest, i) > 0 then Place(n, oldest, i) - 1 else n - 1
  {
  }

  /** What is before the current sector is full, and what is behind it, empty. */
  lemma KindOfPlace(secSize: nat, secs: seq<Sector>, oldest: nat, c: nat, i: nat)
    requires Ring(secSize, secs, oldest, c) && i < |secs|
    ensures Place(|secs|, oldest, i) > Place(|secs|, oldest, c) ==> secs[i] == EMPTY_SECTOR && secs[i].store == Empty
    ensures Place(|secs|, oldest, i) < Place(|secs|, oldest, c) ==> secs[i].log != [] && secs[i].store == Full
    ensures secs[i].store == Empty <==> secs[i].log == []
  {
    OrderAtPlace(secs, oldest, i);
    KindOfSector(secSize, secs, oldest, c, i);
  }

  lemma ReversedNext(s: seq<Sector>, q: nat, p: nat)
    requires q <= p < |s|
    ensures Reversed(Logs(s[q + 1..p + 1])) + Reversed(s[q].log) == Reversed(Logs(s[q..p + 1]))
  {
    hide Logs;
    assert s[q..p + 1] == [s[q]] + s[q + 1..p + 1];
    LogsConcat([s[q]], s[q + 1..p + 1]);
    LogsOne(s[q]);
    ReversedConcat(s[q].log, Logs(s[q + 1..p + 1]));
  }

  lemma ReversedStart(s: seq<Sector>, p: nat)
    requires p < |s|
    ensures Reversed(Logs(s[p + 1..p + 1])) == []
  {
  }

  /** Visit the whole log backwards: exactly the reverse of the visit forwards. */
  method IterateReverse(db: TsDb) returns (visited: seq<Tsl>)
    requires db.Valid()
    ensures visited == Reversed(db.Log())
  {
    hide Around, UsingSector, FullSector, InfoAgrees, TsDb.Remembers, Order, Logs, Place, Reversed, TsDb.OnFlash;
    ghost var order := Order(db.secs, db.oldest);
    var i: nat, n: nat := db.cur.addr, |db.secs|;
    ghost var p := Place(n, db.oldest, i);
    WholeLog(db.secSize, db.secs, db.oldest, i);
    visited := [];
    ReversedStart(order, p);
    for t := 0 to n
      invariant i < n && (t < n ==> Place(n, db.oldest, i) == PlaceBefore(n, p, t))
      invariant t <= p + 1 && visited == Reversed(Logs(order[p + 1 - t..p + 1]))
    {
      OrderAtPlace(db.secs, db.oldest, i);
      KindOfPlace(db.secSize, db.secs, db.oldest, db.cur.addr, i);
      var info := SectorInfoFor(db, i);
      if info.status != Empty {
        ReversedNext(order, p - t, p);
        var entries := VisitSectorReverse(db, info);
        visited := visited + entries;
      } else {
        EmptyIsEnd(db.secSize, db.secs, db.oldest, db.cur.addr, i, t);
        return;
      }
      PreviousPlace(n, db.oldest, i);
      i := if i >= 1 then i - 1 else n - 1;
    }
  }

  lemma WholeLog(secSize: nat, secs: seq<Sector>, oldest: nat, c: nat)
    requires Ring(secSize, secs, oldest, c)
    ensures Contents(secs, oldest) == Logs(Order(secs, oldest)[0..Place(|secs|, oldest, c) + 1])
  {
    var s, p := Order(secs, oldest), Place(|secs|, oldest, c);
    AroundContents(secSize, secs, oldest, c);
    LogsNext(s, p);
    OrderAtPlace(secs, oldest, c);
  }

  /** Going backwards, an empty sector means that everything was visited. */
  lemma EmptyIsEnd(secSize: nat, secs: seq<Sector>, oldest: nat, c: nat, i: nat, t: nat)
    requires Ring(secSize, secs, oldest, c) && i < |secs| && t < |secs|
    requires Place(|secs|, oldest, i) == PlaceBefore(|secs|, Place(|secs|, oldest, c), t)
    requires t <= Place(|secs|, oldest, c) + 1 && secs[i].store == Empty
    ensures var p := Place(|secs|, oldest, c);
            Logs(Order(secs, oldest)[p + 1 - t..p + 1]) == Logs(Order(secs, oldest)[0..p + 1])
  {
    var s, p := Order(secs, oldest), Place(|secs|, oldest, c);
    OrderAtPlace(secs, oldest, i);
    OrderAtPlace(secs, oldest, c);
    if t == 0 {
      assert i == c && p == 0;
      LogsNext(s, 0);
      ReversedStart(s, 0);
      assert s[..1] == s[0..1];
    }
  }

  // ---- A span of time ----

  function Align(size: nat, align: nat): nat
    requires align > 0
  {
    (size + align - 1) - (size + align - 1) % align
  }

  lemma Middle(a: nat, b: nat)
    requires a <= b
    ensures IndexAt(a) + Align((IndexAt(b) - IndexAt(a)) / 2, LOG_IDX_SIZE) == IndexAt(a + (b - a + 1) / 2)
  {
    var d := b - a;
    assert (IndexAt(b) - IndexAt(a)) / 2 == 8 * d;
    if d % 2 == 0 {
      assert 8 * d + 15 == 16 * (d / 2) + 15;
    } else {
      assert 8 * d + 15 == 16 * ((d + 1) / 2) + 7;
    }
  }

  /** Slot `k` is where the entries from `from` on begin. */
  ghost predicate FirstFrom(log: seq<Tsl>, k: nat, from: int) {
    && k <= |log|
    && (forall j :: 0 <= j < k ==> log[j].time < from)
    && (forall j :: k <= j < |log| ==> log[j].time >= from)
  }

  function Exp2(n: nat): nat { if n == 0 then 1 else 2 * Exp2(n - 1) }

  /** With `left` slots left after so many probes, each probe has halved what was left of `n`. */
  predicate Halved(left: int, probes: nat, n: nat) { left * Exp2(probes) <= n }

  lemma NoProbes(n: nat)
    ensures Halved(n, 0, n)
  {
  }

  lemma OneProbe(left: nat, left': nat, probes: nat, n: nat)
    requires 2 * left' <= left && Halved(left, probes, n)
    ensures Halved(left', probes + 1, n)
  {
    assert left' * Exp2(probes + 1) == (2 * left') * Exp2(probes);
    assert (2 * left') * Exp2(probes) <= left * Exp2(probes);
  }

  lemma OneIsLeft(left: nat, probes: nat, n: nat)
    requires left >= 1 && Halved(left, probes, n)
    ensures Exp2(probes) <= n
  {
    assert 1 * Exp2(probes) <= left * Exp2(probes);
  }

  /** Read the slot in the middle of a range of addresses: what is left on either side is no more than half. */
  method ReadMiddle(db: TsDb, i: nat, lo: int, hi: int, ghost a: nat, ghost b: int, ghost s: Sector)
    returns (addr: int, t: Tsl, ghost m: nat)
    requires db.OnFlash() && i < |db.secs| && s == db.secs[i]
    requires lo == IndexAt(a) && hi == IndexAt(b) && a <= b < |s.log|
    ensures a <= m <= b && 2 * (m - a) <= b - a + 1 && 2 * (b - m) <= b - a + 1
    ensures addr == IndexAt(m) && SlotAt(addr) == m && t == s.log[m]
  {
    hide Align, SlotAt, TsDb.OnFlash, DataBytes;
    Middle(a, b);
    m := a + (b - a + 1) / 2;
    addr := lo + Align((hi - lo) / 2, LOG_IDX_SIZE);
    SlotOfIndex(m);
    var slot := db.ReadSlot(i, SlotAt(addr));
    t := slot.value;
  }

  /** What one comparison says about all entries. */
  lemma Compared(log: seq<Tsl>, m: nat, from: int)
    requires Increasing(log) && m < |log|
    ensures log[m].time < from ==> forall j :: 0 <= j <= m ==> log[j].time < from
    ensures log[m].time > from ==> forall j :: m <= j < |log| ==> log[j].time > from
    ensures log[m].time == from ==> FirstFrom(log, m, from)
  {
  }

  lemma Crossed(log: seq<Tsl>, k: nat, from: int)
    requires k <= |log|
    requires (forall j :: 0 <= j < k ==> log[j].time < from) && (forall j :: k <= j < |log| ==> log[j].time > from)
    ensures FirstFrom(log, k, from)
  {
  }

  /** Search the index of a sector for the first entry from `from` on, halving the range of addresses. The
      search always ends, and every probe but one halves what is left. */
  method SearchStart(db: TsDb, i: nat, start: int, end: int, from: int, ghost s: Sector)
    returns (addr: int, ghost probes: nat)
    requires db.OnFlash() && i < |db.secs| && s == db.secs[i]
    requires s.log != [] && Increasing(s.log) && start == IndexAt(0) && end == IndexAt(|s.log| - 1)
    ensures addr >= SECTOR_HDR_SIZE && addr == IndexAt(SlotAt(addr)) && FirstFrom(s.log, SlotAt(addr), from)
    ensures probes >= 1 && Exp2(probes - 1) <= |s.log|
  {
    probes := 0;
    hide Align, SlotAt, TsDb.OnFlash, DataBytes;
    var lo, hi := start, end;
    ghost var a: nat, b: int := 0, |s.log| - 1;
    NoProbes(|s.log|);
    hide Exp2, Halved, Increasing, FirstFrom;
    while true
      invariant lo == IndexAt(a) && hi == IndexAt(b) && a <= b < |s.log|
      invariant forall j :: 0 <= j < a ==> s.log[j].time < from
      invariant forall j :: b < j < |s.log| ==> s.log[j].time > from
      invariant Halved(b - a + 1, probes, |s.log|)
      decreases b - a
    {
      ghost var left := b - a + 1;
      OneIsLeft(left, probes, |s.log|);
      probes := probes + 1;
      var t: Tsl;
      ghost var m: nat;
      addr, t, m := ReadMiddle(db, i, lo, hi, a, b, s);
      Compared(s.log, m, from);
      if t.time < from {
        lo, a := addr + LOG_IDX_SIZE, m + 1;
      } else if t.time > from {
        hi, b := addr - LOG_IDX_SIZE, m - 1;
      } else {
        return;
      }
      OneProbe(left, b - a + 1, probes - 1, |s.log|);
      if lo > hi {
        break;
      }
    }
    SlotOfIndex(a);
    Crossed(s.log, a, from);
    addr := lo;
  }

  lemma WithinThree(log: seq<Tsl>, i: nat, j: nat, from: int, to: int)
    requires i <= j <= |log|
    requires forall l :: 0 <= l < i ==> log[l].time < from
    requires forall l :: i <= l < j ==> from <= log[l].time <= to
    requires forall l :: j <= l < |log| ==> log[l].time > to
    ensures Within(log, from, to) == log[i..j]
  {
    hide Within;
    InThree(log, i, j);
    WithinConcat(log[..i] + log[i..j], log[j..], from, to);
    WithinConcat(log[..i], log[i..j], from, to);
    NoneWithin(log[..i], from, to);
    AllWithin(log[i..j], from, to);
    NoneWithin(log[j..], from, to);
  }

  lemma InThree(log: seq<Tsl>, i: nat, j: nat)
    requires i <= j <= |log|
    ensures log == (log[..i] + log[i..j]) + log[j..]
  {
  }

  /** The entries of a sector in the span, and whether it ends there. */
  method VisitWithin(db: TsDb, info: SectorInfo, from: int, to: int) returns (visited: seq<Tsl>, ended: bool)
    requires db.OnFlash() && info.addr < |db.secs| && from <= to
    requires var log := db.secs[info.addr].log;
             log != [] && Increasing(log) && from <= log[|log| - 1].time && info.endIdx == IndexAt(|log| - 1)
    ensures var log := db.secs[info.addr].log;
            visited == Within(log, from, to) && ended == (log[|log| - 1].time > to)
  {
    hide Within, SlotAt;
    hide TsDb.OnFlash, DataBytes;
    ghost var s := db.secs[info.addr];
    var addr, _ := SearchStart(db, info.addr, SECTOR_HDR_SIZE, info.endIdx, from, s);
    visited := [];
    ghost var first := SlotAt(addr);
    var k := SlotAt(addr);
    while true
      invariant first <= k < |s.log| && visited == s.log[first..k]
      invariant forall l :: first <= l < k ==> from <= s.log[l].time <= to
      decreases |s.log| - k
    {
      var slot := db.ReadSlot(info.addr, k);
      if !(from <= slot.value.time <= to) {
        WithinThree(s.log, first, k, from, to);
        return visited, true;
      }
      visited := visited + [slot.value];
      if IndexAt(k) + LOG_IDX_SIZE <= info.endIdx {
        k := k + 1;
      } else {
        break;
      }
    }
    WithinThree(s.log, first, |s.log|, from, to);
    return visited, false;
  }

  lemma SplitLogs(s: seq<Sector>, k: nat)
    requires k <= |s|
    ensures Logs(s) == Logs(s[..k]) + Logs(s[k..])
  {
    assert s == s[..k] + s[k..];
    LogsConcat(s[..k], s[k..]);
  }

  ghost predicate AllAfter(s: seq<Tsl>, time: int) {
    forall i :: 0 <= i < |s| ==> s[i].time > time
  }

  lemma NothingIsAfter(time: int)
    ensures AllAfter([], time)
  {
  }

  /** What is behind a sector is later than its last entry. */
  lemma LaterBehind(s: seq<Sector>, k: nat, from: int)
    requires k < |s| && Increasing(Logs(s)) && s[k].log != []
    ensures Increasing(s[k].log)
    ensures AllAfter(Logs(s[k + 1..]), s[k].log[|s[k].log| - 1].time)
  {
    hide Logs;
    LogsAround(s, k);
    var a, b, c := Logs(s[..k]), s[k].log, Logs(s[k + 1..]);
    assert forall i :: 0 <= i < |b| ==> b[i] == Logs(s)[|a| + i];
    assert forall i :: 0 <= i < |c| ==> c[i] == Logs(s)[|a| + |b| + i];
  }

  lemma NothingBehindEmpty(secSize: nat, secs: seq<Sector>, oldest: nat, c: nat, k: nat)
    requires Ring(secSize, secs, oldest, c) && k < |secs| && Order(secs, oldest)[k].store == Empty
    ensures Logs(Order(secs, oldest)[k..]) == []
  {
    hide Logs, FullSector;
    var s, p := Order(secs, oldest), Place(|secs|, oldest, c);
    OrderAtPlace(secs, oldest, c);
    NotEmptyBefore(secSize, secs, oldest, c, k);
    NothingInEmpty(s[k..]);
  }

  lemma NotEmptyBefore(secSize: nat, secs: seq<Sector>, oldest: nat, c: nat, k: nat)
    requires Ring(secSize, secs, oldest, c) && k < |secs| && Order(secs, oldest)[k].store == Empty
    ensures k >= Place(|secs|, oldest, c)
  {
  }

  lemma WithinSplit(s: seq<Sector>, k: nat, from: int, to: int)
    requires k < |s|
    ensures Within(Logs(s[..k + 1]), from, to) == Within(Logs(s[..k]), from, to) + Within(s[k].log, from, to)
  {
    hide Logs, Within;
    LogsNext(s, k);
    WithinConcat(Logs(s[..k]), s[k].log, from, to);
  }

  lemma NoneBehind(s: seq<Sector>, k: nat, from: int, to: int)
    requires k <= |s| && AllAfter(Logs(s[k..]), to)
    ensures Within(Logs(s), from, to) == Within(Logs(s[..k]), from, to)
  {
    hide Logs, Within;
    SplitLogs(s, k);
    WithinConcat(Logs(s[..k]), Logs(s[k..]), from, to);
    NoneWithin(Logs(s[k..]), from, to);
  }

  /** Every entry from sector `k` on is from `from` on. */
  ghost predicate AllFrom(s: seq<Sector>, k: nat, from: int)
    requires k <= |s|
  {
    forall i :: 0 <= i < |Logs(s[k..])| ==> Logs(s[k..])[i].time >= from
  }

  /** Visit the entries of a span of time: exactly those a filter by time would keep, each once and in
      order, found by one binary search for each sector from the first that reaches into the span. */
  method IterateByTime(db: TsDb, from: int, to: int) returns (visited: seq<Tsl>)
    requires db.Valid() && from <= to
    ensures visited == Within(db.Log(), from, to)
  {
    hide Ring, InfoAgrees, Increasing, IsSuffix, Order, Logs, Next, Within, AllFrom, AllAfter, HoldsGroups, TsDb.OnFlash;
    ghost var order := Order(db.secs, db.oldest);
    var i: nat, n: nat, found := db.oldest, |db.secs|, false;
    visited := [];
    NothingWithin(order, from, to);
    for k := 0 to n
      invariant i < n && (k < n ==> Place(n, db.oldest, i) == k)
      invariant visited == Within(Logs(order[..k]), from, to)
      invariant found ==> AllFrom(order, k, from)
    {
      OrderAtPlace(db.secs, db.oldest, i);
      WithinSplit(order, k, from, to);
      var info := SectorInfoFor(db, i);
      if info.status == Empty {
        NothingBehindEmpty(db.secSize, db.secs, db.oldest, db.cur.addr, k);
        NothingIsAfter(to);
        NoneBehind(order, k, from, to);
        return;
      }
      SectorTimes(order, k, from, to);
      if found || (i == db.oldest && from <= info.startTime.value) || from <= info.endTime {
        found := true;
        var entries, ended := VisitWithin(db, info, from, to);
        visited := visited + entries;
        if ended {
          NoneBehind(order, k + 1, from, to);
          return;
        }
      }
      NextPlace(n, db.oldest, i);
      i := Next(n, i);
    }
    assert order[..n] == order;
  }

  lemma NothingWithin(s: seq<Sector>, from: int, to: int)
    ensures Within(Logs(s[..0]), from, to) == []
  {
  }

  /** What the times at both ends of a sector say about the search. */
  lemma SectorTimes(s: seq<Sector>, k: nat, from: int, to: int)
    requires k < |s| && Increasing(Logs(s)) && s[k].log != []
    ensures var log := s[k].log;
            && Increasing(log) && log[0].time <= log[|log| - 1].time
            && (AllFrom(s, k, from) ==> from <= log[|log| - 1].time)
            && (from <= log[|log| - 1].time ==> AllFrom(s, k + 1, from))
            && (log[|log| - 1].time > to ==> AllAfter(Logs(s[k + 1..]), to))
            && (log[|log| - 1].time < from ==> Within(log, from, to) == [])
  {
    hide Logs, Within;
    LaterBehind(s, k, from);
    var log := s[k].log;
    if log[|log| - 1].time < from {
      NoneWithin(log, from, to);
    }
    if AllFrom(s, k, from) {
      SplitLogs(s[k..], 1);
      LogsOne(s[k]);
      assert s[k..][..1] == [s[k]];
      assert Logs(s[k..])[|log| - 1] == log[|log| - 1];
    }
  }
}
