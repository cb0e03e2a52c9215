/** The time series log as values: sectors of entries in a circle, and where its parts lie in a sector. */
module TsLog {
  import opened Wrappers

  type byte = bv8
  type Bytes = seq<byte>

  const SECTOR_HDR_SIZE: nat := 32
  const LOG_IDX_SIZE: nat := 16

  datatype Tsl = Tsl(time: int, blob: Bytes)

  datatype StoreStatus = Empty | Using | Full

  /** Written into the header of a sector when it is closed: the time and the index address of its last entry. */
  datatype EndInfo = EndInfo(time: int, index: int)

  datatype Sector = Sector(store: StoreStatus, startTime: Option<int>, end: Option<EndInfo>, log: seq<Tsl>)

  const EMPTY_SECTOR: Sector := Sector(Empty, None, None, [])

  function DataBytes(log: seq<Tsl>): nat {
    if log == [] then 0 else DataBytes(log[..|log| - 1]) + |log[|log| - 1].blob|
  }

  /** Index entries grow up from the header, data grows down from the end of the sector. */
  function IndexAt(k: int): int { SECTOR_HDR_SIZE + LOG_IDX_SIZE * k }

  function Remain(secSize: nat, log: seq<Tsl>): int { secSize - DataBytes(log) - IndexAt(|log|) }

  ghost predicate Increasing(log: seq<Tsl>) {
    forall i, j :: 0 <= i < j < |log| ==> log[i].time < log[j].time
  }

  // ---- Sectors in a circle ----

  /** The entries of the sectors, one sector after the other. */
  function Logs(secs: seq<Sector>): seq<Tsl> {
    if secs == [] then [] else Logs(secs[..|secs| - 1]) + secs[|secs| - 1].log
  }

  /** The sectors from the oldest one around the end of the flash. */
  function Order(secs: seq<Sector>, oldest: nat): (s: seq<Sector>)
    requires oldest < |secs|
    ensures |s| == |secs|
  {
    secs[oldest..] + secs[..oldest]
  }

  /** The place of sector `i` in that order. */
  function Place(n: nat, oldest: nat, i: nat): (p: nat)
    requires oldest < n && i < n
    ensures p < n
  {
    if i >= oldest then i - oldest else i + n - oldest
  }

  function Next(n: nat, i: nat): (j: nat)
    requires i < n
    ensures j < n
  {
    if i + 1 < n then i + 1 else 0
  }

  lemma OrderAtPlace(secs: seq<Sector>, oldest: nat, i: nat)
    requires oldest < |secs| && i < |secs|
    ensures Order(secs, oldest)[Place(|secs|, oldest, i)] == secs[i]
  {
  }

  lemma NextPlace(n: nat, oldest: nat, i: nat)
    requires oldest < n && i < n
    ensures Place(n, oldest, i) + 1 < n ==> Place(n, oldest, Next(n, i)) == Place(n, oldest, i) + 1
    ensures Place(n, oldest, i) + 1 == n ==> Next(n, i) == oldest
  {
  }

  lemma OrderUpdate(secs: seq<Sector>, oldest: nat, i: nat, s: Sector)
    requires oldest < |secs| && i < |secs|
    ensures Order(secs[i := s], oldest) == Order(secs, oldest)[Place(|secs|, oldest, i) := s]
  {
  }

  /** Starting one sector later turns the circle by one. */
  lemma OrderTurns(secs: seq<Sector>, oldest: nat)
    requires oldest < |secs|
    ensures Order(secs, Next(|secs|, oldest)) == Order(secs, oldest)[1..] + [secs[oldest]]
  {
  }

  lemma {:induction false} LogsConcat(a: seq<Sector>, b: seq<Sector>)
    ensures Logs(a + b) == Logs(a) + Logs(b)
  {
    if b == [] {
      assert a + b == a;
    } else {
      assert (a + b)[..|a + b| - 1] == a + b[..|b| - 1];
      LogsConcat(a, b[..|b| - 1]);
    }
  }

  lemma LogsOne(s: Sector)
    ensures Logs([s]) == s.log
  {
    assert [s][..0] == [];
  }

  lemma {:induction false} NothingInEmpty(secs: seq<Sector>)
    requires forall i :: 0 <= i < |secs| ==> secs[i].log == []
    ensures Logs(secs) == []
  {
    if secs != [] {
      NothingInEmpty(secs[..|secs| - 1]);
    }
  }

  lemma SplitAround(secs: seq<Sector>, p: nat)
    requires p < |secs|
    ensures secs == (secs[..p] + [secs[p]]) + secs[p + 1..]
  {
  }

  lemma LogsOfThree(a: seq<Sector>, s: Sector, b: seq<Sector>)
    ensures Logs((a + [s]) + b) == Logs(a) + s.log + Logs(b)
  {
    hide Logs;
    LogsConcat(a + [s], b);
    LogsConcat(a, [s]);
    LogsOne(s);
  }

  /** The entries before, in, and after one sector. */
  lemma LogsAround(secs: seq<Sector>, p: nat)
    requires p < |secs|
    ensures Logs(secs) == Logs(secs[..p]) + secs[p].log + Logs(secs[p + 1..])
  {
    hide Logs;
    SplitAround(secs, p);
    LogsOfThree(secs[..p], secs[p], secs[p + 1..]);
  }

  lemma DataBytesAppend(log: seq<Tsl>, t: Tsl)
    ensures DataBytes(log + [t]) == DataBytes(log) + |t.blob|
  {
    assert (log + [t])[..|log|] == log;
  }

  lemma DataBytesNext(log: seq<Tsl>, k: nat)
    requires k < |log|
    ensures DataBytes(log[..k + 1]) == DataBytes(log[..k]) + |log[k].blob|
  {
    assert log[..k + 1][..k] == log[..k];
  }

  lemma {:induction false} DataBytesPrefix(log: seq<Tsl>, k: nat)
    requires k <= |log|
    ensures DataBytes(log[..k]) <= DataBytes(log)
    decreases |log| - k
  {
    if k < |log| {
      DataBytesNext(log, k);
      DataBytesPrefix(log, k + 1);
    } else {
      assert log[..k] == log;
    }
  }

  // ---- What holds of every log ----

  ghost predicate FullSector(secSize: nat, s: Sector) {
    && s.store == Full && s.log != [] && Remain(secSize, s.log) >= 0
    && s.startTime == Some(s.log[0].time)
    && s.end == Some(EndInfo(s.log[|s.log| - 1].time, IndexAt(|s.log| - 1)))
  }

  ghost predicate UsingSector(secSize: nat, s: Sector) {
    && s.store == Using && s.log != [] && Remain(secSize, s.log) >= 0
    && s.startTime == Some(s.log[0].time) && s.end == None
  }

  /** The sectors around the current one: those before it in the order are full, those behind it empty; and
      once the log has gone around, there are none behind it. */
  ghost predicate Around(secSize: nat, secs: seq<Sector>, oldest: nat, c: nat) {
    && oldest < |secs| && c < |secs|
    && var s, p := Order(secs, oldest), Place(|secs|, oldest, c);
       && (forall k :: 0 <= k < p ==> FullSector(secSize, s[k]))
       && (forall k :: p < k < |s| ==> s[k] == EMPTY_SECTOR)
       && (oldest == 0 || p + 1 == |secs|)
  }

  /** Between operations the current sector is in use; or nothing was ever written; or, without rollover,
      the database is full. */
  ghost predicate Ring(secSize: nat, secs: seq<Sector>, oldest: nat, c: nat) {
    && Around(secSize, secs, oldest, c)
    && match secs[c].store
       case Empty => secs[c] == EMPTY_SECTOR && c == 0 && oldest == 0
       case Using => UsingSector(secSize, secs[c])
       case Full => FullSector(secSize, secs[c]) && c + 1 == |secs| && oldest == 0
  }

  /** The log, oldest entry first. */
  function Contents(secs: seq<Sector>, oldest: nat): seq<Tsl>
    requires oldest < |secs|
  {
    Logs(Order(secs, oldest))
  }

  ghost predicate IsSuffix(s: seq<Tsl>, all: seq<Tsl>) {
    |s| <= |all| && s == all[|all| - |s|..]
  }

  /** Nothing is behind the current sector, so it ends the log. */
  lemma AroundContents(secSize: nat, secs: seq<Sector>, oldest: nat, c: nat)
    requires Around(secSize, secs, oldest, c)
    ensures Contents(secs, oldest) == Logs(Order(secs, oldest)[..Place(|secs|, oldest, c)]) + secs[c].log
  {
    hide Logs, FullSector;
    var s, p := Order(secs, oldest), Place(|secs|, oldest, c);
    LogsAround(s, p);
    OrderAtPlace(secs, oldest, c);
    NothingInEmpty(s[p + 1..]);
    assert Logs(s[..p]) + secs[c].log + [] == Logs(s[..p]) + secs[c].log;
  }

  /** Writing to the current sector changes only the end of the log. */
  lemma AroundUpdate(secSize: nat, secs: seq<Sector>, oldest: nat, c: nat, s: Sector)
    requires Around(secSize, secs, oldest, c)
    ensures Around(secSize, secs[c := s], oldest, c)
    ensures Contents(secs[c := s], oldest) == Logs(Order(secs, oldest)[..Place(|secs|, oldest, c)]) + s.log
  {
    hide Logs, FullSector;
    var p := Place(|secs|, oldest, c);
    OrderUpdate(secs, oldest, c, s);
    assert Order(secs[c := s], oldest)[..p] == Order(secs, oldest)[..p];
    AroundContents(secSize, secs[c := s], oldest, c);
  }

  /** While empty sectors are left, the next one becomes the current one. */
  lemma AroundNext(secSize: nat, secs: seq<Sector>, oldest: nat, c: nat)
    requires Around(secSize, secs, oldest, c) && FullSector(secSize, secs[c])
    requires Place(|secs|, oldest, c) + 1 < |secs|
    ensures oldest == 0 && c + 1 < |secs| && secs[c + 1] == EMPTY_SECTOR
    ensures Around(secSize, secs, oldest, c + 1)
  {
    hide FullSector;
    OrderAtPlace(secs, oldest, c);
    OrderAtPlace(secs, oldest, c + 1);
  }

  /** When none is left, the oldest sector is given up: its entries, and no others, leave the log. */
  lemma AroundReclaims(secSize: nat, secs: seq<Sector>, oldest: nat, c: nat)
    requires Around(secSize, secs, oldest, c) && FullSector(secSize, secs[c])
    requires Place(|secs|, oldest, c) + 1 == |secs|
    ensures Next(|secs|, c) == oldest && secs[oldest].store == Full
    ensures |secs[oldest].log| <= |Contents(secs, oldest)|
    ensures var secs', oldest' := secs[oldest := EMPTY_SECTOR], Next(|secs|, oldest);
            && Around(secSize, secs', oldest', oldest)
            && Contents(secs', oldest') == Contents(secs, oldest)[|secs[oldest].log|..]
  {
    hide Logs;
    NextPlace(|secs|, oldest, c);
    var s := Order(secs, oldest);
    var secs', oldest' := secs[oldest := EMPTY_SECTOR], Next(|secs|, oldest);
    OrderAtPlace(secs, oldest, c);
    OrderAtPlace(secs, oldest, oldest);
    TurnedOrder(secs, oldest);
    var s' := Order(secs', oldest');
    assert forall k :: 0 <= k < |s'| - 1 ==> s'[k] == s[1..][k];
    DropFirstLog(s);
    assert s'[..|s| - 1] == s[1..];
    AroundContents(secSize, secs', oldest', oldest);
    assert Logs(s[1..]) + [] == Logs(s[1..]);
  }

  lemma TurnedOrder(secs: seq<Sector>, oldest: nat)
    requires oldest < |secs|
    ensures Order(secs[oldest := EMPTY_SECTOR], Next(|secs|, oldest)) == Order(secs, oldest)[1..] + [EMPTY_SECTOR]
    ensures Place(|secs|, Next(|secs|, oldest), oldest) + 1 == |secs|
    ensures Next(|secs|, oldest) == 0 || Place(|secs|, Next(|secs|, oldest), oldest) + 1 == |secs|
  {
    OrderTurns(secs[oldest := EMPTY_SECTOR], oldest);
    OrderUpdate(secs, oldest, oldest, EMPTY_SECTOR);
  }

  lemma DropFirstLog(s: seq<Sector>)
    requires s != []
    ensures |s[0].log| <= |Logs(s)| && Logs(s[1..]) == Logs(s)[|s[0].log|..]
  {
    hide Logs;
    var a, b := [s[0]], s[1..];
    assert s == a + b;
    LogsConcat(a, b);
    LogsOne(s[0]);
  }

  /** A sector is the one in use, or full, or empty. */
  lemma KindOfSector(secSize: nat, secs: seq<Sector>, oldest: nat, c: nat, i: nat)
    requires Ring(secSize, secs, oldest, c) && i < |secs|
    ensures i != c || secs[c].store != Using ==> FullSector(secSize, secs[i]) || secs[i] == EMPTY_SECTOR
    ensures secs[i].store == Using ==> i == c && UsingSector(secSize, secs[c])
    ensures i == c && secs[c].store == Using ==> UsingSector(secSize, secs[c])
  {
    OrderAtPlace(secs, oldest, i);
    OrderAtPlace(secs, oldest, c);
    var p, q := Place(|secs|, oldest, c), Place(|secs|, oldest, i);
    assert p == q ==> i == c;
  }

  /** Which sectors are full and which are empty, in the order of their numbers. */
  lemma KindByNumber(secSize: nat, secs: seq<Sector>, oldest: nat, c: nat, i: nat)
    requires Ring(secSize, secs, oldest, c) && i < |secs|
    ensures i != c ==> secs[i].store != Using
    ensures i < c ==> secs[i].store == Full
    ensures i > c ==> (secs[i].store == Empty <==> Place(|secs|, oldest, c) + 1 < |secs|)
  {
    hide FullSector, UsingSector;
    OrderAtPlace(secs, oldest, i);
    OrderAtPlace(secs, oldest, c);
    StoreByPlace(secSize, secs, oldest, c, Place(|secs|, oldest, i));
  }

  lemma StoreByPlace(secSize: nat, secs: seq<Sector>, oldest: nat, c: nat, k: nat)
    requires Around(secSize, secs, oldest, c) && k < |secs|
    ensures k < Place(|secs|, oldest, c) ==> Order(secs, oldest)[k].store == Full
    ensures k > Place(|secs|, oldest, c) ==> Order(secs, oldest)[k].store == Empty
  {
  }

  // ---- The log grows in time order ----

  lemma IncreasingAppend(log: seq<Tsl>, t: Tsl)
    requires Increasing(log) && (log != [] ==> log[|log| - 1].time < t.time)
    ensures Increasing(log + [t])
  {
  }

  lemma IncreasingPart(log: seq<Tsl>, i: nat, j: nat)
    requires Increasing(log) && i <= j <= |log|
    ensures Increasing(log[i..j])
  {
  }
}
