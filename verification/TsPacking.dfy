/** Which entries share a sector: each goes behind the one before it as long as there is room. */
module TsPacking {
  import opened TsLog
  import opened Wrappers

  function Pack(secSize: nat, all: seq<Tsl>): (groups: seq<seq<Tsl>>)
    ensures all == [] <==> groups == []
  {
    if all == [] then []
    else
      var g, t := Pack(secSize, all[..|all| - 1]), all[|all| - 1];
      if g != [] && Remain(secSize, g[|g| - 1]) >= LOG_IDX_SIZE + |t.blob| then g[|g| - 1 := g[|g| - 1] + [t]]
      else g + [[t]]
  }

  function Flatten(groups: seq<seq<Tsl>>): seq<Tsl> {
    if groups == [] then [] else Flatten(groups[..|groups| - 1]) + groups[|groups| - 1]
  }

  /** A sector has room for one entry with a blob of this size. */
  predicate HasRoomFor(secSize: nat, log: seq<Tsl>, len: nat) {
    Remain(secSize, log) >= LOG_IDX_SIZE + len
  }

  predicate IsGroup(secSize: nat, log: seq<Tsl>) { log != [] && Remain(secSize, log) >= 0 }

  /** A group that has no room for the first entry of the next. */
  predicate LeftFull(secSize: nat, log: seq<Tsl>, next: seq<Tsl>) {
    next != [] && !HasRoomFor(secSize, log, |next[0].blob|)
  }

  /** No group is empty or takes more than a sector has, and none had room for the first entry of the next. */
  ghost predicate Tight(secSize: nat, g: seq<seq<Tsl>>) {
    && (forall i :: 0 <= i < |g| ==> IsGroup(secSize, g[i]))
    && (forall i, j :: 0 <= i < j < |g| && j == i + 1 ==> LeftFull(secSize, g[i], g[j]))
  }

  lemma {:induction false} PackTight(secSize: nat, all: seq<Tsl>)
    requires forall i :: 0 <= i < |all| ==> SECTOR_HDR_SIZE + LOG_IDX_SIZE + |all[i].blob| <= secSize
    ensures Tight(secSize, Pack(secSize, all)) && Flatten(Pack(secSize, all)) == all
  {
    if all != [] {
      var before, t := all[..|all| - 1], all[|all| - 1];
      PackTight(secSize, before);
      var g := Pack(secSize, before);
      assert before + [t] == all;
      if g != [] && Remain(secSize, g[|g| - 1]) >= LOG_IDX_SIZE + |t.blob| {
        GroupGrows(secSize, g, t);
      } else {
        GroupStarts(secSize, g, t);
      }
    }
  }

  lemma GroupGrows(secSize: nat, g: seq<seq<Tsl>>, t: Tsl)
    requires Tight(secSize, g) && g != [] && HasRoomFor(secSize, g[|g| - 1], |t.blob|)
    ensures var g' := g[|g| - 1 := g[|g| - 1] + [t]]; Tight(secSize, g') && Flatten(g') == Flatten(g) + [t]
  {
    var n := |g| - 1;
    var g' := g[n := g[n] + [t]];
    DataBytesAppend(g[n], t);
    assert IsGroup(secSize, g[n]) && IsGroup(secSize, g[n] + [t]);
    assert forall i :: 0 <= i < n && LeftFull(secSize, g[i], g[n]) ==> LeftFull(secSize, g[i], g[n] + [t]);
    hide IsGroup, LeftFull, HasRoomFor, Remain;
    assert g' == g[..n] + [g[n] + [t]] && g == g[..n] + [g[n]];
    FlattenNext(g[..n], g[n]);
    FlattenNext(g[..n], g[n] + [t]);
  }

  lemma GroupStarts(secSize: nat, g: seq<seq<Tsl>>, t: Tsl)
    requires Tight(secSize, g) && SECTOR_HDR_SIZE + LOG_IDX_SIZE + |t.blob| <= secSize
    requires g != [] ==> !HasRoomFor(secSize, g[|g| - 1], |t.blob|)
    ensures Tight(secSize, g + [[t]]) && Flatten(g + [[t]]) == Flatten(g) + [t]
  {
    DataBytesAppend([], t);
    assert [] + [t] == [t];
    FlattenNext(g, [t]);
    assert IsGroup(secSize, [t]);
    assert g != [] ==> LeftFull(secSize, g[|g| - 1], [t]);
    hide IsGroup, LeftFull, HasRoomFor, Remain, Flatten;
  }

  lemma FlattenNext(g: seq<seq<Tsl>>, log: seq<Tsl>)
    ensures Flatten(g + [log]) == Flatten(g) + log
  {
    assert (g + [log])[..|g|] == g;
  }

  lemma PackNext(secSize: nat, all: seq<Tsl>, t: Tsl)
    ensures var g := Pack(secSize, all);
            Pack(secSize, all + [t]) ==
            if g != [] && Remain(secSize, g[|g| - 1]) >= LOG_IDX_SIZE + |t.blob| then g[|g| - 1 := g[|g| - 1] + [t]]
            else g + [[t]]
  {
    assert (all + [t])[..|all|] == all;
  }

  // ---- The sectors hold the last groups ----

  /** Sector `i` is the `k`-th before the current one, `c`, or with `k == 0` that one itself. */
  function Behind(n: nat, oldest: nat, c: nat, i: nat): int
    requires oldest < n && c < n && i < n
  {
    Place(n, oldest, c) - Place(n, oldest, i)
  }

  /** The sectors up to the current one hold the last groups of all that was ever accepted, one each; and groups are
      missing only if no sector is left. */
  ghost predicate HoldsGroups(secSize: nat, secs: seq<Sector>, oldest: nat, c: nat, history: seq<Tsl>) {
    && oldest < |secs| && c < |secs|
    && (history == [] <==> secs[c].store == Empty)
    && (history != [] ==>
          var g, p := Pack(secSize, history), Place(|secs|, oldest, c);
          && p + 1 <= |g| && (p + 1 < |g| ==> p + 1 == |secs|)
          && (forall i :: 0 <= i < |secs| && 0 <= Behind(|secs|, oldest, c, i) ==>
                secs[i].log == g[|g| - 1 - Behind(|secs|, oldest, c, i)]))
  }

  ghost predicate SameLogsBut(secs: seq<Sector>, secs': seq<Sector>, c: nat) {
    |secs'| == |secs| && forall i :: 0 <= i < |secs| && i != c ==> secs'[i].log == secs[i].log
  }

  lemma SameLogsHold(secSize: nat, secs: seq<Sector>, oldest: nat, c: nat, history: seq<Tsl>, secs': seq<Sector>)
    requires HoldsGroups(secSize, secs, oldest, c, history) && secs[c].store != Empty && |secs'| == |secs|
    requires secs'[c].store != Empty && forall i :: 0 <= i < |secs| ==> secs'[i].log == secs[i].log
    ensures HoldsGroups(secSize, secs', oldest, c, history)
  {
    hide Pack;
  }

  /** An entry that goes into the current sector because there is room, or because nothing was written before. */
  lemma StaysInGroup(secSize: nat, secs: seq<Sector>, oldest: nat, c: nat, history: seq<Tsl>, secs': seq<Sector>,
                     t: Tsl)
    requires HoldsGroups(secSize, secs, oldest, c, history) && SameLogsBut(secs, secs', c)
    requires secs'[c].store == Using && secs'[c].log == secs[c].log + [t]
    requires if history == [] then secs[c].log == [] && c == oldest else HasRoomFor(secSize, secs[c].log, |t.blob|)
    ensures HoldsGroups(secSize, secs', oldest, c, history + [t])
  {
    hide Pack, DataBytes;
    PackNext(secSize, history, t);
    var g, n := Pack(secSize, history), |secs|;
    assert Behind(n, oldest, c, c) == 0;
    forall i | 0 <= i < n && 0 <= Behind(n, oldest, c, i)
      ensures var g' := Pack(secSize, history + [t]); secs'[i].log == g'[|g'| - 1 - Behind(n, oldest, c, i)]
    {
      if i != c {
        assert Behind(n, oldest, c, i) != 0;
      }
    }
  }

  /** An entry that goes into the next sector because there is no room. */
  lemma StartsGroup(secSize: nat, secs: seq<Sector>, oldest: nat, c: nat, history: seq<Tsl>, secs': seq<Sector>, t: Tsl)
    requires HoldsGroups(secSize, secs, oldest, c, history) && history != []
    requires SameLogsBut(secs, secs', Next(|secs|, c))
    requires secs'[Next(|secs|, c)].store == Using && secs'[Next(|secs|, c)].log == [t]
    requires !HasRoomFor(secSize, secs[c].log, |t.blob|)
    ensures var oldest' := if Place(|secs|, oldest, c) + 1 == |secs| then Next(|secs|, oldest) else oldest;
            HoldsGroups(secSize, secs', oldest', Next(|secs|, c), history + [t])
  {
    hide Pack, DataBytes;
    PackNext(secSize, history, t);
    var g, g', n := Pack(secSize, history), Pack(secSize, history + [t]), |secs|;
    var c', oldest' := Next(n, c), if Place(n, oldest, c) + 1 == n then Next(n, oldest) else oldest;
    assert Behind(n, oldest, c, c) == 0;
    assert g' == g + [[t]];
    forall i | 0 <= i < n && 0 <= Behind(n, oldest', c', i)
      ensures secs'[i].log == g'[|g'| - 1 - Behind(n, oldest', c', i)]
    {
      if i != c' {
        assert Behind(n, oldest, c, i) == Behind(n, oldest', c', i) - 1;
      }
    }
  }

  /** Where an entry goes: behind the others of the current sector, or, if that is in use without room for it, alone
      into the next one, which is given up first if it is the oldest. */
  ghost predicate Placed(secSize: nat, secs: seq<Sector>, oldest: nat, c: nat, t: Tsl,
                         secs': seq<Sector>, oldest': nat, c': nat)
    requires oldest < |secs| && c < |secs|
  {
    && c' < |secs| && SameLogsBut(secs, secs', c') && secs'[c'].store == Using
    && if secs[c].store == Using && !HasRoomFor(secSize, secs[c].log, |t.blob|) then
         && c' == Next(|secs|, c) && secs'[c'].log == [t]
         && oldest' == if Place(|secs|, oldest, c) + 1 == |secs| then Next(|secs|, oldest) else oldest
       else c' == c && oldest' == oldest && secs'[c'].log == secs[c].log + [t]
  }

  /** The next sector is the current one and holds nothing; if no other was left, the oldest one was given up for it. */
  ghost predicate Opened(secs: seq<Sector>, oldest: nat, c: nat, secs': seq<Sector>, oldest': nat, c': nat)
    requires oldest < |secs| && c < |secs|
  {
    && c' == Next(|secs|, c) && SameLogsBut(secs, secs', c') && secs'[c'].log == []
    && oldest' == if Place(|secs|, oldest, c) + 1 == |secs| then Next(|secs|, oldest) else oldest
  }

  /** The sectors before such an entry is written: the next sector is opened if the current one has no room. */
  ghost predicate MadeRoom(secSize: nat, secs: seq<Sector>, oldest: nat, c: nat, len: nat,
                           secs': seq<Sector>, oldest': nat, c': nat)
    requires oldest < |secs| && c < |secs|
  {
    && |secs'| == |secs| && c' < |secs|
    && if secs[c].store == Using && !HasRoomFor(secSize, secs[c].log, len) then
         Opened(secs, oldest, c, secs', oldest', c')
       else c' == c && oldest' == oldest && SameLogsBut(secs, secs', c) && secs'[c].log == secs[c].log
  }

  lemma NothingOpened(secs: seq<Sector>, c: nat)
    ensures SameLogsBut(secs, secs, c)
  {
  }

  lemma StartKeepsRoom(secSize: nat, secs: seq<Sector>, oldest: nat, c: nat, len: nat,
                       secs': seq<Sector>, oldest': nat, c': nat, started: seq<Sector>)
    requires oldest < |secs| && c < |secs| && MadeRoom(secSize, secs, oldest, c, len, secs', oldest', c')
    requires SameLogsBut(secs', started, c') && started[c'].log == secs'[c'].log
    ensures MadeRoom(secSize, secs, oldest, c, len, started, oldest', c')
  {
    hide Remain;
  }

  lemma RoomIsTaken(secSize: nat, secs: seq<Sector>, oldest: nat, c: nat, t: Tsl,
                    ready: seq<Sector>, oldest': nat, c': nat, secs': seq<Sector>)
    requires oldest < |secs| && c < |secs|
    requires MadeRoom(secSize, secs, oldest, c, |t.blob|, ready, oldest', c')
    requires SameLogsBut(ready, secs', c') && secs'[c'].store == Using && secs'[c'].log == ready[c'].log + [t]
    ensures Placed(secSize, secs, oldest, c, t, secs', oldest', c')
  {
    assert [] + [t] == [t];
  }

  lemma PlacedHolds(secSize: nat, secs: seq<Sector>, oldest: nat, c: nat, history: seq<Tsl>, t: Tsl,
                    secs': seq<Sector>, oldest': nat, c': nat)
    requires Ring(secSize, secs, oldest, c) && secs[c].store != Full
    requires HoldsGroups(secSize, secs, oldest, c, history) && Placed(secSize, secs, oldest, c, t, secs', oldest', c')
    ensures HoldsGroups(secSize, secs', oldest', c', history + [t])
  {
    if secs[c].store == Using && !HasRoomFor(secSize, secs[c].log, |t.blob|) {
      StartsGroup(secSize, secs, oldest, c, history, secs', t);
    } else {
      StaysInGroup(secSize, secs, oldest, c, history, secs', t);
    }
  }

  lemma {:induction false} LogsAreGroups(secs: seq<Sector>, g: seq<seq<Tsl>>)
    requires |secs| == |g| && forall k :: 0 <= k < |g| ==> secs[k].log == g[k]
    ensures Logs(secs) == Flatten(g)
  {
    if g != [] {
      LogsAreGroups(secs[..|secs| - 1], g[..|g| - 1]);
    }
  }

  /** As many of the last groups as there are sectors. */
  function LastGroups(g: seq<seq<Tsl>>, n: nat): seq<seq<Tsl>> {
    if |g| <= n then g else g[|g| - n..]
  }

  /** The log is those groups, one after the other: what is missing was in groups that no sector was left for. */
  lemma LogIsLastGroups(secSize: nat, secs: seq<Sector>, oldest: nat, c: nat, history: seq<Tsl>)
    requires Around(secSize, secs, oldest, c) && HoldsGroups(secSize, secs, oldest, c, history)
    requires history == [] ==> Contents(secs, oldest) == []
    ensures Contents(secs, oldest) == Flatten(LastGroups(Pack(secSize, history), |secs|))
  {
    hide Pack, DataBytes, FullSector, Logs;
    if history != [] {
      var s, p, g := Order(secs, oldest), Place(|secs|, oldest, c), Pack(secSize, history);
      var last := LastGroups(g, |secs|);
      assert |last| == p + 1;
      forall k | 0 <= k < p + 1 ensures s[..p + 1][k].log == last[k] {
        var i: nat := if oldest + k < |secs| then oldest + k else oldest + k - |secs|;
        assert s[k] == secs[i] && Behind(|secs|, oldest, c, i) == p - k;
      }
      LogsAreGroups(s[..p + 1], last);
      AroundContents(secSize, secs, oldest, c);
      OrderAtPlace(secs, oldest, c);
      OneMoreLog(s, p);
    }
  }

  lemma OneMoreLog(s: seq<Sector>, p: nat)
    requires p < |s|
    ensures Logs(s[..p + 1]) == Logs(s[..p]) + s[p].log
  {
    assert s[..p + 1][..p] == s[..p];
  }
}
