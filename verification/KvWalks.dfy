/** What a walk of a sector sees of the bytes that a cut write left behind, and where it ends because of them. */
module KvWalks {
  import opened KvStore

  /** What is on flash of a record without a complete magic word: its first status byte; and if some of the
      magic word is there, the erased bytes between them. */
  function StrayBytes(header: nat): (s: Bytes)
    requires header < 4
    ensures 1 <= |s| <= 7
  {
    [0x7F] + (if header == 0 then [] else [0xFF, 0xFF, 0xFF] + MAGIC[..header])
  }

  function StrayRecord(header: nat): Record
    requires header < 4
  {
    Record(Unused, false, StrayBytes(header), [])
  }

  /** How many stray bytes there are among the records. */
  function StrayTotal(recs: seq<Record>): nat {
    if recs == [] then 0
    else StrayTotal(recs[..|recs| - 1]) + (if recs[|recs| - 1].Stray() then |recs[|recs| - 1].name| else 0)
  }

  /** How many erased bytes there are at the end. */
  function TrailingErased(s: Bytes): (n: nat)
    ensures n <= |s|
    ensures forall k :: |s| - n <= k < |s| ==> s[k] == 0xFF
    ensures n < |s| ==> s[|s| - n - 1] != 0xFF
  {
    if s == [] || s[|s| - 1] != 0xFF then 0 else 1 + TrailingErased(s[..|s| - 1])
  }

  /** A walk adds up the lengths of the records it visits and then looks for where erased flash begins. Stray
      bytes are not visited. So the address it ends at falls short of the end of the last record by as many
      bytes as that record ends in erased ones, but by no more than there are stray bytes. */
  function WalkShort(recs: seq<Record>): nat {
    if recs == [] || recs[|recs| - 1].Stray() then 0
    else
      var erased := TrailingErased(recs[|recs| - 1].name + recs[|recs| - 1].value);
      if erased < StrayTotal(recs) then erased else StrayTotal(recs)
  }
}
