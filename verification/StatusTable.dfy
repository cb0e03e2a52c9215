/** Status words on flash at write granularity 1: a status is advanced by clearing bits of one byte. */
module StatusTable {

  type byte = bv8

  const BYTE_ERASED: byte := 0xFF

  /** How a medium combines a write with what is there: NOR flash can only clear bits, a file is overwritten. */
  datatype Medium = NorFlash | File {
    function Program(old_: byte, new_: byte): byte {
      if NorFlash? then old_ & new_ else new_
    }
  }

  function TableSize(statusNum: nat): nat { (statusNum + 7) / 8 }

  predicate BitSet(b: byte, j: nat)
    requires j < 8
  {
    b & (0x80 >> j) != 0
  }

  /** Is the bit for step `p` of the status still erased? */
  predicate Erased(t: seq<byte>, p: nat)
    requires p / 8 < |t|
  {
    BitSet(t[p / 8], p % 8)
  }

  function Mask(m: nat): byte
    requires m < 8
  {
    0xFF >> m
  }

  lemma MaskBits(m: nat, j: nat)
    requires m < 8 && j < 8
    ensures BitSet(Mask(m), j) <==> j >= m
  {
    assert m == 0 || m == 1 || m == 2 || m == 3 || m == 4 || m == 5 || m == 6 || m == 7;
    assert j == 0 || j == 1 || j == 2 || j == 3 || j == 4 || j == 5 || j == 6 || j == 7;
  }

  lemma ProgramBits(medium: Medium, a: byte, b: byte, j: nat)
    requires j < 8
    ensures BitSet(b, j) && BitSet(a, j) ==> BitSet(medium.Program(a, b), j)
    ensures !BitSet(b, j) ==> !BitSet(medium.Program(a, b), j)
  {
  }

  /** The byte that a status change writes, and its place; no byte for the first status. */
  datatype StatusByte = NoByte | ByteAt(index: nat, value: byte)

  function SetStatus(statusNum: nat, status: nat): (r: StatusByte)
    requires status < statusNum
    ensures r.ByteAt? ==> r.index < TableSize(statusNum)
  {
    if status > 0 then ByteAt((status - 1) / 8, BYTE_ERASED & Mask(status % 8)) else NoByte
  }

  /** The table stands for `status`: no bit from there on is cleared, and the bit before it is. */
  ghost predicate Encodes(t: seq<byte>, statusNum: nat, status: nat) {
    && status < statusNum && |t| == TableSize(statusNum)
    && (forall p :: status <= p < statusNum - 1 ==> Erased(t, p))
    && (status > 0 ==> !Erased(t, status - 1))
  }

  /** Read a status: the first cleared bit from the end. */
  method GetStatus(t: seq<byte>, statusNum: nat) returns (status: nat)
    requires statusNum > 0 && |t| == TableSize(statusNum)
    ensures Encodes(t, statusNum, status)
  {
    var i := 0;
    var n := statusNum - 1;
    while n > 0
      invariant i + n == statusNum - 1
      invariant forall p :: n <= p < statusNum - 1 ==> Erased(t, p)
    {
      n := n - 1;
      if !Erased(t, n) {
        return statusNum - 1 - i;
      }
      i := i + 1;
    }
    return statusNum - 1 - i;
  }

  lemma EncodingUnique(t: seq<byte>, statusNum: nat, a: nat, b: nat)
    requires Encodes(t, statusNum, a) && Encodes(t, statusNum, b)
    ensures a == b
  {
    var clearedByA := a > 0 && !Erased(t, a - 1);
    var clearedByB := b > 0 && !Erased(t, b - 1);
  }

  /** The table after a status change. */
  function AfterStatus(medium: Medium, t: seq<byte>, statusNum: nat, status: nat): (t': seq<byte>)
    requires status < statusNum && |t| == TableSize(statusNum)
    ensures |t'| == |t|
  {
    match SetStatus(statusNum, status)
    case NoByte => t
    case ByteAt(i, b) => t[i := medium.Program(t[i], b)]
  }

  /** Change a status on the medium: one byte is written. */
  method WriteStatus(medium: Medium, flash: array<byte>, addr: nat, statusNum: nat, status: nat)
    requires status < statusNum && addr + TableSize(statusNum) <= flash.Length
    modifies flash
    ensures flash[addr..addr + TableSize(statusNum)]
         == AfterStatus(medium, old(flash[addr..addr + TableSize(statusNum)]), statusNum, status)
    ensures forall k :: 0 <= k < flash.Length && !(addr <= k < addr + TableSize(statusNum)) ==>
              flash[k] == old(flash[k])
  {
    match SetStatus(statusNum, status)
    case NoByte =>
    case ByteAt(i, b) =>
      flash[addr + i] := medium.Program(flash[addr + i], b);
  }

  lemma ErasedEncodesFirst(statusNum: nat)
    requires statusNum > 0
    ensures Encodes(seq(TableSize(statusNum), _ => BYTE_ERASED), statusNum, 0)
  {
    var t := seq(TableSize(statusNum), _ => BYTE_ERASED);
    forall p | 0 <= p < statusNum - 1 ensures Erased(t, p) {
      MaskBits(0, p % 8);
    }
  }

  lemma LaterBitsStay(medium: Medium, t: seq<byte>, statusNum: nat, to: nat, p: nat)
    requires |t| == TableSize(statusNum) && 0 < to <= p < statusNum - 1 && to % 8 != 0
    requires Erased(t, p)
    ensures Erased(AfterStatus(medium, t, statusNum, to), p)
  {
    var i, m := (to - 1) / 8, to % 8;
    if p / 8 == i {
      MaskBits(m, p % 8);
      ProgramBits(medium, t[i], BYTE_ERASED & Mask(m), p % 8);
    }
  }

  lemma StatusBitCleared(medium: Medium, t: seq<byte>, statusNum: nat, to: nat)
    requires |t| == TableSize(statusNum) && 0 < to < statusNum && to % 8 != 0
    ensures !Erased(AfterStatus(medium, t, statusNum, to), to - 1)
  {
    var i, m := (to - 1) / 8, to % 8;
    assert (to - 1) % 8 == m - 1;
    MaskBits(m, m - 1);
    ProgramBits(medium, t[i], BYTE_ERASED & Mask(m), m - 1);
  }

  /** A step forward to a status that is not a multiple of eight is read back, on flash and in a file. */
  lemma StepIsReadBack(medium: Medium, t: seq<byte>, statusNum: nat, from: nat, to: nat)
    requires Encodes(t, statusNum, from) && from < to < statusNum && to % 8 != 0
    ensures Encodes(AfterStatus(medium, t, statusNum, to), statusNum, to)
  {
    hide Erased, AfterStatus;
    forall p | to <= p < statusNum - 1 ensures Erased(AfterStatus(medium, t, statusNum, to), p) {
      LaterBitsStay(medium, t, statusNum, to, p);
    }
    StatusBitCleared(medium, t, statusNum, to);
  }

  /** A step to a positive multiple of eight writes an erased byte, and is never read back. */
  lemma MultipleOfEightIsLost(medium: Medium, t: seq<byte>, statusNum: nat, from: nat, to: nat)
    requires Encodes(t, statusNum, from) && from < to < statusNum && to % 8 == 0
    ensures !Encodes(AfterStatus(medium, t, statusNum, to), statusNum, to)
  {
    var i := (to - 1) / 8;
    assert (to - 1) % 8 == 7;
    assert Erased(t, to - 1);
    MaskBits(0, 7);
    ProgramBits(medium, t[i], BYTE_ERASED & Mask(0), 7);
  }

  /** A step forward is read back exactly when its status is not a multiple of eight. */
  lemma StepReadBackExactly(medium: Medium, t: seq<byte>, statusNum: nat, from: nat, to: nat)
    requires Encodes(t, statusNum, from) && from < to < statusNum
    ensures Encodes(AfterStatus(medium, t, statusNum, to), statusNum, to) <==> to % 8 != 0
  {
    if to % 8 == 0 {
      MultipleOfEightIsLost(medium, t, statusNum, from, to);
    } else {
      StepIsReadBack(medium, t, statusNum, from, to);
    }
  }

  function AfterStatuses(medium: Medium, t: seq<byte>, statusNum: nat, statuses: seq<nat>): (t': seq<byte>)
    requires |t| == TableSize(statusNum)
    requires forall i :: 0 <= i < |statuses| ==> statuses[i] < statusNum
    ensures |t'| == |t|
  {
    if statuses == [] then t
    else
      var k := |statuses| - 1;
      AfterStatus(medium, AfterStatuses(medium, t, statusNum, statuses[..k]), statusNum, statuses[k])
  }

  /** Starting from an erased table, any increasing run of statuses, none a multiple of eight, leaves a
      table that reads as the last one. */
  lemma {:induction false} RunReadsLast(medium: Medium, statusNum: nat, statuses: seq<nat>)
    requires statusNum > 0
    requires forall i :: 0 <= i < |statuses| ==> 0 < statuses[i] < statusNum && statuses[i] % 8 != 0
    requires forall i, j :: 0 <= i < j < |statuses| ==> statuses[i] < statuses[j]
    ensures Encodes(AfterStatuses(medium, seq(TableSize(statusNum), _ => BYTE_ERASED), statusNum, statuses),
                    statusNum, if statuses == [] then 0 else statuses[|statuses| - 1])
  {
    var erased := seq(TableSize(statusNum), _ => BYTE_ERASED);
    if statuses == [] {
      ErasedEncodesFirst(statusNum);
    } else {
      var k := |statuses| - 1;
      RunReadsLast(medium, statusNum, statuses[..k]);
      StepIsReadBack(medium, AfterStatuses(medium, erased, statusNum, statuses[..k]), statusNum,
                     if k == 0 then 0 else statuses[k - 1], statuses[k]);
    }
  }
}
