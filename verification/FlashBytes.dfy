/** Bytes on flash: reading them, and writing to where flash is erased. */
module FlashBytes {
  import opened StatusTable

  type Bytes = seq<byte>

  /** Bytes from flash; there is nothing behind its end. */
  function Slice(f: Bytes, a: nat, n: nat): (s: Bytes)
    ensures |s| == n
    ensures forall i :: 0 <= i < n ==> s[i] == if a + i < |f| then f[a + i] else BYTE_ERASED
  {
    seq(n, i requires 0 <= i => if a + i < |f| then f[a + i] else BYTE_ERASED)
  }

  lemma SliceParts(f: Bytes, a: nat, n: nat, m: nat)
    ensures Slice(f, a, n) + Slice(f, a + n, m) == Slice(f, a, n + m)
  {
  }

  lemma EraseThenProgram(medium: Medium, b: byte)
    ensures medium.Program(BYTE_ERASED, b) == b
  {
  }

  /** `f'` is `f` with `data` at `a`. */
  ghost predicate Patched(f: Bytes, f': Bytes, a: nat, data: Bytes) {
    && |f'| == |f| && a + |data| <= |f|
    && forall k :: 0 <= k < |f| ==> f'[k] == if a <= k < a + |data| then data[k - a] else f[k]
  }

  ghost predicate ErasedFrom(f: Bytes, a: nat, n: nat) {
    a + n <= |f| && forall k :: a <= k < a + n ==> f[k] == BYTE_ERASED
  }

  /** Write to an erased area. */
  method WriteBytes(medium: Medium, flash: array<byte>, a: nat, data: Bytes)
    requires ErasedFrom(flash[..], a, |data|)
    modifies flash
    ensures Patched(old(flash[..]), flash[..], a, data)
  {
    for i := 0 to |data|
      invariant Patched(old(flash[..]), flash[..], a, data[..i])
    {
      EraseThenProgram(medium, data[i]);
      flash[a + i] := medium.Program(flash[a + i], data[i]);
    }
  }

  lemma PatchedTwice(f: Bytes, g: Bytes, h: Bytes, a: nat, d: Bytes, e: Bytes)
    requires Patched(f, g, a, d) && Patched(g, h, a + |d|, e)
    ensures Patched(f, h, a, d + e)
  {
  }

  lemma PatchedSlice(f: Bytes, f': Bytes, a: nat, data: Bytes, j: nat, n: nat)
    requires Patched(f, f', a, data) && j + n <= |data|
    ensures Slice(f', a + j, n) == data[j..j + n]
  {
  }

  lemma ErasedBehind(f: Bytes, f': Bytes, a: nat, data: Bytes, n: nat)
    requires Patched(f, f', a, data) && ErasedFrom(f, a, |data| + n)
    ensures ErasedFrom(f', a + |data|, n)
  {
  }

  /** Only one byte has changed. */
  ghost predicate OnlyAt(f: Bytes, f': Bytes, a: nat) {
    |f'| == |f| && forall k :: 0 <= k < |f| && k != a ==> f'[k] == f[k]
  }

  /** The three lowest bits, which no status up to the fifth clears. */
  predicate LowBitsErased(b: byte) { b & 7 == 7 }

  lemma StatusKeepsLowBits(medium: Medium, b: byte, statusNum: nat, to: nat)
    requires 0 < to < statusNum <= 8
    ensures to <= 5 && LowBitsErased(b) ==> LowBitsErased(AfterStatus(medium, [b], statusNum, to)[0])
  {
    if to <= 5 && LowBitsErased(b) {
      assert to == 1 || to == 2 || to == 3 || to == 4 || to == 5;
    }
  }

  /** Change a status that fits one byte to a later one: only that byte is written. */
  method AdvanceStatus(medium: Medium, flash: array<byte>, a: nat, statusNum: nat, ghost from: nat, to: nat)
    requires a < flash.Length && from < to < statusNum <= 8 && Encodes([flash[a]], statusNum, from)
    modifies flash
    ensures OnlyAt(old(flash[..]), flash[..], a) && Encodes([flash[a]], statusNum, to)
    ensures to <= 5 && LowBitsErased(old(flash[a])) ==> LowBitsErased(flash[a])
  {
    hide Encodes, AfterStatus;
    ghost var t := [flash[a]];
    assert flash[a..a + 1] == t;
    WriteStatus(medium, flash, a, statusNum, to);
    StepIsReadBack(medium, t, statusNum, from, to);
    StatusKeepsLowBits(medium, t[0], statusNum, to);
    assert flash[a..a + 1] == [flash[a]];
  }

  lemma ErasedStatus(f: Bytes, a: nat, n: nat, statusNum: nat)
    requires ErasedFrom(f, a, n) && n > 0 && 0 < statusNum <= 8
    ensures a < |f| && Encodes([f[a]], statusNum, 0)
  {
    ErasedEncodesFirst(statusNum);
    assert seq(TableSize(statusNum), _ => BYTE_ERASED) == [f[a]];
  }

  lemma ErasedSplit(f: Bytes, a: nat, n: nat, m: nat)
    requires ErasedFrom(f, a, n + m)
    ensures ErasedFrom(f, a, n) && ErasedFrom(f, a + n, m)
  {
  }

  lemma SameSlice(f: Bytes, f': Bytes, a: nat, j: nat, n: nat)
    requires OnlyAt(f, f', a) && j > 0
    ensures Slice(f', a + j, n) == Slice(f, a + j, n)
  {
  }

  lemma SliceUnchanged(f: Bytes, f': Bytes, a: nat, n: nat, j: nat, m: nat)
    requires |f'| == |f| && a + n <= |f| && forall p :: a <= p < a + n ==> f'[p] == f[p]
    requires j + m <= n
    ensures Slice(f', a + j, m) == Slice(f, a + j, m)
  {
  }
}
