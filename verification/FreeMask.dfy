/** The 32-bit free masks of handle blocks: a set bit is a free handle (src/gc/handletablecore.cpp). */
module FreeMask {
  const BITS_PER_BYTE: nat := 8
  const HANDLES_PER_MASK: nat := 32

  /** A 32-bit word, lowest bit first. */
  type Word = w: seq<bool> | |w| == 32 witness seq(32, _ => false)

  function Below(n: nat): Word { seq(32, i => i < n) }

  const MASK_EMPTY: Word := Below(32)
  const MASK_FULL: Word := Below(0)
  const MASK_LOBYTE: Word := Below(8)

  function And(x: Word, y: Word): Word { seq(32, i requires 0 <= i < 32 => x[i] && y[i]) }
  function Or(x: Word, y: Word): Word { seq(32, i requires 0 <= i < 32 => x[i] || y[i]) }
  function Not(x: Word): Word { seq(32, i requires 0 <= i < 32 => !x[i]) }
  function Shl(x: Word, n: nat): Word { seq(32, i requires 0 <= i < 32 => i >= n && x[i - n]) }
  function Shr(x: Word, n: nat): Word { seq(32, i requires 0 <= i < 32 => i + n < 32 && x[i + n]) }
  function BitAt(n: nat): Word { seq(32, i => i == n) }

  /** The free handles of a mask below bit `hi`, in ascending order; `d` is the index of the mask's first handle. */
  function FreeBelow(x: Word, hi: nat, d: nat): (r: seq<nat>)
    requires hi <= 32
  {
    if hi == 0 then [] else FreeBelow(x, hi - 1, d) + if x[hi - 1] then [d + hi - 1] else []
  }

  /** The number of free handles a mask stands for. */
  function FreeIn(x: Word): nat {
    |FreeBelow(x, 32, 0)|
  }

  lemma {:induction false} InFreeBelow(x: Word, hi: nat, d: nat, h: nat)
    requires hi <= 32
    ensures h in FreeBelow(x, hi, d) <==> d <= h < d + hi && x[h - d]
  {
    if hi > 0 { InFreeBelow(x, hi - 1, d, h); }
  }

  lemma {:induction false} FreeBelowAscends(x: Word, hi: nat, d: nat, p: nat, q: nat)
    requires hi <= 32 && p < q < |FreeBelow(x, hi, d)|
    ensures FreeBelow(x, hi, d)[p] < FreeBelow(x, hi, d)[q]
  {
    var r := FreeBelow(x, hi - 1, d);
    if q < |r| {
      FreeBelowAscends(x, hi - 1, d, p, q);
    } else {
      assert r[p] in r;
      InFreeBelow(x, hi - 1, d, r[p]);
    }
  }

  lemma {:induction false} FreeBelowLength(x: Word, hi: nat, d: nat)
    requires hi <= 32
    ensures |FreeBelow(x, hi, d)| == |FreeBelow(x, hi, 0)|
  {
    if hi > 0 { FreeBelowLength(x, hi - 1, d); }
  }

  lemma {:induction false} FreeBelowPrefix(x: Word, lo: nat, hi: nat, d: nat)
    requires lo <= hi <= 32
    ensures FreeBelow(x, lo, d) <= FreeBelow(x, hi, d)
    ensures (forall k | lo <= k < hi :: !x[k]) ==> FreeBelow(x, lo, d) == FreeBelow(x, hi, d)
  {
    if lo < hi { FreeBelowPrefix(x, lo, hi - 1, d); }
  }

  /** The entry of the low-bit table for a nonzero byte: the index of its lowest set bit. */
  function LowBitIndex(b: Word): (i: nat)
    requires exists k :: 0 <= k < BITS_PER_BYTE && b[k]
    ensures i < BITS_PER_BYTE && b[i] && forall k | 0 <= k < i :: !b[k]
  {
    if b[0] then 0 else if b[1] then 1 else if b[2] then 2 else if b[3] then 3
    else if b[4] then 4 else if b[5] then 5 else if b[6] then 6 else 7
  }

  /** The byte of `x` that starts at bit `at`, without the bits of `x` below `lo`. */
  function ByteFrom(x: Word, at: nat, lo: nat): Word {
    seq(32, i requires 0 <= i < 32 => i < 8 && lo <= at + i < 32 && x[at + i])
  }

  /** The bits of `x` from `at` to `hi`, moved down to bit 0. */
  function ByteTaken(x: Word, at: nat, hi: nat): Word {
    seq(32, i requires 0 <= i < 32 => i < 8 && at + i < hi && at + i < 32 && x[at + i])
  }

  /** `x` without the bits below `lo`. */
  function From(x: Word, lo: nat): Word {
    seq(32, i requires 0 <= i < 32 => lo <= i && x[i])
  }

  lemma LowByte(x: Word, at: nat)
    ensures And(Shr(x, at), MASK_LOBYTE) == ByteFrom(x, at, at)
    ensures Shr(Shr(x, at), BITS_PER_BYTE) == Shr(x, at + BITS_PER_BYTE)
    ensures Shr(x, at) == MASK_FULL <==> forall k | at <= k < 32 :: !x[k]
  {
    forall k | at <= k < 32 ensures Shr(x, at)[k - at] == x[k] {}
    assert (forall k | at <= k < 32 :: !x[k]) ==> Shr(x, at) == MASK_FULL;
  }

  lemma ByteNone(x: Word, at: nat, lo: nat)
    requires ByteFrom(x, at, lo) == MASK_FULL
    ensures forall k | lo <= k < 32 && at <= k < at + 8 :: !x[k]
  {
    forall k | lo <= k < 32 && at <= k < at + 8 ensures !x[k] {
      assert ByteFrom(x, at, lo)[k - at] == x[k];
    }
  }

  lemma ByteSome(x: Word, at: nat, lo: nat) returns (k: nat)
    requires ByteFrom(x, at, lo) != MASK_FULL
    ensures k < BITS_PER_BYTE && ByteFrom(x, at, lo)[k]
  {
    assert exists k :: 0 <= k < 32 && ByteFrom(x, at, lo)[k] != MASK_FULL[k];
    k :| 0 <= k < 32 && ByteFrom(x, at, lo)[k];
  }

  /** Taking the lowest bit left in a byte. */
  lemma ByteStep(x: Word, at: nat, lo: nat, i: nat)
    requires at <= lo <= at + 8 <= 32 && i < 8 && ByteFrom(x, at, lo)[i]
      && forall k | 0 <= k < i :: !ByteFrom(x, at, lo)[k]
    ensures lo <= at + i && x[at + i] && forall k | lo <= k < at + i :: !x[k]
    ensures Or(ByteTaken(x, at, lo), BitAt(i)) == ByteTaken(x, at, at + i + 1)
    ensures And(ByteFrom(x, at, lo), Not(ByteTaken(x, at, at + i + 1))) == ByteFrom(x, at, at + i + 1)
  {
    forall k | lo <= k < at + i ensures !x[k] {
      assert !ByteFrom(x, at, lo)[k - at];
    }
  }

  lemma MaskStep(x: Word, lo0: nat, at: nat, lo: nat)
    requires lo0 <= at <= lo <= at + 8 <= 32 && forall k | lo0 <= k < at :: !x[k]
    ensures And(From(x, lo0), Not(Shl(ByteTaken(x, at, lo), at))) == From(x, lo)
  {
  }

  lemma FromSkip(x: Word, lo: nat, hi: nat)
    requires lo <= hi && forall k | lo <= k < hi && k < 32 :: !x[k]
    ensures From(x, lo) == From(x, hi)
  {
  }

  /** `BlockAllocHandlesInMask`: takes the lowest free handles of one mask, byte by byte, through the
      low-bit table. `d` is the index of the mask's first handle. */
  method AllocInMask(mask: Word, d: nat, count: nat) returns (mask': Word, got: seq<nat>)
    requires mask != MASK_FULL && count > 0
    ensures |got| == if count < FreeIn(mask) then count else FreeIn(mask)
    ensures got <= FreeBelow(mask, 32, d)
    ensures forall i | 0 <= i < 32 :: mask'[i] == (mask[i] && d + i !in got)
    ensures FreeIn(mask') == FreeIn(mask) - |got|
  {
    mask' := mask;
    got := [];
    var remain: nat := count;
    var dwFree := mask;
    var at: nat := 0;
    ghost var lo: nat := 0;
    assert mask == Shr(mask, 0) && mask == From(mask, 0);
    while remain > 0 && dwFree != MASK_FULL
      invariant at <= 32 && at % 8 == 0
      invariant dwFree == Shr(mask, at)
      invariant lo <= 32 && got == FreeBelow(mask, lo, d) && remain + |got| == count
      invariant remain > 0 ==> lo == at
      invariant mask' == From(mask, lo)
      decreases 32 - at
    {
      LowByte(mask, at);
      var dwLowByte := And(dwFree, MASK_LOBYTE);
      if dwLowByte != MASK_FULL {
        var dwAlloc;
        dwAlloc, got, remain, lo := AllocInByte(mask, dwLowByte, at, d, got, remain);
        MaskStep(mask, at, at, lo);
        mask' := And(mask', Not(Shl(dwAlloc, at)));
      }
      if remain > 0 {
        ByteDone(mask, at, lo, d);
        lo := at + 8;
      }
      dwFree := Shr(dwFree, BITS_PER_BYTE);
      at := at + BITS_PER_BYTE;
    }
    LowByte(mask, at);
    TakenBelow(mask, lo, d);
    FromCount(mask, lo, 32);
    FreeBelowLength(mask, lo, d);
    if remain > 0 { assert got == FreeBelow(mask, 32, d); } else { assert |got| <= |FreeBelow(mask, 32, d)|; }
  }

  lemma ByteDone(x: Word, at: nat, lo: nat, d: nat)
    requires at <= lo <= at + 8 <= 32 && ByteFrom(x, at, lo) == MASK_FULL
    ensures FreeBelow(x, at + 8, d) == FreeBelow(x, lo, d) && From(x, at + 8) == From(x, lo)
  {
    ByteNone(x, at, lo);
    FreeBelowPrefix(x, lo, at + 8, d);
    FromSkip(x, lo, at + 8);
  }

  /** What taking all free handles below `lo` means for the whole mask. */
  lemma TakenBelow(mask: Word, lo: nat, d: nat)
    requires lo <= 32
    ensures FreeBelow(mask, lo, d) <= FreeBelow(mask, 32, d) && |FreeBelow(mask, 32, d)| == FreeIn(mask)
    ensures (forall k | lo <= k < 32 :: !mask[k]) ==> FreeBelow(mask, lo, d) == FreeBelow(mask, 32, d)
    ensures forall i | 0 <= i < 32 :: From(mask, lo)[i] == (mask[i] && d + i !in FreeBelow(mask, lo, d))
  {
    FreeBelowPrefix(mask, lo, 32, d);
    FreeBelowLength(mask, 32, d);
    forall i | 0 <= i < 32 ensures From(mask, lo)[i] == (mask[i] && d + i !in FreeBelow(mask, lo, d)) {
      InFreeBelow(mask, lo, d, d + i);
    }
  }

  /** The inner loop: takes handles out of one byte of the mask until it or the request is used up. */
  method AllocInByte(ghost mask: Word, lowByte: Word, at: nat, d: nat, got0: seq<nat>, remain0: nat)
    returns (dwAlloc: Word, got: seq<nat>, remain: nat, ghost lo: nat)
    requires at + 8 <= 32 && remain0 > 0 && lowByte == ByteFrom(mask, at, at) && lowByte != MASK_FULL
    requires got0 == FreeBelow(mask, at, d)
    ensures at <= lo <= at + 8 && got == FreeBelow(mask, lo, d) && remain + |got| == remain0 + |got0|
    ensures remain > 0 ==> ByteFrom(mask, at, lo) == MASK_FULL
    ensures dwAlloc == ByteTaken(mask, at, lo)
  {
    dwAlloc := MASK_FULL;
    var dwLowByte := lowByte;
    got, remain, lo := got0, remain0, at;
    assert dwAlloc == ByteTaken(mask, at, at);
    while dwLowByte != MASK_FULL && remain > 0
      invariant at <= lo <= at + 8
      invariant got == FreeBelow(mask, lo, d) && remain + |got| == remain0 + |got0|
      invariant dwLowByte == ByteFrom(mask, at, lo) && dwAlloc == ByteTaken(mask, at, lo)
      decreases remain
    {
      ghost var some := ByteSome(mask, at, lo);
      var index := LowBitIndex(dwLowByte);
      ByteStep(mask, at, lo, index);
      FreeBelowPrefix(mask, lo, at + index, d);
      dwAlloc := Or(dwAlloc, BitAt(index));
      dwLowByte := And(dwLowByte, Not(dwAlloc));
      got := got + [d + (at + index)];
      remain := remain - 1;
      lo := at + index + 1;
    }
  }

  /** The free handles below `lo` and those from `lo` up are all of them. */
  lemma {:induction false} FromCount(x: Word, lo: nat, hi: nat)
    requires lo <= 32 && hi <= 32
    ensures |FreeBelow(From(x, lo), hi, 0)| == |FreeBelow(x, hi, 0)| - |FreeBelow(x, if lo < hi then lo else hi, 0)|
    decreases hi
  {
    if hi > 0 { FromCount(x, lo, hi - 1); }
  }

  lemma {:induction false} SetCount(x: Word, i: nat, hi: nat)
    requires i < 32 && hi <= 32
    ensures |FreeBelow(x[i := true], hi, 0)| == |FreeBelow(x, hi, 0)| + if i < hi && !x[i] then 1 else 0
    decreases hi
  {
    if hi > 0 { SetCount(x, i, hi - 1); }
  }
}
