/**
 memcpy_s, memmove_s, memset_s and the performance routes behind memcpy_sp and
 memset_sp.  Each method follows the source's branches; its postcondition is
 one of the tables CopySpec, MoveSpec and SetSpec.
 */
module MemOps {
  import opened Memory

  const MEMCOPY_THRESHOLD := 64
  const STRCOPY_THRESHOLD := 32
  const MEMSET_THRESHOLD := 32

  /** The last labels of the small-copy switches in memcpy_s.c and strcpy_s.c. */
  const MEMCOPY_LAST_LABEL := 64
  const STRCOPY_LAST_LABEL := 32

  /** Conversion to unsigned char. */
  function ByteOf(c: int): int { c % 256 }

  ghost function Fill(n: nat, c: Cell): (s: seq<Cell>)
    ensures |s| == n
  {
    seq(n, _ => c)
  }

  /** Read and write ranges share a cell although the pointers differ. */
  ghost predicate Clash(d: nat, s: nat, count: nat) {
    d != s && count > 0 && !Disjoint(d, count, s, count)
  }

  predicate MaxOk(destMax: nat) { 0 < destMax <= MEM_MAX_LEN }

  ghost predicate DestOk(size: nat, dest: Ptr, destMax: nat) {
    dest.At? && MaxOk(destMax) ==> dest.addr + destMax <= size
  }

  ghost predicate SrcOk(size: nat, src: Ptr, destMax: nat, count: nat) {
    src.At? && MaxOk(destMax) && count <= destMax ==> src.addr + count <= size
  }

  ghost predicate Callable(size: nat, dest: Ptr, destMax: nat, src: Ptr, count: nat) {
    DestOk(size, dest, destMax) && SrcOk(size, src, destMax, count)
  }

  ghost function Zeroed(m: seq<Cell>, d: nat, n: nat): seq<Cell>
    requires d + n <= |m|
  {
    Put(m, d, Fill(n, 0))
  }

  /** Return-code table of memmove_s. */
  ghost function MoveSpec(m: seq<Cell>, dest: Ptr, destMax: nat, src: Ptr, count: nat): Outcome
    requires Callable(|m|, dest, destMax, src, count)
  {
    if !MaxOk(destMax) then Outcome(ERANGE, m)
    else if dest.Null? then Outcome(EINVAL, m)
    else if src.Null? then Outcome(EINVAL_AND_RESET, Zeroed(m, dest.addr, destMax))
    else if count > destMax then Outcome(ERANGE_AND_RESET, Zeroed(m, dest.addr, destMax))
    else Outcome(EOK, Put(m, dest.addr, m[src.addr..src.addr + count]))
  }

  /** Return-code table of memcpy_s. */
  ghost function CopySpec(m: seq<Cell>, dest: Ptr, destMax: nat, src: Ptr, count: nat): Outcome
    requires Callable(|m|, dest, destMax, src, count)
  {
    if !MaxOk(destMax) then Outcome(ERANGE, m)
    else if dest.Null? then Outcome(EINVAL, m)
    else if src.Null? then Outcome(EINVAL_AND_RESET, Zeroed(m, dest.addr, destMax))
    else if count > destMax then Outcome(ERANGE_AND_RESET, Zeroed(m, dest.addr, destMax))
    else if Clash(dest.addr, src.addr, count) then Outcome(EOVERLAP_AND_RESET, Zeroed(m, dest.addr, destMax))
    else Outcome(EOK, Put(m, dest.addr, m[src.addr..src.addr + count]))
  }

  /** Return-code table of memset_s; an empty buffer is accepted when nothing is to be set. */
  ghost function SetSpec(m: seq<Cell>, dest: Ptr, destMax: nat, c: int, count: nat): Outcome
    requires DestOk(|m|, dest, destMax)
    requires dest.At? ==> dest.addr <= |m|
  {
    if destMax > MEM_MAX_LEN then Outcome(ERANGE, m)
    else if dest.At? && count <= destMax then Outcome(EOK, Put(m, dest.addr, Fill(count, ByteOf(c))))
    else if destMax == 0 then Outcome(ERANGE, m)
    else if dest.Null? then Outcome(EINVAL, m)
    else Outcome(ERANGE_AND_RESET, Put(m, dest.addr, Fill(destMax, ByteOf(c))))
  }

  // ---- SECUREC_MEMORY_NO_OVERLAP and SECUREC_MEMORY_IS_OVERLAP ----

  predicate MemoryNoOverlap(d: nat, s: nat, count: nat) {
    (s < d && s + count <= d) || (d < s && d + count <= s)
  }

  predicate MemoryIsOverlap(d: nat, s: nat, count: nat) {
    (s < d && s + count > d) || (d < s && d + count > s)
  }

  predicate Within(k: int, p: nat, n: nat) { p <= k < p + n }

  /**
   The two macros are complementary exactly on distinct pointers, and the
   second one says that some cell is both read and written.
   */
  lemma OverlapMacros(d: nat, s: nat, count: nat)
    ensures (MemoryNoOverlap(d, s, count) <==> !MemoryIsOverlap(d, s, count)) <==> d != s
    ensures MemoryIsOverlap(d, s, count) <==>
            d != s && exists k :: Within(k, d, count) && Within(k, s, count)
  {
    var top := if s < d then d else s;
    assert MemoryIsOverlap(d, s, count) ==> Within(top, d, count) && Within(top, s, count);
  }

  // ---- byte movers ----

  /** libc memcpy: the ranges are disjoint or identical. */
  method MemCpy(mem: array<Cell>, d: nat, s: nat, n: nat)
    requires d + n <= mem.Length && s + n <= mem.Length && !Clash(d, s, n)
    modifies mem
    ensures mem[..] == Put(old(mem[..]), d, old(mem[s..s + n]))
  {
    BlockCopy(mem, d, s, n);
  }

  /** The first i cells of an upward copy are done. */
  ghost predicate CopiedUp(m: seq<Cell>, m': seq<Cell>, d: nat, s: nat, i: nat) {
    && |m'| == |m| && d + i <= |m| && s + i <= |m|
    && forall k {:trigger m'[k]} :: 0 <= k < |m| ==> m'[k] == if d <= k < d + i then m[s + k - d] else m[k]
  }

  lemma CopiedUpStep(m: seq<Cell>, m1: seq<Cell>, m2: seq<Cell>, d: nat, s: nat, i: nat)
    requires CopiedUp(m, m1, d, s, i) && d + i < |m| && s + i < |m|
    requires d <= s || s + i < d
    requires m2 == m1[d + i := m1[s + i]]
    ensures CopiedUp(m, m2, d, s, i + 1)
  {
    assert m1[s + i] == m[s + i];
    forall k | 0 <= k < |m|
      ensures m2[k] == if d <= k < d + (i + 1) then m[s + k - d] else m[k]
    {
      assert m1[k] == if d <= k < d + i then m[s + k - d] else m[k];
    }
  }

  lemma CopiedUpAll(m: seq<Cell>, m': seq<Cell>, d: nat, s: nat, n: nat)
    requires CopiedUp(m, m', d, s, n)
    ensures m' == Put(m, d, m[s..s + n])
  {
    var r := Put(m, d, m[s..s + n]);
    forall k | 0 <= k < |m|
      ensures m'[k] == r[k]
    {
      if d <= k < d + n {
        assert m[s..s + n][k - d] == m[s + (k - d)];
      }
    }
  }

  /** Lowest address first: the forward loop of SecUtilMemmove. */
  method CopyForward(mem: array<Cell>, d: nat, s: nat, n: nat)
    requires d + n <= mem.Length && s + n <= mem.Length
    requires d <= s || d >= s + n
    modifies mem
    ensures mem[..] == Put(old(mem[..]), d, old(mem[s..s + n]))
  {
    ghost var m := mem[..];
    var maxCount: nat := n;
    var pDest, pSrc := d, s;
    while maxCount > 0
      invariant maxCount <= n && pDest == d + n - maxCount && pSrc == s + n - maxCount
      invariant CopiedUp(m, mem[..], d, s, n - maxCount)
    {
      ghost var m1 := mem[..];
      maxCount := maxCount - 1;
      mem[pDest] := mem[pSrc];
      CopiedUpStep(m, m1, mem[..], d, s, pDest - d);
      pDest, pSrc := pDest + 1, pSrc + 1;
    }
    CopiedUpAll(m, mem[..], d, s, n);
  }

  /** All but the first i of n cells of a downward copy are done. */
  ghost predicate CopiedDown(m: seq<Cell>, m': seq<Cell>, d: nat, s: nat, n: nat, i: nat) {
    && |m'| == |m| && d + n <= |m| && s + n <= |m| && i <= n
    && forall k {:trigger m'[k]} :: 0 <= k < |m| ==> m'[k] == if d + i <= k < d + n then m[s + k - d] else m[k]
  }

  lemma CopiedDownStep(m: seq<Cell>, m1: seq<Cell>, m2: seq<Cell>, d: nat, s: nat, n: nat, i: nat)
    requires CopiedDown(m, m1, d, s, n, i + 1) && s <= d
    requires m2 == m1[d + i := m1[s + i]]
    ensures CopiedDown(m, m2, d, s, n, i)
  {
    assert m1[s + i] == m[s + i];
    forall k | 0 <= k < |m|
      ensures m2[k] == if d + i <= k < d + n then m[s + k - d] else m[k]
    {
      assert m1[k] == if d + (i + 1) <= k < d + n then m[s + k - d] else m[k];
    }
  }

  lemma CopiedDownAll(m: seq<Cell>, m': seq<Cell>, d: nat, s: nat, n: nat)
    requires CopiedDown(m, m', d, s, n, 0)
    ensures m' == Put(m, d, m[s..s + n])
  {
    assert CopiedUp(m, m', d, s, n);
    CopiedUpAll(m, m', d, s, n);
  }

  /** Highest address first: the backward loop of SecUtilMemmove. */
  method CopyBackward(mem: array<Cell>, d: nat, s: nat, n: nat)
    requires d + n <= mem.Length && s + n <= mem.Length
    requires s <= d
    modifies mem
    ensures mem[..] == Put(old(mem[..]), d, old(mem[s..s + n]))
  {
    ghost var m := mem[..];
    var maxCount: nat := n;
    var pDest, pSrc := d + maxCount - 1, s + maxCount - 1;
    while maxCount > 0
      invariant maxCount <= n && pDest == d + maxCount - 1 && pSrc == s + maxCount - 1
      invariant CopiedDown(m, mem[..], d, s, n, maxCount)
    {
      ghost var m1 := mem[..];
      maxCount := maxCount - 1;
      mem[pDest] := mem[pSrc];
      CopiedDownStep(m, m1, mem[..], d, s, n, maxCount);
      pDest, pSrc := pDest - 1, pSrc - 1;
    }
    CopiedDownAll(m, mem[..], d, s, n);
  }

  /** Struct assignment: all bytes are read before any is written. */
  method BlockCopy(mem: array<Cell>, d: nat, s: nat, n: nat)
    requires d + n <= mem.Length && s + n <= mem.Length
    modifies mem
    ensures mem[..] == Put(old(mem[..]), d, old(mem[s..s + n]))
  {
    var block := mem[s..s + n];
    forall k | 0 <= k < n {
      mem[d + k] := block[k];
    }
  }

  /** A switch whose labels run from lastLabel down to 1, each falling through; the default copies nothing. */
  method FallThroughCopy(mem: array<Cell>, d: nat, s: nat, n: nat, lastLabel: nat)
    requires d + n <= mem.Length && s + n <= mem.Length && !Clash(d, s, n)
    modifies mem
    ensures mem[..] == if n <= lastLabel then Put(old(mem[..]), d, old(mem[s..s + n])) else old(mem[..])
  {
    if n > lastLabel {
      return;
    }
    ghost var m := mem[..];
    var here, tmpDest, tmpSrc := n, d, s;
    while here > 0
      invariant 0 <= here <= n && tmpDest == d + n - here && tmpSrc == s + n - here
      invariant CopiedUp(m, mem[..], d, s, n - here)
    {
      ghost var m1 := mem[..];
      mem[tmpDest] := mem[tmpSrc];
      CopiedUpStep(m, m1, mem[..], d, s, tmpDest - d);
      tmpDest, tmpSrc, here := tmpDest + 1, tmpSrc + 1, here - 1;
    }
    CopiedUpAll(m, mem[..], d, s, n);
  }

  /** SECUREC_SMALL_MEM_COPY and SECUREC_SMALL_STR_COPY: nothing is copied above the last label. */
  method SmallCopy(mem: array<Cell>, d: nat, s: nat, n: nat, lastLabel: nat)
    requires d + n <= mem.Length && s + n <= mem.Length && !Clash(d, s, n)
    modifies mem
    ensures mem[..] == if n <= lastLabel then Put(old(mem[..]), d, old(mem[s..s + n])) else old(mem[..])
  {
    if d % 8 == 0 && s % 8 == 0 {
      if n <= lastLabel {
        BlockCopy(mem, d, s, n);
      }
    } else {
      FallThroughCopy(mem, d, s, n, lastLabel);
    }
  }

  /**
   SECUREC_MEMCPY_OPT and SECUREC_STRCPY_OPT: three routes, one effect, as long
   as the threshold does not exceed the last label of the switches.
   */
  method CopyOpt(mem: array<Cell>, d: nat, s: nat, n: nat, threshold: nat, lastLabel: nat)
    requires d + n <= mem.Length && s + n <= mem.Length && !Clash(d, s, n)
    requires threshold <= lastLabel
    modifies mem
    ensures mem[..] == Put(old(mem[..]), d, old(mem[s..s + n]))
  {
    if n > threshold {
      MemCpy(mem, d, s, n);
    } else {
      SmallCopy(mem, d, s, n, lastLabel);
    }
  }

  /** SecUtilMemmove: right for every overlap, in either direction. */
  method UtilMemmove(mem: array<Cell>, d: nat, s: nat, count: nat)
    requires d + count <= mem.Length && s + count <= mem.Length
    modifies mem
    ensures mem[..] == Put(old(mem[..]), d, old(mem[s..s + count]))
  {
    if d <= s || d >= s + count {
      CopyForward(mem, d, s, count);
    } else {
      CopyBackward(mem, d, s, count);
    }
  }

  /** libc memset. */
  method MemSet(mem: array<Cell>, d: nat, c: Cell, n: nat)
    requires d + n <= mem.Length
    modifies mem
    ensures mem[..] == Put(old(mem[..]), d, Fill(n, c))
  {
    forall k | 0 <= k < n {
      mem[d + k] := c;
    }
  }

  /** SECUREC_UNALIGNED_SET: the fall-through stores. */
  method UnalignedSet(mem: array<Cell>, d: nat, c: int, n: nat)
    requires d + n <= mem.Length
    modifies mem
    ensures mem[..] == Put(old(mem[..]), d, Fill(n, ByteOf(c)))
  {
    var label_: nat := n;
    while label_ > 0
      invariant label_ <= n
      invariant forall k :: 0 <= k < mem.Length ==>
                  mem[k] == if d <= k < d + n - label_ then ByteOf(c) else old(mem[k])
    {
      mem[d + n - label_] := ByteOf(c);
      label_ := label_ - 1;
    }
  }

  /** SECUREC_MEMSET_OPT: constant blocks for 0 and 0xFF, byte stores otherwise. */
  method SetOpt(mem: array<Cell>, d: nat, c: int, n: nat)
    requires d + n <= mem.Length
    modifies mem
    ensures mem[..] == Put(old(mem[..]), d, Fill(n, ByteOf(c)))
  {
    if n > MEMSET_THRESHOLD {
      MemSet(mem, d, ByteOf(c), n);
    } else if d % 8 == 0 && c == 0 {
      MemSet(mem, d, 0, n);
    } else if d % 8 == 0 && c == 0xFF {
      MemSet(mem, d, 0xFF, n);
    } else {
      UnalignedSet(mem, d, c, n);
    }
  }

  // ---- the public functions ----

  method MemmoveS(mem: array<Cell>, dest: Ptr, destMax: nat, src: Ptr, count: nat) returns (rc: Errno)
    requires Callable(mem.Length, dest, destMax, src, count)
    modifies mem
    ensures Outcome(rc, mem[..]) == MoveSpec(old(mem[..]), dest, destMax, src, count)
  {
    if destMax == 0 || destMax > MEM_MAX_LEN {
      return ERANGE;
    }
    if dest == Null || src == Null {
      if dest != Null {
        MemSet(mem, dest.addr, 0, destMax);
        return EINVAL_AND_RESET;
      }
      return EINVAL;
    }
    if count > destMax {
      MemSet(mem, dest.addr, 0, destMax);
      return ERANGE_AND_RESET;
    }
    if dest == src {
      PutSame(mem[..], dest.addr, count);
      return EOK;
    }
    if count > 0 {
      UtilMemmove(mem, dest.addr, src.addr, count);
    } else {
      PutSame(mem[..], dest.addr, 0);
      assert mem[src.addr..src.addr + count] == mem[dest.addr..dest.addr + 0];
    }
    return EOK;
  }

  method MemcpyError(mem: array<Cell>, dest: Ptr, destMax: nat, src: Ptr, count: nat) returns (rc: Errno)
    requires Callable(mem.Length, dest, destMax, src, count)
    requires MaxOk(destMax) && dest.At? && src.At? && 0 < count <= destMax ==>
               !MemoryNoOverlap(dest.addr, src.addr, count)
    modifies mem
    ensures Outcome(rc, mem[..]) == CopySpec(old(mem[..]), dest, destMax, src, count)
  {
    if destMax == 0 || destMax > MEM_MAX_LEN {
      return ERANGE;
    }
    if dest == Null || src == Null {
      if dest != Null {
        MemSet(mem, dest.addr, 0, destMax);
        return EINVAL_AND_RESET;
      }
      return EINVAL;
    }
    if count > destMax {
      MemSet(mem, dest.addr, 0, destMax);
      return ERANGE_AND_RESET;
    }
    if MemoryIsOverlap(dest.addr, src.addr, count) {
      MemSet(mem, dest.addr, 0, destMax);
      return EOVERLAP_AND_RESET;
    }
    return EOK;
  }

  /** The guard of the fast paths. */
  lemma CopyIsFine(m: seq<Cell>, dest: Ptr, destMax: nat, src: Ptr, count: nat)
    requires Callable(|m|, dest, destMax, src, count)
    requires dest.At? && src.At? && 0 < count <= destMax <= MEM_MAX_LEN
    requires MemoryNoOverlap(dest.addr, src.addr, count)
    ensures dest.addr + count <= |m| && src.addr + count <= |m| && !Clash(dest.addr, src.addr, count)
    ensures CopySpec(m, dest, destMax, src, count)
         == Outcome(EOK, Put(m, dest.addr, m[src.addr..src.addr + count]))
  {
  }

  method MemcpyS(mem: array<Cell>, dest: Ptr, destMax: nat, src: Ptr, count: nat) returns (rc: Errno)
    requires Callable(mem.Length, dest, destMax, src, count)
    modifies mem
    ensures Outcome(rc, mem[..]) == CopySpec(old(mem[..]), dest, destMax, src, count)
  {
    if count <= destMax && dest != Null && src != Null && destMax <= MEM_MAX_LEN && count > 0
       && MemoryNoOverlap(dest.addr, src.addr, count) {
      CopyIsFine(mem[..], dest, destMax, src, count);
      MemCpy(mem, dest.addr, src.addr, count);
      return EOK;
    }
    rc := MemcpyError(mem, dest, destMax, src, count);
  }

  /** The copy behind both optimised entries. */
  method FastCopy(mem: array<Cell>, dest: Ptr, destMax: nat, src: Ptr, count: nat)
    requires Callable(mem.Length, dest, destMax, src, count)
    requires dest.At? && src.At? && 0 < count <= destMax <= MEM_MAX_LEN
    requires MemoryNoOverlap(dest.addr, src.addr, count)
    modifies mem
    ensures Outcome(EOK, mem[..]) == CopySpec(old(mem[..]), dest, destMax, src, count)
  {
    CopyIsFine(mem[..], dest, destMax, src, count);
    CopyOpt(mem, dest.addr, src.addr, count, MEMCOPY_THRESHOLD, MEMCOPY_LAST_LABEL);
  }

  method MemcpySOptAsm(mem: array<Cell>, dest: Ptr, destMax: nat, src: Ptr, count: nat) returns (rc: Errno)
    requires Callable(mem.Length, dest, destMax, src, count)
    modifies mem
    ensures Outcome(rc, mem[..]) == CopySpec(old(mem[..]), dest, destMax, src, count)
  {
    if count <= destMax && dest != Null && src != Null && destMax <= MEM_MAX_LEN && count > 0
       && MemoryNoOverlap(dest.addr, src.addr, count) {
      FastCopy(mem, dest, destMax, src, count);
      return EOK;
    }
    rc := MemcpyError(mem, dest, destMax, src, count);
  }

  /** Does not check destMax against the upper limit: its caller, the macro, has done so. */
  method MemcpySOptTc(mem: array<Cell>, dest: Ptr, destMax: nat, src: Ptr, count: nat) returns (rc: Errno)
    requires Callable(mem.Length, dest, destMax, src, count) && destMax <= MEM_MAX_LEN
    modifies mem
    ensures Outcome(rc, mem[..]) == CopySpec(old(mem[..]), dest, destMax, src, count)
  {
    if count <= destMax && dest != Null && src != Null && count > 0
       && MemoryNoOverlap(dest.addr, src.addr, count) {
      FastCopy(mem, dest, destMax, src, count);
      return EOK;
    }
    rc := MemcpyError(mem, dest, destMax, src, count);
  }

  method MemsetError(mem: array<Cell>, dest: Ptr, destMax: nat, c: int, ghost count: nat) returns (rc: Errno)
    requires DestOk(mem.Length, dest, destMax) && (dest.At? ==> dest.addr <= mem.Length)
    requires destMax > MEM_MAX_LEN || dest == Null || count > destMax
    modifies mem
    ensures Outcome(rc, mem[..]) == SetSpec(old(mem[..]), dest, destMax, c, count)
  {
    if destMax == 0 || destMax > MEM_MAX_LEN {
      return ERANGE;
    }
    if dest == Null {
      return EINVAL;
    }
    MemSet(mem, dest.addr, ByteOf(c), destMax);
    return ERANGE_AND_RESET;
  }

  method MemsetS(mem: array<Cell>, dest: Ptr, destMax: nat, c: int, count: nat) returns (rc: Errno)
    requires DestOk(mem.Length, dest, destMax) && (dest.At? ==> dest.addr <= mem.Length)
    modifies mem
    ensures Outcome(rc, mem[..]) == SetSpec(old(mem[..]), dest, destMax, c, count)
  {
    if destMax <= MEM_MAX_LEN && dest != Null && count <= destMax {
      MemSet(mem, dest.addr, ByteOf(c), count);
      return EOK;
    }
    rc := MemsetError(mem, dest, destMax, c, count);
  }

  method MemsetSOptAsm(mem: array<Cell>, dest: Ptr, destMax: nat, c: int, count: nat) returns (rc: Errno)
    requires DestOk(mem.Length, dest, destMax) && (dest.At? ==> dest.addr <= mem.Length)
    modifies mem
    ensures Outcome(rc, mem[..]) == SetSpec(old(mem[..]), dest, destMax, c, count)
  {
    if destMax <= MEM_MAX_LEN && dest != Null && count <= destMax {
      SetOpt(mem, dest.addr, c, count);
      return EOK;
    }
    rc := MemsetError(mem, dest, destMax, c, count);
  }

  method MemsetSOptTc(mem: array<Cell>, dest: Ptr, destMax: nat, c: int, count: nat) returns (rc: Errno)
    requires DestOk(mem.Length, dest, destMax) && (dest.At? ==> dest.addr <= mem.Length)
    requires destMax <= MEM_MAX_LEN
    modifies mem
    ensures Outcome(rc, mem[..]) == SetSpec(old(mem[..]), dest, destMax, c, count)
  {
    if count <= destMax && dest != Null {
      SetOpt(mem, dest.addr, c, count);
      return EOK;
    }
    rc := MemsetError(mem, dest, destMax, c, count);
  }

  // ---- the dispatching macros ----

  /** x & -2 on an unsigned operand. */
  function ClearLowBit(x: nat): nat { x - x % 2 }

  /** Against an odd limit, clearing the low bit turns < into <=. */
  lemma ClearLowBitTest(cap: nat, x: nat)
    requires cap % 2 == 1
    ensures ClearLowBit(x) < cap <==> x <= cap
    ensures ClearLowBit(x) > cap <==> x > cap
  {
  }

  /** The bit-level reading of ClearLowBit and of both range tests, for all 64-bit sizes. */
  lemma MaskedRangeTests(x: bv64)
    ensures x & 0xFFFF_FFFF_FFFF_FFFE == x - (x & 1)
    ensures (x & 0xFFFF_FFFF_FFFF_FFFE) < 0x7fff_ffff <==> x <= 0x7fff_ffff
    ensures (x & 0xFFFF_FFFF_FFFF_FFFE) > 0x7fff_ffff <==> x > 0x7fff_ffff
  {
    assert 0x7fff_fffe & 0xFFFF_FFFF_FFFF_FFFE == 0x7fff_fffe as bv64;
  }

  /**
   memset_sp: whatever the compiler knows to be constant, the effect is that of memset_s.
   */
  method MemsetSp(mem: array<Cell>, dest: Ptr, destMax: nat, c: int, count: nat,
                  countConstant: bool, maxConstant: bool) returns (rc: Errno)
    requires DestOk(mem.Length, dest, destMax) && (dest.At? ==> dest.addr <= mem.Length)
    modifies mem
    ensures Outcome(rc, mem[..]) == SetSpec(old(mem[..]), dest, destMax, c, count)
  {
    if countConstant {
      if !(ClearLowBit(destMax) > MEM_MAX_LEN || dest == Null || count > destMax) {
        MemSet(mem, dest.addr, ByteOf(c), count);
        return EOK;
      }
      rc := MemsetS(mem, dest, destMax, c, count);
    } else if maxConstant {
      if ClearLowBit(destMax) < MEM_MAX_LEN {
        rc := MemsetSOptTc(mem, dest, destMax, c, count);
      } else {
        rc := ERANGE;
      }
    } else {
      rc := MemsetSOptAsm(mem, dest, destMax, c, count);
    }
  }

  /** The constant-count route of memcpy_sp stores without an overlap test. */
  ghost predicate Unchecked(dest: Ptr, destMax: nat, src: Ptr, count: nat) {
    MaxOk(destMax) && dest.At? && src.At? && count <= destMax && Clash(dest.addr, src.addr, count)
  }

  /**
   memcpy_sp equals memcpy_s on every route; the constant-count route is
   defined only where libc memcpy is.
   */
  method MemcpySp(mem: array<Cell>, dest: Ptr, destMax: nat, src: Ptr, count: nat,
                  countConstant: bool, maxConstant: bool) returns (rc: Errno)
    requires Callable(mem.Length, dest, destMax, src, count)
    requires countConstant ==> !Unchecked(dest, destMax, src, count)
    modifies mem
    ensures Outcome(rc, mem[..]) == CopySpec(old(mem[..]), dest, destMax, src, count)
  {
    if countConstant {
      if !(destMax == 0 || ClearLowBit(destMax) > MEM_MAX_LEN || count > destMax || dest == Null || src == Null) {
        MemCpy(mem, dest.addr, src.addr, count);
        return EOK;
      }
      rc := MemcpyS(mem, dest, destMax, src, count);
    } else if maxConstant {
      if destMax > 0 && ClearLowBit(destMax) < MEM_MAX_LEN {
        rc := MemcpySOptTc(mem, dest, destMax, src, count);
      } else {
        rc := ERANGE;
      }
    } else {
      rc := MemcpySOptAsm(mem, dest, destMax, src, count);
    }
  }

  // ---- relations between the tables ----

  /** memcpy_s and memmove_s agree in code and memory exactly where no distinct ranges clash. */
  lemma CopyVersusMove(m: seq<Cell>, dest: Ptr, destMax: nat, src: Ptr, count: nat)
    requires Callable(|m|, dest, destMax, src, count)
    ensures (CopySpec(m, dest, destMax, src, count) == MoveSpec(m, dest, destMax, src, count))
            <==> !Unchecked(dest, destMax, src, count)
    ensures Unchecked(dest, destMax, src, count) ==>
              var r := CopySpec(m, dest, destMax, src, count);
              && r.rc == EOVERLAP_AND_RESET
              && r.mem[dest.addr..dest.addr + destMax] == Fill(destMax, 0)
  {
  }

  /**
   Whatever is passed, memmove_s and memcpy_s write only inside the destination
   buffer; on EOK it holds the old source bytes and on a reset it is all zero.
   */
  lemma MemFrame(m: seq<Cell>, dest: Ptr, destMax: nat, src: Ptr, count: nat, k: nat)
    requires Callable(|m|, dest, destMax, src, count) && k < |m|
    ensures forall r :: r in {MoveSpec(m, dest, destMax, src, count), CopySpec(m, dest, destMax, src, count)} ==>
              && |r.mem| == |m|
              && (dest.Null? || !(dest.addr <= k < dest.addr + destMax) ==> r.mem[k] == m[k])
              && (r.rc == EOK ==> r.mem[dest.addr..dest.addr + count] == m[src.addr..src.addr + count])
              && (r.rc !in {EOK, EINVAL, ERANGE} ==> r.mem[dest.addr..dest.addr + destMax] == Fill(destMax, 0))
  {
  }

  /**
   memmove_s: exactly when each code is returned, and every cell afterwards.  It
   copies whenever the arguments are proper, however the ranges overlap.
   */
  lemma MoveMeaning(m: seq<Cell>, dest: Ptr, destMax: nat, src: Ptr, count: nat)
    requires Callable(|m|, dest, destMax, src, count)
    ensures var r := MoveSpec(m, dest, destMax, src, count);
            var sized := 0 < destMax <= 0x7fff_ffff;
            && (r.rc == ERANGE <==> !sized)
            && (r.rc == EINVAL <==> sized && dest.Null?)
            && (r.rc == EINVAL_AND_RESET <==> sized && dest.At? && src.Null?)
            && (r.rc == ERANGE_AND_RESET <==> sized && dest.At? && src.At? && count > destMax)
            && (r.rc == EOK <==> sized && dest.At? && src.At? && count <= destMax)
            && |r.mem| == |m|
            && (r.rc in {ERANGE, EINVAL} ==> r.mem == m)
            && (r.rc == EOK ==> forall k :: 0 <= k < |m| ==>
                  r.mem[k] == if Within(k, dest.addr, count) then m[src.addr + (k - dest.addr)] else m[k])
            && (r.rc !in {EOK, ERANGE, EINVAL} ==> forall k :: 0 <= k < |m| ==>
                  r.mem[k] == if Within(k, dest.addr, destMax) then 0 else m[k])
  {
  }

  /** memcpy_s: the same with one more code, for ranges that share a cell without being one range. */
  lemma CopyMeaning(m: seq<Cell>, dest: Ptr, destMax: nat, src: Ptr, count: nat)
    requires Callable(|m|, dest, destMax, src, count)
    ensures var r := CopySpec(m, dest, destMax, src, count);
            var sized := 0 < destMax <= 0x7fff_ffff;
            var proper := sized && dest.At? && src.At? && count <= destMax;
            var clash := proper && dest != src && src.addr < dest.addr + count && dest.addr < src.addr + count;
            && (r.rc == ERANGE <==> !sized)
            && (r.rc == EINVAL <==> sized && dest.Null?)
            && (r.rc == EINVAL_AND_RESET <==> sized && dest.At? && src.Null?)
            && (r.rc == ERANGE_AND_RESET <==> sized && dest.At? && src.At? && count > destMax)
            && (r.rc == EOVERLAP_AND_RESET <==> clash)
            && (r.rc == EOK <==> proper && !clash)
            && |r.mem| == |m|
            && (r.rc in {ERANGE, EINVAL} ==> r.mem == m)
            && (r.rc == EOK ==> forall k :: 0 <= k < |m| ==>
                  r.mem[k] == if Within(k, dest.addr, count) then m[src.addr + (k - dest.addr)] else m[k])
            && (r.rc !in {EOK, ERANGE, EINVAL} ==> forall k :: 0 <= k < |m| ==>
                  r.mem[k] == if Within(k, dest.addr, destMax) then 0 else m[k])
  {
  }

  /**
   memset_s: exactly when each code is returned, and every cell afterwards; v is
   the unsigned char that c converts to.
   */
  lemma SetMeaning(m: seq<Cell>, dest: Ptr, destMax: nat, c: int, count: nat, v: int)
    requires DestOk(|m|, dest, destMax) && (dest.At? ==> dest.addr <= |m|)
    requires 0 <= v < 256 && (c - v) % 256 == 0
    ensures var r := SetSpec(m, dest, destMax, c, count);
            var fits := dest.At? && count <= destMax <= 0x7fff_ffff;
            && (r.rc == EOK <==> fits)
            && (r.rc == ERANGE <==> !fits && !(0 < destMax <= 0x7fff_ffff))
            && (r.rc == EINVAL <==> 0 < destMax <= 0x7fff_ffff && dest.Null?)
            && (r.rc == ERANGE_AND_RESET <==> 0 < destMax <= 0x7fff_ffff && dest.At? && count > destMax)
            && |r.mem| == |m|
            && (r.rc in {ERANGE, EINVAL} ==> r.mem == m)
            && (r.rc in {EOK, ERANGE_AND_RESET} ==> forall k :: 0 <= k < |m| ==>
                  r.mem[k] == if Within(k, dest.addr, if count <= destMax then count else destMax) then v else m[k])
  {
    assert ByteOf(c) == v;
  }
}
