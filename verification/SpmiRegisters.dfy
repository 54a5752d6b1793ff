/**
 The slave's registers and the lists of registers a transfer visits: in bursts
 on the kernel path, one by one on the ATF path.
 */
module SpmiRegisters {
  import opened Basics
  import opened SpmiWords

  /** One 8-bit register of one of the 16 slaves. */
  datatype Reg = Reg(sid: int, addr: int)

  type Registers = map<Reg, byte>

  function Read(regs: Registers, r: Reg): byte { if r in regs then regs[r] else 0 }

  /** Stores the bytes one after the other. */
  function PutAll(regs: Registers, rs: seq<Reg>, bs: seq<byte>): Registers
    requires |rs| == |bs|
    decreases |rs|
  {
    if rs == [] then regs else PutAll(regs[rs[0] := bs[0]], rs[1..], bs[1..])
  }

  function GetAll(regs: Registers, rs: seq<Reg>): (bs: seq<byte>)
    ensures |bs| == |rs|
  {
    seq(|rs|, i requires 0 <= i < |rs| => Read(regs, rs[i]))
  }

  ghost predicate Distinct(rs: seq<Reg>) {
    forall i, j :: 0 <= i < j < |rs| ==> rs[i] != rs[j]
  }

  lemma {:induction false} PutAllSplit(regs: Registers, r1: seq<Reg>, b1: seq<byte>, r2: seq<Reg>, b2: seq<byte>)
    requires |r1| == |b1| && |r2| == |b2|
    ensures PutAll(regs, r1 + r2, b1 + b2) == PutAll(PutAll(regs, r1, b1), r2, b2)
    decreases |r1|
  {
    if r1 == [] {
      assert r1 + r2 == r2 && b1 + b2 == b2;
    } else {
      assert (r1 + r2)[1..] == r1[1..] + r2 && (b1 + b2)[1..] == b1[1..] + b2;
      PutAllSplit(regs[r1[0] := b1[0]], r1[1..], b1[1..], r2, b2);
    }
  }

  lemma GetAllSplit(regs: Registers, r1: seq<Reg>, r2: seq<Reg>)
    ensures GetAll(regs, r1 + r2) == GetAll(regs, r1) + GetAll(regs, r2)
  {
  }

  /** A register not on the list keeps its value. */
  lemma {:induction false} PutAllFrame(regs: Registers, rs: seq<Reg>, bs: seq<byte>, r: Reg)
    requires |rs| == |bs| && r !in rs
    ensures Read(PutAll(regs, rs, bs), r) == Read(regs, r)
    decreases |rs|
  {
    if rs != [] {
      PutAllFrame(regs[rs[0] := bs[0]], rs[1..], bs[1..], r);
    }
  }

  /** A register listed once gets the byte at its place. */
  lemma {:induction false} PutAllAt(regs: Registers, rs: seq<Reg>, bs: seq<byte>, i: nat)
    requires |rs| == |bs| && Distinct(rs) && i < |rs|
    ensures Read(PutAll(regs, rs, bs), rs[i]) == bs[i]
    decreases |rs|
  {
    var regs' := regs[rs[0] := bs[0]];
    if i == 0 {
      PutAllFrame(regs', rs[1..], bs[1..], rs[0]);
    } else {
      PutAllAt(regs', rs[1..], bs[1..], i - 1);
    }
  }

  /** What was stored is what is read back. */
  lemma PutThenGet(regs: Registers, rs: seq<Reg>, bs: seq<byte>)
    requires |rs| == |bs| && Distinct(rs)
    ensures GetAll(PutAll(regs, rs, bs), rs) == bs
  {
    forall i | 0 <= i < |rs|
      ensures Read(PutAll(regs, rs, bs), rs[i]) == bs[i]
    {
      PutAllAt(regs, rs, bs, i);
    }
  }

  // ---- the registers of a transfer ----

  const MAX_BYTE_PER_TRANSACTION := 16

  function SidOf(offset: int): int { offset / 0x1_0000 % 16 }
  function AddrOf(offset: int): int { offset % 0x1_0000 }

  /** The register a 20-bit address names. */
  function Flat(offset: int): Reg { Reg(SidOf(offset), AddrOf(offset)) }

  /** Slave and register are the two parts of a 20-bit address. */
  lemma FlatParts(sid: int, addr: int)
    requires 0 <= sid < 16 && 0 <= addr < 0x1_0000
    ensures Flat(0x1_0000 * sid + addr) == Reg(sid, addr)
  {
    Digit(sid, addr, 0x1_0000);
  }

  /** The driver's shift and masks take them apart. */
  lemma OffsetBits(offset: bv32)
    ensures (offset >> 16) & 0xf == offset / 0x1_0000 % 16 && offset & 0xffff == offset % 0x1_0000
  {
  }

  /** One transaction: the slave counts up within its 16-bit address space. */
  function Burst(sid: int, addr: int, n: nat): (rs: seq<Reg>)
    ensures |rs| == n
  {
    seq(n, k => Reg(sid, (addr + k) % 0x1_0000))
  }

  function FlatList(offset: int, cnt: nat): (rs: seq<Reg>)
    ensures |rs| == cnt
  {
    seq(cnt, k => Flat(offset + k))
  }

  function ChunkLen(cnt: nat): nat { if cnt < MAX_BYTE_PER_TRANSACTION then cnt else MAX_BYTE_PER_TRANSACTION }

  /** The kernel path: bursts of at most 16 bytes. */
  function Chunked(offset: int, cnt: nat): (rs: seq<Reg>)
    ensures |rs| == cnt
    decreases cnt
  {
    if cnt == 0 then []
    else
      var n := ChunkLen(cnt);
      Burst(SidOf(offset), AddrOf(offset), n) + Chunked(offset + n, cnt - n)
  }

  /** The registers visited on either path. */
  function Visited(atf: bool, offset: int, cnt: nat): (rs: seq<Reg>)
    ensures |rs| == cnt
  {
    if atf then FlatList(offset, cnt) else Chunked(offset, cnt)
  }

  lemma ListsAt(offset: int, sid: int, addr: int, n: nat, k: nat)
    requires k < n
    ensures FlatList(offset, n)[k] == Flat(offset + k)
    ensures Burst(sid, addr, n)[k] == Reg(sid, (addr + k) % 0x1_0000)
  {
  }

  /** A burst follows 20-bit addresses exactly when it does not run past the slave's last register. */
  lemma BurstIsFlat(offset: int, n: nat)
    ensures Burst(SidOf(offset), AddrOf(offset), n) == FlatList(offset, n) <==> AddrOf(offset) + n <= 0x1_0000
  {
    if AddrOf(offset) + n <= 0x1_0000 {
      forall k | 0 <= k < n
        ensures Burst(SidOf(offset), AddrOf(offset), n)[k] == FlatList(offset, n)[k]
      {
        NoCarry(offset, k);
      }
    } else {
      var k := 0x1_0000 - AddrOf(offset);
      Carry(offset, k);
      ListsAt(offset, SidOf(offset), AddrOf(offset), n, k);
    }
  }

  lemma NoCarry(offset: int, k: nat)
    requires AddrOf(offset) + k < 0x1_0000
    ensures Flat(offset + k) == Reg(SidOf(offset), AddrOf(offset) + k)
  {
    Digit(offset / 0x1_0000, AddrOf(offset) + k, 0x1_0000);
  }

  lemma Carry(offset: int, k: nat)
    requires AddrOf(offset) + k == 0x1_0000
    ensures SidOf(offset + k) != SidOf(offset)
  {
    Digit(offset / 0x1_0000 + 1, 0, 0x1_0000);
    var h := offset / 0x1_0000;
    assert (h + 1) % 16 != h % 16;
  }

  /** A 16-aligned address leaves room for a burst in its slave, and so does the next one. */
  lemma AlignedFits(offset: int, n: nat)
    requires offset % 16 == 0 && n <= 16
    ensures Burst(SidOf(offset), AddrOf(offset), n) == FlatList(offset, n)
    ensures (offset + 16) % 16 == 0
  {
    assert AddrOf(offset) % 16 == 0;
    BurstIsFlat(offset, n);
  }

  /** From a 16-aligned address no burst does, so both paths visit the same registers in the same order. */
  lemma {:induction false} AlignedIsFlat(offset: int, cnt: nat)
    requires offset % 16 == 0
    ensures Chunked(offset, cnt) == FlatList(offset, cnt)
    decreases cnt
  {
    if cnt == 0 {
      assert FlatList(offset, 0) == [];
    } else {
      var n := ChunkLen(cnt);
      AlignedFits(offset, n);
      FlatSplit(offset, n, cnt - n);
      if n == 16 {
        AlignedIsFlat(offset + n, cnt - n);
      } else {
        assert FlatList(offset + n, cnt - n) == [] == Chunked(offset + n, cnt - n);
      }
    }
  }

  lemma FlatSplit(offset: int, n: nat, rest: nat)
    ensures FlatList(offset, n + rest) == FlatList(offset, n) + FlatList(offset + n, rest)
  {
    var whole, parts := FlatList(offset, n + rest), FlatList(offset, n) + FlatList(offset + n, rest);
    forall k | 0 <= k < |whole|
      ensures whole[k] == parts[k]
    {
      assert k >= n ==> offset + n + (k - n) == offset + k;
    }
  }

  /** Addresses less than 2^20 apart name different registers. */
  lemma FlatDistinct(offset: int, cnt: nat)
    requires cnt <= 0x10_0000
    ensures Distinct(FlatList(offset, cnt))
  {
    var rs := FlatList(offset, cnt);
    forall i, j | 0 <= i < j < |rs|
      ensures rs[i] != rs[j]
    {
      FlatInjective(offset + i, offset + j);
    }
  }

  lemma FlatInjective(a: int, b: int)
    requires a < b < a + 0x10_0000
    ensures Flat(a) != Flat(b)
  {
    var ha, hb := a / 0x1_0000, b / 0x1_0000;
    if AddrOf(a) == AddrOf(b) {
      assert b - a == (hb - ha) * 0x1_0000;
      assert 0 < hb - ha < 16;
    }
  }

  /** Where byte x of a kernel transfer goes: the slave its chunk starts in, the address of byte x. */
  function Place(offset: int, x: nat): Reg {
    Reg(SidOf(offset + (x - x % 16)), AddrOf(offset + x))
  }

  lemma FirstPlaces(offset: int, n: nat, x: nat)
    requires x < n <= 16
    ensures Burst(SidOf(offset), AddrOf(offset), n)[x] == Place(offset, x)
  {
    SameAddress(offset, x);
  }

  lemma LaterPlaces(offset: int, x: nat)
    requires x >= 16
    ensures Place(offset, x) == Place(offset + 16, x - 16)
  {
    assert (x - 16) % 16 == x % 16;
  }

  lemma {:induction false} ChunkedAt(offset: int, cnt: nat, x: nat)
    requires x < cnt
    ensures Chunked(offset, cnt)[x] == Place(offset, x)
    decreases cnt
  {
    var n := ChunkLen(cnt);
    var first, rest := Burst(SidOf(offset), AddrOf(offset), n), Chunked(offset + n, cnt - n);
    assert Chunked(offset, cnt) == first + rest;
    if x < n {
      FirstPlaces(offset, n, x);
    } else {
      LaterPlaces(offset, x);
      ChunkedAt(offset + n, cnt - n, x - n);
    }
  }

  lemma SameAddress(offset: int, k: nat)
    ensures (AddrOf(offset) + k) % 0x1_0000 == AddrOf(offset + k)
  {
    var q := offset / 0x1_0000;
    assert offset + k == 0x1_0000 * q + (AddrOf(offset) + k);
    ModAdd(AddrOf(offset) + k, q, 0x1_0000);
  }

  lemma ModAdd(a: int, q: int, m: int)
    requires m == 16 || m == 0x1_0000
    ensures (m * q + a) % m == a % m && (m * q + a) / m == q + a / m
  {
    if m == 16 {
      assert (16 * q + a) / 16 == q + a / 16;
    } else {
      assert (0x1_0000 * q + a) / 0x1_0000 == q + a / 0x1_0000;
    }
  }

  lemma WithinSlave(offset: int, x: nat)
    requires AddrOf(offset) + x < 0x1_0000
    ensures Place(offset, x) == Flat(offset + x)
  {
    NoCarry(offset, x);
    NoCarry(offset, x - x % 16);
  }

  /** The first byte behind the slave's last register, in the middle of a chunk. */
  lemma AcrossSlaves(offset: int, x: nat)
    requires offset % 16 != 0 && AddrOf(offset) + x == 0x1_0000
    ensures Place(offset, x) != Flat(offset + x)
  {
    Carry(offset, x);
    assert x % 16 != 0;
    NoCarry(offset, x - x % 16);
  }

  /**
   The two paths visit the same registers in the same order if and only if the
   transfer is 16-aligned or stays within one slave.
   */
  lemma PathsAgree(offset: int, cnt: nat)
    ensures Chunked(offset, cnt) == FlatList(offset, cnt) <==>
            offset % 16 == 0 || AddrOf(offset) + cnt <= 0x1_0000
  {
    if offset % 16 == 0 {
      AlignedIsFlat(offset, cnt);
    } else if AddrOf(offset) + cnt <= 0x1_0000 {
      forall x | 0 <= x < cnt
        ensures Chunked(offset, cnt)[x] == FlatList(offset, cnt)[x]
      {
        ChunkedAt(offset, cnt, x);
        WithinSlave(offset, x);
      }
    } else {
      var x := 0x1_0000 - AddrOf(offset);
      ChunkedAt(offset, cnt, x);
      AcrossSlaves(offset, x);
      ListsAt(offset, 0, 0, cnt, x);
    }
  }

  /** Chunks start 16 apart, so two bytes at one address of one slave are 2^20 apart. */
  lemma ChunksDiffer(offset: int, x: nat, y: nat)
    requires x < y < x + 0x10_0000
    ensures Place(offset, x) != Place(offset, y)
  {
    if AddrOf(offset + x) == AddrOf(offset + y) {
      var r := (offset + y) / 0x1_0000 - (offset + x) / 0x1_0000;
      assert y - x == 0x1_0000 * r;
      assert 0 < r < 16;
      ModAdd(x, 4096 * r, 16);
      var b := offset + (x - x % 16);
      assert offset + (y - y % 16) == 0x1_0000 * r + b;
      ModAdd(b, r, 0x1_0000);
      var h := b / 0x1_0000;
      assert (r + h) % 16 != h % 16;
    }
  }

  /** Transfers within 2^20 bytes name no register twice, on either path and from any address. */
  lemma VisitedDistinct(atf: bool, offset: int, cnt: nat)
    requires cnt <= 0x10_0000
    ensures Distinct(Visited(atf, offset, cnt))
  {
    if atf {
      FlatDistinct(offset, cnt);
    } else {
      var rs := Chunked(offset, cnt);
      forall i, j | 0 <= i < j < |rs|
        ensures rs[i] != rs[j]
      {
        ChunkedAt(offset, cnt, i);
        ChunkedAt(offset, cnt, j);
        ChunksDiffer(offset, i, j);
      }
    }
  }
}
