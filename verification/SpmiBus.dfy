/**
 The SPMI transfer path: spmi_write_data and spmi_read_data down to the
 controller's registers, with the controller and its slaves as the hardware
 below.  Each transaction is atomic and ends as the environment decides.
 */
module SpmiBus {
  import opened Basics
  import opened SpmiWords
  import opened SpmiRegisters

  const EIO := 5
  const EINVAL := 22
  const ETIMEDOUT := 110
  const SPMI_MAX_SLAVE_ID := 16
  const SPMI_CONTROLLER_MAX_TRANS_BYTES := 16

  /** Length limit of the long extended commands in hisi-spmi.h. */
  const LONG_LIMIT := 8

  const SPMI_CMD_EXT_WRITE := 0
  const SPMI_CMD_EXT_READ := 1
  const SPMI_CMD_EXT_WRITEL := 2
  const SPMI_CMD_EXT_READL := 3
  const SPMI_CMD_WRITE := 4
  const SPMI_CMD_READ := 5

  /** How a transaction ends; one that does not complete may leave anything in the registers. */
  datatype BusOutcome = Done | TransFail(left: Registers) | TimedOut(left: Registers)

  /** The first n bytes a FIFO of four words puts on the bus. */
  function Fifo(words: seq<Data>, n: nat): (bs: seq<byte>)
    requires |words| == 4 && n <= 16
    ensures |bs| == n
  {
    seq(n, k requires 0 <= k < n => BusByte(words[k / 4], k % 4))
  }

  /** The FIFO word that carries bytes 4i to 4i+3 of bs. */
  function FifoWord(bs: seq<byte>, i: nat): Data {
    Data(Nth(bs, 4 * i + 3), Nth(bs, 4 * i + 2), Nth(bs, 4 * i + 1), Nth(bs, 4 * i))
  }

  function FillFifo(bs: seq<byte>): seq<Data> {
    [FifoWord(bs, 0), FifoWord(bs, 1), FifoWord(bs, 2), FifoWord(bs, 3)]
  }

  lemma FifoByte(bs: seq<byte>, i: nat, q: nat)
    requires i < 4 && q < 4
    ensures BusByte(FillFifo(bs)[i], q) == Nth(bs, 4 * i + q)
  {
    assert FillFifo(bs)[i] == FifoWord(bs, i);
  }

  lemma FifoCarries(bs: seq<byte>)
    requires |bs| <= 16
    ensures Fifo(FillFifo(bs), |bs|) == bs
  {
    forall k | 0 <= k < |bs|
      ensures Fifo(FillFifo(bs), |bs|)[k] == bs[k]
    {
      FifoByte(bs, k / 4, k % 4);
    }
  }

  /** Bytes 4i up to 4i+3 of bs, as far as there are any. */
  function Quad(bs: seq<byte>, i: nat): (q: seq<byte>)
    requires 4 * i < |bs|
    ensures |q| <= 4
  {
    if 4 * i + 4 <= |bs| then bs[4 * i..4 * i + 4] else bs[4 * i..]
  }

  /** Up to four bytes as a number, the first one most significant and missing ones 0. */
  function BigEndian(q: seq<byte>): int
    requires |q| <= 4
  {
    0x100_0000 * Nth(q, 0) + 0x1_0000 * Nth(q, 1) + 0x100 * Nth(q, 2) + Nth(q, 3)
  }

  /** The same part of a longer buffer. */
  lemma QuadOf(all: seq<byte>, at: nat, bc: nat, i: nat)
    requires at + bc <= |all| && 4 * i < bc
    ensures var n := if 4 * i + 4 <= bc then 4 else bc - 4 * i;
            Quad(all[at..at + bc], i) == all[at + 4 * i..at + 4 * i + n]
  {
    var bs := all[at..at + bc];
    assert forall k :: 0 <= k < bc ==> bs[k] == all[at + k];
  }

  /** FIFO words swapped from memory carry the bytes in memory order. */
  lemma SentFifo(words: seq<Data>, bs: seq<byte>)
    requires |words| == 4 && |bs| <= 16
    requires forall j :: 0 <= j < 4 && 4 * j < |bs| ==> words[j] == Swap(Pack(Quad(bs, j)))
    ensures Fifo(words, |bs|) == bs
  {
    forall k | 0 <= k < |bs|
      ensures Fifo(words, |bs|)[k] == bs[k]
    {
      SentBytes(Quad(bs, k / 4), k % 4);
    }
  }

  lemma FifoAt(words: seq<Data>, bc: nat, i: nat, q: nat)
    requires |words| == 4 && bc <= 16 && q < 4 && 4 * i + q < bc
    ensures i < 4 && Fifo(words, bc)[4 * i + q] == BusByte(words[i], q)
  {
    assert (4 * i + q) / 4 == i && (4 * i + q) % 4 == q;
  }

  /** A received word, swapped, is the next part of what the FIFO delivers. */
  lemma ReceivedQuad(words: seq<Data>, bc: nat, i: nat, n: nat)
    requires |words| == 4 && bc <= 16 && n <= 4 && 4 * i + n <= bc && i < 4
    ensures Unpack(Swap(words[i]), n) == Fifo(words, bc)[4 * i..4 * i + n]
  {
    forall q | 0 <= q < n
      ensures Unpack(Swap(words[i]), n)[q] == Fifo(words, bc)[4 * i + q]
    {
      ReceivedBytes(words[i], n, q);
      FifoAt(words, bc, i, q);
    }
  }

  class Controller {
    /** Outcome of each transaction, and the length limit of long commands. */
    const env: nat -> BusOutcome
    const longLimit: nat
    /** What the firmware returns for each write it has completed. */
    const reply: nat -> nat

    var tick: nat
    var regs: Registers
    /** The command register: the last word written to it. */
    var command: word
    var wdata: seq<Data>
    var rdata: seq<Data>

    constructor (env: nat -> BusOutcome, reply: nat -> nat, longLimit: nat, regs: Registers)
      ensures Valid() && this.env == env && this.reply == reply && this.longLimit == longLimit && this.regs == regs
    {
      this.env, this.reply, this.longLimit, this.regs, this.tick := env, reply, longLimit, regs, 0;
      var zero := Data(0, 0, 0, 0);
      wdata, rdata, command := [zero, zero, zero, zero], [zero, zero, zero, zero], 0;
    }

    ghost predicate Valid()
      reads this
    {
      |wdata| == 4 && |rdata| == 4
    }

    ghost predicate Reliable() {
      forall k: nat :: env(k) == Done
    }

    // ---- hardware ----

    /** What a completed command does: types 1, 3 and 5 write, types 2, 4 and 6 read. */
    method Perform(typ: int, target: seq<Reg>)
      requires Valid() && |target| <= 16
      modifies `regs, `rdata
      ensures Valid()
      ensures typ in {1, 3, 5} ==> regs == PutAll(old(regs), target, Fifo(wdata, |target|))
      ensures typ in {2, 4, 6} ==> regs == old(regs) && Fifo(rdata, |target|) == GetAll(regs, target)
    {
      if typ == 1 || typ == 3 || typ == 5 {
        regs := PutAll(regs, target, Fifo(wdata, |target|));
      } else if typ == 2 || typ == 4 || typ == 6 {
        FifoCarries(GetAll(regs, target));
        rdata := FillFifo(GetAll(regs, target));
      }
    }

    /** Writing the command register and polling the status register until the transaction ends. */
    method Start(cmd: word) returns (rc: int)
      requires Valid() && Enabled(cmd)
      modifies `tick, `regs, `rdata, `command
      ensures Valid() && command == cmd && rc <= 0 && (env(old(tick)) == Done ==> rc == 0)
      ensures rc == 0 && Type(cmd) in {1, 3, 5} ==>
                regs == PutAll(old(regs), Burst(Slave(cmd), Address(cmd), Length(cmd)), Fifo(wdata, Length(cmd)))
      ensures rc == 0 && Type(cmd) in {2, 4, 6} ==>
                && regs == old(regs)
                && Fifo(rdata, Length(cmd)) == GetAll(regs, Burst(Slave(cmd), Address(cmd), Length(cmd)))
    {
      command := cmd;
      var outcome := env(tick);
      tick := tick + 1;
      match outcome
      case TransFail(left) =>
        regs := left;
        return -EIO;
      case TimedOut(left) =>
        regs := left;
        return -ETIMEDOUT;
      case Done =>
        Perform(Type(cmd), Burst(Slave(cmd), Address(cmd), Length(cmd)));
        return 0;
    }

    // ---- hisi-spmi-controller.c ----

    /** Word i of the packing loop: a full one, or what is left. */
    method PackWord(buf: array<byte>, at: nat, bc: nat, i: nat, p: nat) returns (n: nat)
      requires Valid() && bc <= 16 && at + bc <= buf.Length && 4 * i < bc && p == at + 4 * i
      modifies `wdata
      ensures Valid() && n == (if 4 * i + 4 <= bc then 4 else bc - 4 * i)
      ensures wdata == old(wdata)[i := Swap(Pack(Quad(buf[at..at + bc], i)))]
    {
      n := if bc - i * 4 >= 4 then 4 else bc % 4;
      QuadOf(buf[..], at, bc, i);
      wdata := wdata[i := Swap(Pack(buf[p..p + n]))];
    }

    /** The packing loop of spmi_write_cmd. */
    method FillWriteFifo(buf: array<byte>, at: nat, bc: nat)
      requires Valid() && bc <= 16 && at + bc <= buf.Length
      modifies `wdata
      ensures Valid() && Fifo(wdata, bc) == buf[at..at + bc]
      ensures bc == 0 ==> wdata == old(wdata)[0 := Data(0, 0, 0, 0)]
      ensures forall j :: 0 <= j < 4 && 4 * j < bc ==>
                wdata[j].Value() == BigEndian(Quad(buf[at..at + bc], j))
    {
      if bc == 0 {
        // the body runs once and copies nothing into the word
        wdata := wdata[0 := Swap(Pack([]))];
        return;
      }
      ghost var bs := buf[at..at + bc];
      var i, p := 0, at;
      while bc > i * 4
        invariant Valid() && 0 <= i <= 4 && p == at + (if 4 * i <= bc then 4 * i else bc) && 4 * i < bc + 4
        invariant forall j :: 0 <= j < i ==> 4 * j < bc && wdata[j] == Swap(Pack(Quad(bs, j)))
        decreases 4 - i
      {
        var n := PackWord(buf, at, bc, i, p);
        p := p + n;
        i := i + 1;
      }
      SentFifo(wdata, bs);
      forall j | 0 <= j < 4 && 4 * j < bc
        ensures wdata[j].Value() == BigEndian(Quad(bs, j))
      {
        SentWord(Quad(bs, j));
      }
    }

    /** spmi_write_cmd; with a count of 0 the command that leaves is not the one asked for, and nothing is promised. */
    method WriteCmd(opc: int, sid: int, addr: int, bc: nat, buf: array<byte>, at: nat) returns (rc: int)
      requires Valid() && at + bc <= buf.Length
      modifies this
      ensures Valid() && rc <= 0
      ensures (bc > 16 || opc !in {SPMI_CMD_WRITE, SPMI_CMD_EXT_WRITE, SPMI_CMD_EXT_WRITEL}) ==>
                rc == -EINVAL && regs == old(regs)
      ensures rc == 0 ==> bc <= 16
      ensures 0 < bc <= 16 && opc in {SPMI_CMD_WRITE, SPMI_CMD_EXT_WRITE, SPMI_CMD_EXT_WRITEL} ==>
                var typ := if opc == SPMI_CMD_WRITE then 1 else if opc == SPMI_CMD_EXT_WRITE then 3 else 5;
                command == 0x8000_0000 + 0x100_0000 * typ + 0x10_0000 * (bc - 1) + 0x1_0000 * (sid % 16) + addr % 0x1_0000
      ensures rc == 0 && bc > 0 ==> regs == PutAll(old(regs), Burst(sid % 16, addr % 0x1_0000, bc), buf[at..at + bc])
      ensures Reliable() && bc <= 16 && opc in {SPMI_CMD_WRITE, SPMI_CMD_EXT_WRITE, SPMI_CMD_EXT_WRITEL} ==> rc == 0
    {
      if bc > SPMI_CONTROLLER_MAX_TRANS_BYTES {
        return -EINVAL;
      }
      var op;
      if opc == SPMI_CMD_WRITE {
        op := 1;
      } else if opc == SPMI_CMD_EXT_WRITE {
        op := 3;
      } else if opc == SPMI_CMD_EXT_WRITEL {
        op := 5;
      } else {
        return -EINVAL;
      }
      var cmd := Command(op, bc, sid, addr);
      CommandFields(op, bc, sid, addr);
      CommandWeights(op, bc, sid, addr);
      FillWriteFifo(buf, at, bc);
      rc := Start(cmd);
    }

    /** Word i of the unpacking loop. */
    method UnpackWord(buf: array<byte>, at: nat, bc: nat, i: nat, p: nat) returns (n: nat)
      requires Valid() && bc <= 16 && at + bc <= buf.Length && 4 * i < bc && p == at + 4 * i
      modifies buf
      ensures n == (if 4 * i + 4 <= bc then 4 else bc - 4 * i)
      ensures forall k :: 0 <= k < buf.Length ==>
                buf[k] == if p <= k < p + n then Fifo(rdata, bc)[k - at] else old(buf[k])
    {
      n := if bc - i * 4 >= 4 then 4 else bc % 4;
      var data := Unpack(Swap(rdata[i]), n);
      ReceivedQuad(rdata, bc, i, n);
      CopyIn(buf, p, data);
    }

    /** The unpacking loop of spmi_read_cmd. */
    method DrainReadFifo(buf: array<byte>, at: nat, bc: nat)
      requires Valid() && bc <= 16 && at + bc <= buf.Length
      modifies buf
      ensures buf[at..at + bc] == Fifo(rdata, bc)
      ensures forall k :: 0 <= k < buf.Length && !(at <= k < at + bc) ==> buf[k] == old(buf[k])
    {
      if bc == 0 {
        return;  // memcpy_s refuses a destination of size 0, and the loop is left
      }
      var i, p := 0, at;
      while bc > i * 4
        invariant 0 <= i <= 4 && p == at + (if 4 * i <= bc then 4 * i else bc) && 4 * i < bc + 4
        invariant forall k :: 0 <= k < buf.Length ==>
                    buf[k] == if at <= k < p then Fifo(rdata, bc)[k - at] else old(buf[k])
        decreases 4 - i
      {
        var n := UnpackWord(buf, at, bc, i, p);
        p := p + n;
        i := i + 1;
      }
    }

    /** spmi_read_cmd; with a count of 0 the buffer stays as it is, success or not. */
    method ReadCmd(opc: int, sid: int, addr: int, bc: nat, buf: array<byte>, at: nat) returns (rc: int)
      requires Valid() && at + bc <= buf.Length
      modifies this, buf
      ensures Valid() && rc <= 0
      ensures (bc > 16 || opc !in {SPMI_CMD_READ, SPMI_CMD_EXT_READ, SPMI_CMD_EXT_READL}) ==>
                rc == -EINVAL && regs == old(regs)
      ensures rc == 0 ==> bc <= 16
      ensures 0 < bc <= 16 && opc in {SPMI_CMD_READ, SPMI_CMD_EXT_READ, SPMI_CMD_EXT_READL} ==>
                var typ := if opc == SPMI_CMD_READ then 2 else if opc == SPMI_CMD_EXT_READ then 4 else 6;
                command == 0x8000_0000 + 0x100_0000 * typ + 0x10_0000 * (bc - 1) + 0x1_0000 * (sid % 16) + addr % 0x1_0000
      ensures rc == 0 && bc > 0 ==>
                && regs == old(regs)
                && buf[at..at + bc] == GetAll(regs, Burst(sid % 16, addr % 0x1_0000, bc))
      ensures forall k :: 0 <= k < buf.Length && !(at <= k < at + bc) ==> buf[k] == old(buf[k])
      ensures Reliable() && bc <= 16 && opc in {SPMI_CMD_READ, SPMI_CMD_EXT_READ, SPMI_CMD_EXT_READL} ==> rc == 0
    {
      if bc > SPMI_CONTROLLER_MAX_TRANS_BYTES {
        return -EINVAL;
      }
      var op;
      if opc == SPMI_CMD_READ {
        op := 2;
      } else if opc == SPMI_CMD_EXT_READ {
        op := 4;
      } else if opc == SPMI_CMD_EXT_READL {
        op := 6;
      } else {
        return -EINVAL;
      }
      var cmd := Command(op, bc, sid, addr);
      CommandFields(op, bc, sid, addr);
      CommandWeights(op, bc, sid, addr);
      rc := Start(cmd);
      if rc != 0 {
        return;
      }
      DrainReadFifo(buf, at, bc);
    }

    // ---- hisi-spmi-core.c ----

    method ExtRegisterWriteL(sid: int, addr: int, buf: array<byte>, at: nat, len: nat) returns (rc: int)
      requires Valid() && 0 <= sid && at + len <= buf.Length
      modifies this
      ensures Valid() && rc <= 0
      ensures sid > 16 || len == 0 || len > longLimit ==> rc == -EINVAL && regs == old(regs)
      ensures rc == 0 ==> len <= 16 && regs == PutAll(old(regs), Burst(sid % 16, addr % 0x1_0000, len), buf[at..at + len])
      ensures Reliable() && sid <= 16 && 0 < len <= longLimit && len <= 16 ==> rc == 0
    {
      if sid > SPMI_MAX_SLAVE_ID || len <= 0 || len > longLimit {
        return -EINVAL;
      }
      rc := WriteCmd(SPMI_CMD_EXT_WRITEL, sid, addr, len, buf, at);
    }

    /**
     spmi_register_read passes a count of 0: on a bus that completes it returns 0
     for every argument it accepts, and it never stores the byte.
     */
    method RegisterRead(sid: int, addr: int, buf: array<byte>, at: nat) returns (rc: int)
      requires Valid() && 0 <= sid && 0 <= addr && at <= buf.Length
      modifies this, buf
      ensures Valid() && buf[..] == old(buf[..])
      ensures addr > 0x1F || sid > 16 ==> rc == -EINVAL && regs == old(regs)
      ensures Reliable() && addr <= 0x1F && sid <= 16 ==> rc == 0
    {
      if addr > 0x1F || sid > SPMI_MAX_SLAVE_ID {
        return -EINVAL;
      }
      rc := ReadCmd(SPMI_CMD_READ, sid, addr, 0, buf, at);
    }

    method ExtRegisterReadL(sid: int, addr: int, buf: array<byte>, at: nat, len: nat) returns (rc: int)
      requires Valid() && 0 <= sid && at + len <= buf.Length
      modifies this, buf
      ensures Valid() && rc <= 0
      ensures sid > 16 || len == 0 || len > longLimit ==> rc == -EINVAL && regs == old(regs)
      ensures rc == 0 ==>
                && len <= 16 && regs == old(regs)
                && buf[at..at + len] == GetAll(regs, Burst(sid % 16, addr % 0x1_0000, len))
      ensures forall k :: 0 <= k < buf.Length && !(at <= k < at + len) ==> buf[k] == old(buf[k])
      ensures Reliable() && sid <= 16 && 0 < len <= longLimit && len <= 16 ==> rc == 0
    {
      if sid > SPMI_MAX_SLAVE_ID || len <= 0 || len > longLimit {
        return -EINVAL;
      }
      rc := ReadCmd(SPMI_CMD_EXT_READL, sid, addr, len, buf, at);
    }

    // ---- hisi-spmi-dbgfs.c ----

    /** atfd_spmi_smc with SPMI_WRITE: the firmware stores one byte and answers with a non-negative number. */
    method SmcWrite(sid: int, addr: int, b: byte) returns (rc: int)
      modifies `tick, `regs
      ensures tick == old(tick) + 1 && (env(old(tick)) == Done ==> rc >= 0)
      ensures rc >= 0 ==> rc == reply(old(tick)) && regs == old(regs)[Reg(sid, addr) := b]
    {
      var outcome := env(tick);
      tick := tick + 1;
      if outcome == Done {
        regs := regs[Reg(sid, addr) := b];
        return reply(tick - 1);
      }
      regs := outcome.left;
      return -EIO;
    }

    /** atfd_spmi_smc with SPMI_READ: a non-negative result is the byte. */
    method SmcRead(sid: int, addr: int) returns (rc: int)
      modifies `tick, `regs
      ensures rc < 256 && (env(old(tick)) == Done ==> rc >= 0)
      ensures rc >= 0 ==> regs == old(regs) && rc == Read(regs, Reg(sid, addr))
    {
      var outcome := env(tick);
      tick := tick + 1;
      if outcome == Done {
        return Read(regs, Reg(sid, addr));
      }
      regs := outcome.left;
      return -EIO;
    }

    /** The first chunk passes the length check of the long commands. */
    ghost predicate Accepts(atf: bool, cnt: nat) {
      atf || cnt == 0 || ChunkLen(cnt) <= longLimit
    }

    /** One turn of the loop of spmi_write_data on the kernel path. */
    method WriteBurst(buf: array<byte>, p: nat, offset: int, cnt: nat, ghost bs: seq<byte>) returns (rc: int)
      requires Valid() && cnt > 0 && p + cnt <= buf.Length && bs == buf[p..p + cnt]
      modifies this
      ensures Valid() && rc <= 0
      ensures rc == 0 ==>
                PutAll(old(regs), Chunked(offset, cnt), bs)
                == PutAll(regs, Chunked(offset + ChunkLen(cnt), cnt - ChunkLen(cnt)), bs[ChunkLen(cnt)..])
      ensures !Accepts(false, cnt) ==> rc == -EINVAL && regs == old(regs)
      ensures Reliable() && Accepts(false, cnt) ==> rc == 0
    {
      var length := ChunkLen(cnt);
      assert bs[..length] == buf[p..p + length] by {
        assert forall k :: 0 <= k < length ==> bs[k] == buf[p + k];
      }
      WriteChunkStep(regs, offset, cnt, bs);
      rc := ExtRegisterWriteL(SidOf(offset), AddrOf(offset), buf, p, length);
    }

    /** One turn of the loop of spmi_write_data. */
    method WriteChunk(buf: array<byte>, p: nat, offset: int, cnt: nat, atf: bool, ghost bs: seq<byte>)
      returns (rc: int, length: nat)
      requires Valid() && cnt > 0 && p + cnt <= buf.Length && bs == buf[p..p + cnt]
      modifies this
      ensures Valid() && length == (if atf then 1 else ChunkLen(cnt)) && (rc > 0 ==> atf)
      ensures rc >= 0 && atf ==> tick > 0 && rc == reply(tick - 1)
      ensures rc >= 0 ==>
                PutAll(old(regs), Visited(atf, offset, cnt), bs)
                == PutAll(regs, Visited(atf, offset + length, cnt - length), bs[length..])
      ensures !Accepts(atf, cnt) ==> rc == -EINVAL && regs == old(regs)
      ensures Reliable() && Accepts(atf, cnt) ==> rc >= 0
    {
      if atf {
        length := 1;
        WriteOneStep(regs, offset, cnt, bs);
        rc := SmcWrite(SidOf(offset), AddrOf(offset), buf[p]);
      } else {
        length := ChunkLen(cnt);
        rc := WriteBurst(buf, p, offset, cnt, bs);
      }
    }

    /**
     spmi_write_data.  An answer that is not negative means that exactly the
     visited registers got the bytes in order, and it is 0 or the firmware's last
     one; with every transaction completing, that is the answer exactly when the
     first chunk is within the limit.
     */
    method WriteData(buf: array<byte>, offset0: int, cnt0: int, atf: bool) returns (rc: int)
      requires Valid() && cnt0 <= buf.Length
      modifies this
      ensures Valid()
      ensures rc >= 0 ==> regs == PutAll(old(regs), Visited(atf, offset0, Items(cnt0)), buf[..Items(cnt0)])
      ensures rc >= 0 ==> if atf && cnt0 > 0 then tick > 0 && rc == reply(tick - 1) else rc == 0
      ensures !Accepts(atf, Items(cnt0)) ==> rc == -EINVAL && regs == old(regs)
      ensures Reliable() ==> (rc >= 0 <==> Accepts(atf, Items(cnt0)))
    {
      rc := 0;
      var offset, cnt, p := offset0, cnt0, 0;
      ghost var total := Items(cnt0);
      ghost var bs := buf[..total];
      ghost var goal := PutAll(regs, Visited(atf, offset0, total), bs);
      while cnt > 0
        invariant Valid() && 0 <= p <= total && cnt == cnt0 - p
        invariant if atf && p > 0 then tick > 0 && rc == reply(tick - 1) else rc == 0
        invariant p == 0 ==> regs == old(regs)
        invariant p > 0 ==> Accepts(atf, total)
        invariant bs == buf[p..total]
        invariant PutAll(regs, Visited(atf, offset, total - p), bs) == goal
        decreases cnt
      {
        var length;
        rc, length := WriteChunk(buf, p, offset, cnt, atf, bs);
        if rc < 0 {
          return;
        }
        bs := bs[length..];
        offset, cnt, p := offset + length, cnt - length, p + length;
      }
    }

    /** One turn of the loop of spmi_read_data on the kernel path. */
    method ReadBurst(buf: array<byte>, p: nat, offset: int, cnt: nat, ghost bs: seq<byte>) returns (rc: int)
      requires Valid() && cnt > 0 && p + cnt <= buf.Length && bs == GetAll(regs, Chunked(offset, cnt))
      modifies this, buf
      ensures Valid() && rc <= 0
      ensures forall k :: 0 <= k < buf.Length && !(p <= k < p + ChunkLen(cnt)) ==> buf[k] == old(buf[k])
      ensures rc == 0 ==> regs == old(regs) && buf[p..p + ChunkLen(cnt)] == bs[..ChunkLen(cnt)]
      ensures !Accepts(false, cnt) ==> rc == -EINVAL && regs == old(regs)
      ensures Reliable() && Accepts(false, cnt) ==> rc == 0
    {
      var length := ChunkLen(cnt);
      ReadChunkStep(regs, offset, cnt);
      rc := ExtRegisterReadL(SidOf(offset), AddrOf(offset), buf, p, length);
    }

    /** The same on the ATF path. */
    method ReadByte(buf: array<byte>, p: nat, offset: int, cnt: nat, ghost bs: seq<byte>) returns (rc: int)
      requires Valid() && cnt > 0 && p + cnt <= buf.Length && bs == GetAll(regs, FlatList(offset, cnt))
      modifies `tick, `regs, buf
      ensures rc <= 0
      ensures forall k :: 0 <= k < buf.Length && k != p ==> buf[k] == old(buf[k])
      ensures rc == 0 ==> regs == old(regs) && buf[p] == bs[0]
      ensures Reliable() ==> rc == 0
    {
      ReadOneStep(regs, offset, cnt);
      rc := SmcRead(SidOf(offset), AddrOf(offset));
      if rc < 0 {
        return;
      }
      buf[p] := rc;
      rc := 0;
    }

    /** One turn of the loop of spmi_read_data, on the way to filling the buffer with goal. */
    method ReadChunk(buf: array<byte>, p: nat, offset: int, cnt: nat, atf: bool, ghost goal: seq<byte>)
      returns (rc: int, length: nat)
      requires Valid() && cnt > 0 && p + cnt == |goal| <= buf.Length && buf[..p] == goal[..p]
      requires goal[p..] == GetAll(regs, Visited(atf, offset, cnt))
      modifies this, buf
      ensures Valid() && rc <= 0 && length == (if atf then 1 else ChunkLen(cnt))
      ensures forall k :: |goal| <= k < buf.Length ==> buf[k] == old(buf[k])
      ensures rc == 0 ==> regs == old(regs) && buf[..p + length] == goal[..p + length]
      ensures rc == 0 ==> goal[p + length..] == GetAll(regs, Visited(atf, offset + length, cnt - length))
      ensures !Accepts(atf, cnt) ==> rc == -EINVAL && regs == old(regs)
      ensures Reliable() && Accepts(atf, cnt) ==> rc == 0
    {
      ghost var done, bs := buf[..p], goal[p..];
      VisitedRest(regs, atf, offset, cnt);
      if atf {
        length := 1;
        rc := ReadByte(buf, p, offset, cnt, bs);
      } else {
        length := ChunkLen(cnt);
        rc := ReadBurst(buf, p, offset, cnt, bs);
      }
      assert bs[length..] == goal[p + length..];
      if rc == 0 {
        assert buf[..p + length] == done + bs[..length];
      }
    }

    /** spmi_read_data: the bytes of the visited registers in order, under the same condition. */
    method ReadData(buf: array<byte>, offset0: int, cnt0: int, atf: bool) returns (rc: int)
      requires Valid() && cnt0 <= buf.Length
      modifies this, buf
      ensures Valid() && rc <= 0
      ensures rc == 0 ==>
                regs == old(regs) && buf[..Items(cnt0)] == GetAll(regs, Visited(atf, offset0, Items(cnt0)))
      ensures forall k :: Items(cnt0) <= k < buf.Length ==> buf[k] == old(buf[k])
      ensures !Accepts(atf, Items(cnt0)) ==> rc == -EINVAL && regs == old(regs)
      ensures Reliable() ==> (rc == 0 <==> Accepts(atf, Items(cnt0)))
    {
      rc := 0;
      var offset, cnt, p := offset0, cnt0, 0;
      ghost var total := Items(cnt0);
      ghost var goal := GetAll(regs, Visited(atf, offset0, total));
      while cnt > 0
        invariant Valid() && rc == 0 && 0 <= p <= total && cnt == cnt0 - p && regs == old(regs)
        invariant p > 0 ==> Accepts(atf, total)
        invariant goal[p..] == GetAll(regs, Visited(atf, offset, total - p))
        invariant buf[..p] == goal[..p]
        invariant forall k :: total <= k < buf.Length ==> buf[k] == old(buf[k])
        decreases cnt
      {
        var length;
        rc, length := ReadChunk(buf, p, offset, cnt, atf, goal);
        if rc < 0 {
          return;
        }
        offset, cnt, p := offset + length, cnt - length, p + length;
      }
      assert goal[..total] == goal;
    }
  }

  /** The bytes a count asks for; the loops are not entered for a negative one. */
  function Items(cnt: int): nat { if cnt < 0 then 0 else cnt }

  /** memcpy_s of a few bytes into the caller's buffer. */
  method CopyIn(buf: array<byte>, p: nat, data: seq<byte>)
    requires p + |data| <= buf.Length
    modifies buf
    ensures forall k :: 0 <= k < buf.Length ==> buf[k] == if p <= k < p + |data| then data[k - p] else old(buf[k])
  {
    forall q | 0 <= q < |data| {
      buf[p + q] := data[q];
    }
  }

  // ---- one step of each loop ----

  lemma WriteChunkStep(regs: Registers, offset: int, cnt: nat, bs: seq<byte>)
    requires cnt == |bs| > 0
    ensures var n := ChunkLen(cnt);
            var regs' := PutAll(regs, Burst(SidOf(offset), AddrOf(offset), n), bs[..n]);
            PutAll(regs, Chunked(offset, cnt), bs) == PutAll(regs', Chunked(offset + n, cnt - n), bs[n..])
  {
    var n := ChunkLen(cnt);
    assert bs == bs[..n] + bs[n..];
    PutAllSplit(regs, Burst(SidOf(offset), AddrOf(offset), n), bs[..n], Chunked(offset + n, cnt - n), bs[n..]);
  }

  lemma WriteOneStep(regs: Registers, offset: int, cnt: nat, bs: seq<byte>)
    requires cnt == |bs| > 0
    ensures PutAll(regs, FlatList(offset, cnt), bs)
         == PutAll(regs[Flat(offset) := bs[0]], FlatList(offset + 1, cnt - 1), bs[1..])
  {
    FlatSplit(offset, 1, cnt - 1);
    assert FlatList(offset, cnt)[0] == Flat(offset) && FlatList(offset, cnt)[1..] == FlatList(offset + 1, cnt - 1);
  }

  lemma ReadChunkStep(regs: Registers, offset: int, cnt: nat)
    requires cnt > 0
    ensures var n := ChunkLen(cnt);
            GetAll(regs, Chunked(offset, cnt))
            == GetAll(regs, Burst(SidOf(offset), AddrOf(offset), n)) + GetAll(regs, Chunked(offset + n, cnt - n))
  {
    var n := ChunkLen(cnt);
    GetAllSplit(regs, Burst(SidOf(offset), AddrOf(offset), n), Chunked(offset + n, cnt - n));
  }

  lemma ReadOneStep(regs: Registers, offset: int, cnt: nat)
    requires cnt > 0
    ensures GetAll(regs, FlatList(offset, cnt))
         == [Read(regs, Flat(offset))] + GetAll(regs, FlatList(offset + 1, cnt - 1))
  {
    FlatSplit(offset, 1, cnt - 1);
    GetAllSplit(regs, FlatList(offset, 1), FlatList(offset + 1, cnt - 1));
  }

  lemma VisitedRest(regs: Registers, atf: bool, offset: int, cnt: nat)
    requires cnt > 0
    ensures var n := if atf then 1 else ChunkLen(cnt);
            GetAll(regs, Visited(atf, offset, cnt))[n..] == GetAll(regs, Visited(atf, offset + n, cnt - n))
  {
    if atf {
      ReadOneStep(regs, offset, cnt);
    } else {
      ReadChunkStep(regs, offset, cnt);
    }
  }

  // ---- end to end ----

  /** Register a of slave s. */
  predicate InSpace(s: int, a: int) { 0 <= s < 16 && 0 <= a < 0x1_0000 }

  /** Byte k of a flat transfer is in the register whose slave and address make up offset + k. */
  lemma StoredAt(regs: Registers, offset: int, cnt: nat, bs: seq<byte>, s: int, a: int)
    requires cnt == |bs| <= 0x10_0000 && InSpace(s, a) && offset <= 0x1_0000 * s + a < offset + cnt
    ensures Read(PutAll(regs, FlatList(offset, cnt), bs), Reg(s, a)) == bs[0x1_0000 * s + a - offset]
  {
    var k := 0x1_0000 * s + a - offset;
    FlatParts(s, a);
    ListsAt(offset, 0, 0, cnt, k);
    FlatDistinct(offset, cnt);
    PutAllAt(regs, FlatList(offset, cnt), bs, k);
  }

  /**
   Bytes written on either path and read back on either path come back as they
   were, and no register outside the transfer has changed.  Mixing the paths
   needs an aligned transfer or one within a slave, where they agree.
   */
  method WriteThenRead(c: Controller, src: array<byte>, dst: array<byte>, offset: int, cnt: nat,
                       atfWrite: bool, atfRead: bool) returns (w: int, r: int)
    requires c.Valid() && src != dst && cnt <= src.Length && cnt <= dst.Length && cnt <= 0x10_0000
    requires atfWrite == atfRead || offset % 16 == 0 || AddrOf(offset) + cnt <= 0x1_0000
    modifies c, dst
    ensures w >= 0 && r == 0 ==>
              && dst[..cnt] == src[..cnt]
              && (forall x :: x !in Visited(atfWrite, offset, cnt) ==> Read(c.regs, x) == Read(old(c.regs), x))
              && (offset % 16 == 0 ==> Visited(atfWrite, offset, cnt) == FlatList(offset, cnt))
    ensures w >= 0 && r == 0 && (offset % 16 == 0 || atfWrite) ==>
              forall s: int, a: int :: InSpace(s, a) && offset <= 0x1_0000 * s + a < offset + cnt ==>
                Read(c.regs, Reg(s, a)) == src[0x1_0000 * s + a - offset]
  {
    ghost var before, sent := c.regs, src[..cnt];
    w := c.WriteData(src, offset, cnt, atfWrite);
    if w < 0 {
      return w, -1;
    }
    assert src[..cnt] == sent;
    ghost var visited := Visited(atfWrite, offset, cnt);
    VisitedDistinct(atfWrite, offset, cnt);
    PutThenGet(before, visited, sent);
    PathsAgree(offset, cnt);
    r := c.ReadData(dst, offset, cnt, atfRead);
    if offset % 16 == 0 || atfWrite {
      forall s: int, a: int | InSpace(s, a) && offset <= 0x1_0000 * s + a < offset + cnt
        ensures Read(PutAll(before, visited, sent), Reg(s, a)) == sent[0x1_0000 * s + a - offset]
      {
        StoredAt(before, offset, cnt, sent, s, a);
      }
    }
    forall x | x !in visited
      ensures Read(PutAll(before, visited, sent), x) == Read(before, x)
    {
      PutAllFrame(before, visited, sent, x);
    }
  }

  /**
   With the limit of hisi-spmi.h the kernel path moves at most 8 bytes: a write
   and a read are refused, however reliable the bus, exactly for longer transfers.
   */
  method KernelPathLimit(c: Controller, src: array<byte>, dst: array<byte>, offset: int, cnt: nat)
    returns (w: int, r: int)
    requires c.Valid() && c.Reliable() && c.longLimit == LONG_LIMIT && cnt <= src.Length && cnt <= dst.Length
    requires src != dst
    modifies c, dst
    ensures (w == 0 <==> cnt <= 8) && (r == 0 <==> cnt <= 8)
    ensures cnt > 8 ==> w == r == -EINVAL && c.regs == old(c.regs)
  {
    w := c.WriteData(src, offset, cnt, false);
    r := c.ReadData(dst, offset, cnt, false);
  }
}
