/**
 Words on the way to the SPMI controller: the command register and the data
 FIFO.  C words are integers here; the bit-vector lemmas tie the source's
 shifts, masks and ors to the arithmetic used.
 */
module SpmiWords {
  import opened Basics

  type word = w: int | 0 <= w < 0x1_0000_0000

  /** Taking a number apart undoes putting it together. */
  lemma Digit(hi: int, lo: int, base: int)
    requires base == 16 || base == 128 || base == 256 || base == 0x1_0000
    requires 0 <= lo < base
    ensures (lo + base * hi) % base == lo && (lo + base * hi) / base == hi
  {
    if base == 16 {
      assert (lo + 16 * hi) / 16 == hi;
    } else if base == 128 {
      assert (lo + 128 * hi) / 128 == hi;
    } else if base == 256 {
      assert (lo + 256 * hi) / 256 == hi;
    } else {
      assert (lo + 0x1_0000 * hi) / 0x1_0000 == hi;
    }
  }

  // ---- command register ----

  /** From the low end: register address, slave, length minus one, command type, enable bit. */
  function Fields(op: int, bc: int, sid: int, addr: int): word
    requires 0 <= op < 128 && 1 <= bc <= 16
  {
    addr % 0x1_0000 + 0x1_0000 * (sid % 16 + 16 * (bc - 1 + 16 * (op + 128 * 1)))
  }

  /** The word sent: a count of 0 becomes minus one and sets every bit of length and type. */
  function Command(op: int, bc: int, sid: int, addr: int): word
    requires 0 <= op < 128 && 0 <= bc <= 16
  {
    if bc == 0 then Fields(127, 16, sid, addr) else Fields(op, bc, sid, addr)
  }

  function Address(w: word): int { w % 0x1_0000 }
  function Slave(w: word): int { w / 0x1_0000 % 16 }
  function Length(w: word): int { w / 0x1_0000 / 16 % 16 + 1 }
  function Type(w: word): int { w / 0x1_0000 / 16 / 16 % 128 }
  function Enabled(w: word): bool { w / 0x1_0000 / 16 / 16 / 128 == 1 }

  /** The controller reads back every field that was put in. */
  lemma FieldsReadBack(op: int, bc: int, sid: int, addr: int)
    requires 0 <= op < 128 && 1 <= bc <= 16
    ensures var w := Fields(op, bc, sid, addr);
            Enabled(w) && Type(w) == op && Length(w) == bc && Slave(w) == sid % 16 && Address(w) == addr % 0x1_0000
  {
    var top := op + 128 * 1;
    Digit(sid % 16 + 16 * (bc - 1 + 16 * top), addr % 0x1_0000, 0x1_0000);
    Digit(bc - 1 + 16 * top, sid % 16, 16);
    Digit(top, bc - 1, 16);
    Digit(1, op, 128);
  }

  /** The fields sit where the driver's shifts put them: bits 31, 24, 20, 16 and 0. */
  lemma CommandWeights(op: int, bc: int, sid: int, addr: int)
    requires 0 <= op < 128 && 0 <= bc <= 16
    ensures Command(op, bc, sid, addr)
         == if bc == 0 then 0xfff0_0000 + 0x1_0000 * (sid % 16) + addr % 0x1_0000
            else 0x8000_0000 + 0x100_0000 * op + 0x10_0000 * (bc - 1) + 0x1_0000 * (sid % 16) + addr % 0x1_0000
  {
  }

  /** It sees the driver's type and count, except that a count of 0 reads as type 127 and length 16. */
  lemma CommandFields(op: int, bc: int, sid: int, addr: int)
    requires 0 <= op < 128 && 0 <= bc <= 16
    ensures var w := Command(op, bc, sid, addr);
            && Enabled(w) && Slave(w) == sid % 16 && Address(w) == addr % 0x1_0000
            && Type(w) == (if bc == 0 then 127 else op) && Length(w) == (if bc == 0 then 16 else bc)
  {
    FieldsReadBack(if bc == 0 then 127 else op, if bc == 0 then 16 else bc, sid, addr);
  }

  /** The fields do not overlap, so or-ing them together is adding them. */
  lemma CommandBits(op: bv32, len: bv32, sid: bv32, addr: bv32)
    requires op < 128 && len < 16
    ensures 0x8000_0000 | (op << 24) | (len << 20) | ((sid & 0xf) << 16) | ((addr & 0xffff) << 0)
         == 0x8000_0000 + 0x100_0000 * op + 0x10_0000 * len + 0x1_0000 * (sid & 0xf) + (addr & 0xffff)
  {
  }

  /** Minus one, shifted to the length field, covers the type field whatever the operation. */
  lemma ZeroCountBits(op: bv32, sid: bv32, addr: bv32)
    requires op < 128
    ensures 0x8000_0000 | (op << 24) | (0xffff_ffff << 20) | ((sid & 0xf) << 16) | ((addr & 0xffff) << 0)
         == 0xfff0_0000 + 0x1_0000 * (sid & 0xf) + (addr & 0xffff)
  {
  }

  // ---- data words ----

  /** A 32-bit data word by its bytes, least significant first. */
  datatype Data = Data(b0: byte, b1: byte, b2: byte, b3: byte)
  {
    function Value(): word { b0 + 256 * (b1 + 256 * (b2 + 256 * b3)) }

    function Byte(k: int): byte
      requires 0 <= k < 4
    {
      if k == 0 then b0 else if k == 1 then b1 else if k == 2 then b2 else b3
    }
  }

  /** The bytes are those of the value. */
  lemma BytesOfValue(d: Data)
    ensures var w := d.Value();
            d == Data(w % 256, w / 256 % 256, w / 256 / 256 % 256, w / 256 / 256 / 256)
  {
    Digit(d.b1 + 256 * (d.b2 + 256 * d.b3), d.b0, 256);
    Digit(d.b2 + 256 * d.b3, d.b1, 256);
    Digit(d.b3, d.b2, 256);
  }

  function Nth(bs: seq<byte>, k: nat): byte { if k < |bs| then bs[k] else 0 }

  /** A word zeroed and then filled from memory, on a little-endian host. */
  function Pack(bs: seq<byte>): Data
    requires |bs| <= 4
  {
    Data(Nth(bs, 0), Nth(bs, 1), Nth(bs, 2), Nth(bs, 3))
  }

  /** The first n bytes of a word as memory holds it. */
  function Unpack(d: Data, n: nat): (bs: seq<byte>)
    requires n <= 4
    ensures |bs| == n
  {
    [d.b0, d.b1, d.b2, d.b3][..n]
  }

  /** tranverse_32. */
  function Swap(d: Data): Data { Data(d.b3, d.b2, d.b1, d.b0) }

  /** The source's masks and shifts swap the bytes. */
  lemma SwapBits(x: bv32)
    ensures ((x & 0xff00_0000) >> 24) | ((x & 0x00ff_0000) >> 8) | ((x & 0x0000_ff00) << 8) | ((x & 0x0000_00ff) << 24)
         == (x >> 24) + 0x100 * ((x >> 16) & 0xff) + 0x1_0000 * ((x >> 8) & 0xff) + 0x100_0000 * (x & 0xff)
  {
  }

  /** The word written for up to four bytes, by its value: the first byte is the most significant. */
  lemma SentWord(bs: seq<byte>)
    requires |bs| <= 4
    ensures Pack(bs).Value() == Nth(bs, 0) + 0x100 * Nth(bs, 1) + 0x1_0000 * Nth(bs, 2) + 0x100_0000 * Nth(bs, 3)
    ensures Swap(Pack(bs)).Value()
         == 0x100_0000 * Nth(bs, 0) + 0x1_0000 * Nth(bs, 1) + 0x100 * Nth(bs, 2) + Nth(bs, 3)
  {
  }

  /** Byte q of a FIFO word on the bus: the most significant one goes first. */
  function BusByte(d: Data, q: int): byte
    requires 0 <= q < 4
  {
    d.Byte(3 - q)
  }

  /** A swapped word puts its bytes on the bus in memory order. */
  lemma SentBytes(bs: seq<byte>, q: int)
    requires |bs| <= 4 && 0 <= q < 4
    ensures BusByte(Swap(Pack(bs)), q) == Nth(bs, q)
  {
  }

  /** And a word received from the bus, swapped, unpacks into bus order. */
  lemma ReceivedBytes(d: Data, n: nat, q: int)
    requires 0 <= q < n <= 4
    ensures Unpack(Swap(d), n)[q] == BusByte(d, q)
  {
  }
}
