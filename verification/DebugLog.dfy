/**
 The debug log of hisi-spmi-dbgfs.c: lines formatted into a fixed buffer, fills
 that consume the transaction's count, and reads that hand the buffer out
 piece by piece.  What the bus returns and how much copy_to_user leaves behind
 come from outside.
 */
module DebugLog {
  import opened Basics
  import opened LogText

  const U32 := 0x1_0000_0000
  const EFAULT := 14

  /** Addition of u32 values. */
  function AddU32(a: nat, b: nat): (r: nat)
    ensures r < U32
  {
    (a + b) % U32
  }

  /** What leaves the count and enters the offset keeps their sum, even across a wrap. */
  lemma Conserved(cnt: nat, offset: nat, moved: nat)
    requires moved <= cnt
    ensures AddU32(cnt - moved, AddU32(offset, moved)) == AddU32(cnt, offset)
  {
  }

  /** The lines of one fill, the items it started with, and the number of its first bus read. */
  datatype Fill = Fill(lines: Lines, items: nat, tick: nat)

  // ---- an open debug file ----

  /** struct spmi_trans with its log buffer. */
  class Trans {
    const raw: bool
    const len: nat
    const data: array<char>
    /** What the bus answers to each read. */
    const bus: (nat, nat) -> Option<seq<byte>>

    var tick: nat
    var cnt: nat
    var offset: nat
    var rpos: nat
    var wpos: nat

    /** Everything ever logged, and everything ever handed to the user. */
    ghost var logged: string
    ghost var delivered: string

    ghost predicate Valid()
      reads this, data
    {
      && data.Length == len && rpos <= wpos <= len
      && cnt < U32 && offset < U32
      && logged == delivered + data[rpos..wpos]
    }

    constructor (raw: bool, wordSize: nat, cnt: nat, addr: nat, bus: (nat, nat) -> Option<seq<byte>>)
      requires cnt < U32 && addr < U32 && (wordSize == 4 || wordSize == 8)
      ensures Valid() && this.cnt == cnt && this.offset == addr && logged == "" && delivered == ""
      ensures this.raw == raw && len == LogLength(wordSize) && fresh(data)
    {
      this.raw, this.len, this.bus := raw, LogLength(wordSize), bus;
      this.data := new char[LogLength(wordSize)](_ => '\0');
      this.cnt, this.offset, this.tick := cnt, addr, 0;
      rpos, wpos, logged, delivered := 0, 0, "", "";
    }

    /** print_to_log: as much as fits in front of the terminator vscnprintf writes. */
    method PrintToLog(t: string) returns (count: nat)
      requires data.Length == len && wpos <= len
      modifies `wpos, data
      ensures wpos <= len && wpos == old(wpos) + count
      ensures count == if old(wpos) == len then 0 else |Cut(t, len - old(wpos) - 1)|
      ensures data[..wpos] == old(data[..wpos]) + t[..count]
    {
      var size := len - wpos;
      if size == 0 {
        return 0;
      }
      var kept := Cut(t, size - 1);
      forall k | 0 <= k < |kept| {
        data[wpos + k] := kept[k];
      }
      data[wpos + |kept|] := '\0';
      count := |kept|;
      wpos := wpos + count;
    }

    /** Read number k, of n bytes, fails. */
    ghost predicate BusFails(k: nat, n: nat) {
      bus(k, n).None? || |bus(k, n).value| != n
    }

    /** Why a fill ended with items left: too little room, or a failed read. */
    ghost predicate Stuck(left: nat)
      reads `wpos, `tick
    {
      len - wpos < Room(raw) || (tick > 0 && BusFails(tick - 1, Min(ITEMS_PER_LINE, left)))
    }

    /** Why an empty log stays empty with items left: not even one line fits it, or the last read failed. */
    ghost predicate Starved()
      reads `tick, `cnt
    {
      len < Room(raw) || (tick > 0 && BusFails(tick - 1, Min(ITEMS_PER_LINE, cnt)))
    }

    /** spmi_read_data for n bytes. */
    method ReadBus(n: nat) returns (r: Option<seq<byte>>)
      modifies `tick
      ensures tick == old(tick) + 1
      ensures if BusFails(old(tick), n) then r == None else r == bus(old(tick), n) && |r.value| == n
    {
      r := bus(tick, n);
      tick := tick + 1;
      if r.Some? && |r.value| != n {
        r := None;
      }
    }

    /** One item behind the text `before` of a line that had the given room; it is never empty. */
    method PrintItem(t: string, ghost base: string, ghost before: string, ghost room: nat)
      requires data.Length == len && wpos <= len && room == len - |base|
      requires data[..wpos] == base + before && 2 <= |t| && |before| + |t| <= room
      modifies `wpos, data
      ensures old(wpos) < wpos <= len
      ensures data[..wpos] == base + Cut(before + t, room - 1)
    {
      var count := PrintToLog(t);
      assert count > 0;
      CutStep(before, t, room - 1);
      assert base + (before + t[..count]) == base + before + t[..count];
    }

    /** Item number i of a line. */
    method PrintNext(bs: seq<byte>, i: nat, ghost base: string, ghost room: nat)
      requires data.Length == len && wpos <= len && i < |bs| <= 16 && room == len - |base| && room >= Room(raw)
      requires data[..wpos] == base + Items(raw, bs[..i])
      modifies `wpos, data
      ensures |base| < wpos <= len
      ensures data[..wpos] == base + Cut(Items(raw, bs[..i + 1]), room - 1)
    {
      ItemsStep(raw, bs, i);
      PrintItem(ItemText(raw, bs[i]), base, Items(raw, bs[..i]), room);
    }

    /** The items of a line, after its lead; room is what the buffer had left before the lead. */
    method PrintItems(bs: seq<byte>, ghost room: nat, ghost base: string)
      requires data.Length == len && wpos <= len && 0 < |bs| <= 16 && room == len - |base| && room >= Room(raw)
      requires data[..wpos] == base + Lead(raw)
      modifies `wpos, data
      ensures |base| < wpos <= len
      ensures data[..wpos] == base + Cut(Items(raw, bs), room - 1)
    {
      assert bs[..0] == [];
      PrintNext(bs, 0, base, room);
      for i := 1 to |bs|
        invariant |base| < wpos <= len
        invariant data[..wpos] == base + Cut(Items(raw, bs[..i]), room - 1)
      {
        ItemsFit(raw, bs, i, room);
        PrintNext(bs, i, base, room);
      }
      assert bs[..|bs|] == bs;
    }

    /** The address in front of a formatted line. */
    method PrintLead(ghost base: string)
      requires data.Length == len && wpos <= len && data[..wpos] == base && len - wpos >= Room(raw)
      modifies `wpos, data
      ensures wpos <= len && data[..wpos] == base + Lead(raw)
    {
      if !raw {
        var printed := PrintToLog(Lead(false));
        assert printed == 6;
      }
    }

    /** If the last character was a space, it is replaced by a newline. */
    method EndTheLine(ghost base: string, ghost text: string)
      requires data.Length == len && wpos <= len && data[..wpos] == base + text && text != ""
      modifies data
      ensures data[..wpos] == base + EndLine(text)
    {
      assert data[wpos - 1] == text[|text| - 1];
      if wpos > 0 && data[wpos - 1] == ' ' {
        data[wpos - 1] := '\n';
      }
      assert data[..wpos] == base + EndLine(text);
    }

    /** The printing half of both line writers. */
    method PrintLine(bs: seq<byte>, ghost base: string)
      requires data.Length == len && wpos <= len && data[..wpos] == base && len - wpos >= Room(raw) && 0 < |bs| <= 16
      modifies `wpos, data
      ensures |base| < wpos <= len && data[..wpos] == base + Line(raw, bs, len - |base|)
    {
      PrintLead(base);
      PrintItems(bs, len - |base|, base);
      EndTheLine(base, Cut(Items(raw, bs), len - |base| - 1));
    }

    /**
     write_next_line_to_log and write_raw_data_to_log.  With too little room left
     or a failed read nothing happens; otherwise a line is appended and its items
     are taken off the count.
     */
    method WriteToLog(itemCount: nat, ghost base: string) returns (printed: bool, left: nat, ghost bs: seq<byte>)
      requires data.Length == len && wpos <= len && itemCount > 0 && data[..wpos] == base
      modifies `tick, `wpos, data
      ensures tick >= old(tick)
      ensures old(wpos) <= wpos <= len && left + |bs| == itemCount
      ensures printed ==> |bs| == Min(ITEMS_PER_LINE, itemCount) && old(wpos) < wpos
                          && data[..wpos] == base + Line(raw, bs, len - |base|)
      ensures printed ==> len - old(wpos) >= Room(raw) && bus(old(tick), |bs|) == Some(bs) && tick == old(tick) + 1
      ensures !printed ==> bs == [] && wpos == old(wpos) && data[..wpos] == base && Stuck(itemCount)
      ensures printed <==> len - old(wpos) >= (if raw then 80 else 55) && !BusFails(old(tick), Min(16, itemCount))
    {
      printed, left, bs := false, itemCount, [];
      var itemsToRead := Min(ITEMS_PER_LINE, itemCount);
      if len - wpos < Room(raw) {
        return;
      }
      var bytes := ReadBus(itemsToRead);
      if bytes.None? {
        return;
      }
      printed, left, bs := true, itemCount - itemsToRead, bytes.value;
      PrintLine(bytes.value, base);
    }

    /** Each line of a fill shows the answer to its read of the bus, from read number t on. */
    ghost predicate FromBus(lines: Lines, t: nat) {
      lines.NoLines? ||
      (FromBus(lines.before, t) && bus(t + Size(lines.before), |lines.bs|) == Some(lines.bs))
    }

    /** What one fill of this log can be. */
    ghost predicate IsFill(f: Fill) {
      Shaped(raw, f.lines, f.items, len) && Count(f.lines) <= f.items && FromBus(f.lines, f.tick)
    }

    ghost function TextOf(f: Fill): string { FillText(raw, f.lines, len) }

    /** The buffer holds this text. */
    ghost predicate Has(text: string)
      reads `wpos, data
    {
      data.Length == len && wpos == |text| <= len && data[..wpos] == text
    }

    /** One turn of the loop of get_log_data; text is what the lines before it left in the buffer. */
    method FillNext(items: nat, ghost lines: Lines, ghost text: string)
      returns (printed: bool, left: nat, ghost bs: seq<byte>, ghost text': string)
      requires Has(text) && IsText(raw, lines, len, text) && items > 0
      modifies `tick, `wpos, data
      ensures Has(text') && (printed ==> IsText(raw, Then(lines, bs), len, text')) && (!printed ==> text' == text)
      ensures printed ==> |text| + Room(raw) <= len && |bs| == Min(ITEMS_PER_LINE, items) && left == items - |bs|
      ensures printed ==> tick == old(tick) + 1 && bus(old(tick), |bs|) == Some(bs)
      ensures !printed ==> left == items && Stuck(left) && tick >= old(tick)
    {
      printed, left, bs := WriteToLog(items, text);
      text' := text;
      if printed {
        text' := text + Line(raw, bs, len - |text|);
        TextGrows(raw, lines, bs, len, text, text');
      }
    }

    /** What a fill has to do with the loop's variables. */
    ghost predicate Filling(f: Fill, items: nat, tick0: nat, left: nat) {
      IsFill(f) && f.items == items && f.tick == tick0 && left + Count(f.lines) == items
    }

    lemma FillingGrows(f: Fill, bs: seq<byte>, items: nat, tick0: nat, left: nat)
      requires Filling(f, items, tick0, left) && left > 0 && |bs| == Min(ITEMS_PER_LINE, left)
      requires FillSize(raw, f.lines, len) + Room(raw) <= len && bus(tick0 + Size(f.lines), |bs|) == Some(bs)
      ensures Filling(Fill(Then(f.lines, bs), items, tick0), items, tick0, left - |bs|)
    {
    }

    /** The same turn, as a step of fill f. */
    method FillTurn(left: nat, ghost f: Fill, ghost text: string, ghost items: nat, ghost tick0: nat)
      returns (printed: bool, now: nat, ghost f': Fill, ghost text': string)
      requires Has(text) && IsText(raw, f.lines, len, text)
      requires Filling(f, items, tick0, left) && f.tick + Size(f.lines) == tick && left > 0
      modifies `tick, `wpos, data
      ensures Has(text') && IsText(raw, f'.lines, len, text') && Filling(f', items, tick0, now)
      ensures if printed then now < left && f'.tick + Size(f'.lines) == tick
              else now == left && f'.tick + Size(f'.lines) <= tick && Stuck(now)
    {
      ghost var bs;
      printed, now, bs, text' := FillNext(left, f.lines, text);
      f' := f;
      if printed {
        FillingGrows(f, bs, items, tick0, left);
        f' := Fill(Then(f.lines, bs), items, tick0);
      }
    }

    /** The loop of get_log_data: lines until the count is used up, the buffer is full or a read fails. */
    method FillBuffer(items: nat) returns (left: nat, ghost f: Fill, ghost text: string)
      requires data.Length == len && wpos == 0 && items > 0
      modifies `tick, `wpos, data
      ensures Has(text) && IsText(raw, f.lines, len, text)
      ensures Filling(f, items, old(tick), left) && f.tick + Size(f.lines) <= tick
      ensures left == 0 || Stuck(left)
    {
      left, f, text := items, Fill(NoLines, items, tick), "";
      var go := true;
      while go
        invariant Has(text) && IsText(raw, f.lines, len, text)
        invariant Filling(f, items, old(tick), left) && f.tick + Size(f.lines) <= tick
        invariant if go then left > 0 && f.tick + Size(f.lines) == tick else left == 0 || Stuck(left)
        decreases left, go
      {
        var printed;
        printed, left, f, text := FillTurn(left, f, text, items, old(tick));
        go := printed && left > 0;
      }
    }

    /** The end of get_log_data: count and offset are adjusted, and the buffer's text has been logged. */
    method Account(total: nat, ghost text: string)
      requires data.Length == len && rpos == 0 && wpos <= len && cnt < U32 && offset < U32
      requires total <= cnt && logged == delivered && data[..wpos] == text
      modifies `cnt, `offset, `logged
      ensures Valid() && logged == old(logged) + text
      ensures cnt == old(cnt) - total && offset == AddU32(old(offset), total)
      ensures AddU32(cnt, offset) == AddU32(old(cnt), old(offset))
    {
      Conserved(cnt, offset, total);
      cnt, offset := cnt - total, AddU32(offset, total);
      logged := logged + text;
      assert data[rpos..wpos] == text;
    }

    /**
     get_log_data on an empty buffer: the buffer is refilled, what the fill
     consumed moves from the count to the offset, and nothing is delivered.
     */
    method GetLogData() returns (total: nat, ghost f: Fill)
      requires Valid() && rpos == wpos
      modifies this, data
      ensures Valid() && delivered == old(delivered)
      ensures IsFill(f) && f.items == old(cnt) && f.tick == old(tick) && f.tick + Size(f.lines) <= tick
      ensures total == Count(f.lines) && cnt == old(cnt) - total && offset == AddU32(old(offset), total)
      ensures AddU32(cnt, offset) == AddU32(old(cnt), old(offset))
      ensures logged == old(logged) + TextOf(f)
      ensures wpos - rpos == |TextOf(f)| && (total > 0 <==> rpos < wpos)
      ensures old(cnt) > 0 ==> rpos == 0 && (cnt == 0 || Stuck(cnt))
    {
      total, f := 0, Fill(NoLines, cnt, tick);
      assert data[rpos..wpos] == "" && logged == delivered;
      if cnt == 0 {
        return;
      }
      rpos, wpos := 0, 0;
      var left;
      ghost var text;
      left, f, text := FillBuffer(cnt);
      total := cnt - left;
      CountsLines(raw, f.lines, f.items, len);
      Account(total, text);
    }

    /** The start of a read: an empty buffer is refilled; false when there is nothing to hand out. */
    method Refill() returns (more: bool, ghost f: Fill)
      requires Valid()
      modifies this, data
      ensures Valid() && AddU32(cnt, offset) == AddU32(old(cnt), old(offset))
      ensures IsFill(f) && f.items == old(cnt) && f.tick == old(tick) && f.tick + Size(f.lines) <= tick
      ensures delivered == old(delivered) && logged == old(logged) + TextOf(f)
      ensures cnt + Count(f.lines) == old(cnt)
      ensures wpos - rpos == old(wpos - rpos) + |TextOf(f)| && (more <==> rpos < wpos)
      ensures old(rpos < wpos) ==> f.lines == NoLines
      ensures !more ==> cnt == 0 || Starved()
      ensures more && old(rpos == wpos) ==> cnt < old(cnt)
    {
      more, f := true, Fill(NoLines, cnt, tick);
      if rpos >= wpos {
        var total;
        total, f := GetLogData();
        more := total > 0;
      }
    }

    /** The rest of a read: copy_to_user of the next piece. */
    method HandOut(size: nat, uncopied: nat) returns (ret: int, piece: string)
      requires Valid()
      modifies `rpos, `delivered
      ensures Valid() && delivered == old(delivered) + piece
      ensures var n := Min(size, old(wpos - rpos));
              if uncopied >= n then ret == -EFAULT && piece == "" else ret == |piece| == n - uncopied
      ensures rpos == old(rpos) + |piece|
    {
      var n := Min(size, wpos - rpos);
      var left := Min(uncopied, n);
      if left == n {
        return -EFAULT, "";
      }
      n := n - left;
      piece := data[rpos..rpos + n];
      assert data[rpos..wpos] == piece + data[rpos + n..wpos];
      delivered := delivered + piece;
      rpos := rpos + n;
      ret := n;
    }

    /**
     spmi_dfs_reg_read for a user buffer of size bytes of which copy_to_user
     leaves `uncopied` undone.  The piece returned is the next one of the log.
     */
    method RegRead(size: nat, uncopied: nat) returns (ret: int, piece: string, ghost f: Fill)
      requires Valid()
      modifies this, data
      ensures Valid() && AddU32(cnt, offset) == AddU32(old(cnt), old(offset))
      ensures IsFill(f) && f.items == old(cnt) && f.tick == old(tick) && f.tick + Size(f.lines) <= tick
      ensures delivered == old(delivered) + piece && logged == old(logged) + TextOf(f)
      ensures cnt + Count(f.lines) == old(cnt)
      ensures old(rpos < wpos) ==> f.lines == NoLines
      ensures var available := old(wpos - rpos) + |TextOf(f)|;
              var n := Min(size, available);
              if available == 0 then ret == 0 && piece == ""
              else if uncopied >= n then ret == -EFAULT && piece == ""
              else ret == |piece| == n - uncopied
      ensures ret == 0 ==> delivered == logged && (cnt == 0 || Starved())
      ensures ret > 0 ==> cnt < old(cnt) || (cnt == old(cnt) && wpos - rpos < old(wpos - rpos))
    {
      var more;
      more, f := Refill();
      if !more {
        return 0, "", f;
      }
      ret, piece := HandOut(size, uncopied);
    }

    // ---- runs of reads ----

    /** Fills one after the other: each starts with the items the earlier ones left, on later bus reads. */
    ghost predicate Chain(fills: seq<Fill>, cnt0: nat, tick0: nat, cnt1: nat, tick1: nat)
      decreases |fills|
    {
      if fills == [] then cnt1 == cnt0 && tick1 == tick0
      else
        var f := fills[|fills| - 1];
        && IsFill(f) && Chain(fills[..|fills| - 1], cnt0, tick0, f.items, f.tick)
        && cnt1 + Count(f.lines) == f.items && f.tick + Size(f.lines) <= tick1
    }

    ghost function Texts(fills: seq<Fill>): (ts: seq<string>)
      ensures |ts| == |fills|
    {
      seq(|fills|, i requires 0 <= i < |fills| => TextOf(fills[i]))
    }

    lemma ChainGrows(fills: seq<Fill>, f: Fill, cnt0: nat, tick0: nat, cnt1: nat, tick1: nat)
      requires Chain(fills, cnt0, tick0, f.items, f.tick) && IsFill(f)
      requires cnt1 + Count(f.lines) == f.items && f.tick + Size(f.lines) <= tick1
      ensures Chain(fills + [f], cnt0, tick0, cnt1, tick1) && Texts(fills + [f]) == Texts(fills) + [TextOf(f)]
    {
      assert (fills + [f])[..|fills|] == fills;
    }

    lemma {:induction false} ChainAt(fills: seq<Fill>, cnt0: nat, tick0: nat, cnt1: nat, tick1: nat, i: nat)
      requires Chain(fills, cnt0, tick0, cnt1, tick1) && i < |fills|
      ensures IsFill(fills[i])
      decreases |fills|
    {
      var n := |fills| - 1;
      if i < n {
        ChainAt(fills[..n], cnt0, tick0, fills[n].items, fills[n].tick, i);
      }
    }

    /** In a log of the allocated length every fill of a run shows its lines whole. */
    lemma ChainIsWhole(fills: seq<Fill>, cnt0: nat, tick0: nat, cnt1: nat, tick1: nat, wordSize: nat, i: nat)
      requires Chain(fills, cnt0, tick0, cnt1, tick1) && i < |fills|
      requires (wordSize == 4 || wordSize == 8) && len == LogLength(wordSize)
      ensures TextOf(fills[i]) == FullText(raw, fills[i].lines)
    {
      ChainAt(fills, cnt0, tick0, cnt1, tick1, i);
      AllocatedFillIsWhole(raw, fills[i].lines, fills[i].items, wordSize);
    }

    /** Where a run has come to that began with d0 delivered, l0 logged and c0 items before bus read t0. */
    ghost predicate Reached(pieces: seq<string>, fills: seq<Fill>, d0: string, l0: string, c0: nat, t0: nat, sum: nat)
      reads this, data
    {
      && Valid() && AddU32(cnt, offset) == sum
      && delivered == d0 + Join(pieces) && logged == l0 + Join(Texts(fills)) && Chain(fills, c0, t0, cnt, tick)
    }

    /** One read of a run. */
    method ReadNext(size: nat, uncopied: nat, ghost pieces: seq<string>, ghost fills: seq<Fill>,
                    ghost d0: string, ghost l0: string, ghost c0: nat, ghost t0: nat, ghost sum: nat)
      returns (ret: int, piece: string, ghost f: Fill)
      requires Reached(pieces, fills, d0, l0, c0, t0, sum)
      modifies this, data
      ensures Reached(pieces + [piece], fills + [f], d0, l0, c0, t0, sum)
      ensures size > 0 && uncopied == 0 ==> ret >= 0
      ensures ret == 0 ==> delivered == logged && (cnt == 0 || Starved())
      ensures ret > 0 ==> cnt < old(cnt) || (cnt == old(cnt) && wpos - rpos < old(wpos - rpos))
    {
      ret, piece, f := RegRead(size, uncopied);
      JoinOnto(d0, pieces, piece);
      JoinOnto(l0, Texts(fills), TextOf(f));
      ChainGrows(fills, f, c0, t0, cnt, tick);
    }

    /**
     Any run of reads of any sizes: the pieces handed out, put together, are a
     prefix of the fills put together, with nothing lost or repeated; each fill
     shows the bytes the bus answered with, in lines of 16 as far as the count
     goes; and count plus offset is conserved.
     */
    method ReadRun(requests: seq<(nat, nat)>) returns (pieces: seq<string>, ghost fills: seq<Fill>)
      requires Valid()
      modifies this, data
      ensures Valid() && |pieces| == |fills| == |requests|
      ensures delivered == old(delivered) + Join(pieces) && logged == old(logged) + Join(Texts(fills))
      ensures delivered <= logged && AddU32(cnt, offset) == AddU32(old(cnt), old(offset))
      ensures Chain(fills, old(cnt), old(tick), cnt, tick)
    {
      pieces, fills := [], [];
      ghost var sum := AddU32(cnt, offset);
      for i := 0 to |requests|
        invariant |pieces| == |fills| == i
        invariant Reached(pieces, fills, old(delivered), old(logged), old(cnt), old(tick), sum)
      {
        var ret, piece;
        ghost var f;
        ret, piece, f := ReadNext(requests[i].0, requests[i].1, pieces, fills,
                                  old(delivered), old(logged), old(cnt), old(tick), sum);
        pieces, fills := pieces + [piece], fills + [f];
      }
    }

    /**
     Reading to the end with any buffer: the reads stop, with everything logged
     delivered, and the count is used up unless the bus failed or the log holds
     no line.
     */
    method ReadAll(size: nat) returns (pieces: seq<string>, ghost fills: seq<Fill>)
      requires Valid() && size > 0
      modifies this, data
      ensures Valid() && delivered == logged && (cnt == 0 || Starved())
      ensures delivered == old(delivered) + Join(pieces) && logged == old(logged) + Join(Texts(fills))
      ensures Chain(fills, old(cnt), old(tick), cnt, tick) && AddU32(cnt, offset) == AddU32(old(cnt), old(offset))
    {
      pieces, fills := [], [];
      ghost var sum := AddU32(cnt, offset);
      var ret: int := 1;
      while ret > 0
        invariant Reached(pieces, fills, old(delivered), old(logged), old(cnt), old(tick), sum) && ret >= 0
        invariant ret == 0 ==> delivered == logged && (cnt == 0 || Starved())
        decreases if ret > 0 then 1 else 0, cnt, wpos - rpos
      {
        var piece;
        ghost var f;
        ret, piece, f := ReadNext(size, 0, pieces, fills, old(delivered), old(logged), old(cnt), old(tick), sum);
        pieces, fills := pieces + [piece], fills + [f];
      }
    }
  }

  function Join(ps: seq<string>): string {
    if ps == [] then "" else Join(ps[..|ps| - 1]) + ps[|ps| - 1]
  }

  lemma JoinOnto(start: string, ps: seq<string>, p: string)
    ensures start + Join(ps) + p == start + Join(ps + [p])
  {
    assert (ps + [p])[..|ps|] == ps;
    assert start + Join(ps) + p == start + (Join(ps) + p);
  }
}
