/**
 The text of the debug log of hisi-spmi-dbgfs.c: the line for up to 16 bytes,
 formatted or raw, and the lines one fill puts into the log buffer.
 */
module LogText {
  import opened Basics

  const ITEMS_PER_LINE := 16

  // ---- one line ----

  function HexDigit(d: int): char
    requires 0 <= d < 16
  {
    if d < 10 then ('0' as int + d) as char else ('A' as int + d - 10) as char
  }

  /** Character k of an item: "XX " in a formatted dump, "0xXX " in a raw one. */
  function ItemChar(raw: bool, b: byte, k: int): char {
    var j := if raw then k - 2 else k;
    if j == -2 then '0'
    else if j == -1 then 'x'
    else if j == 0 then HexDigit(b / 16)
    else if j == 1 then HexDigit(b % 16)
    else ' '
  }

  function Width(raw: bool): nat { if raw then 5 else 3 }

  function ItemText(raw: bool, b: byte): (t: string)
    ensures |t| == Width(raw) && t[|t| - 1] == ' '
  {
    seq(Width(raw), k => ItemChar(raw, b, k))
  }

  /** Lines of a formatted dump start with an address, which is always 0. */
  function Lead(raw: bool): (t: string)
    ensures |t| == if raw then 0 else 6
  {
    if raw then [] else seq(6, k => if k < 5 then '0' else ' ')
  }

  /** The lead and then every item in order. */
  function Items(raw: bool, bs: seq<byte>): (t: string)
    ensures |t| == if raw then 5 * |bs| else 6 + 3 * |bs|
    ensures bs != [] ==> t[|t| - 1] == ' '
  {
    if bs == [] then Lead(raw) else Items(raw, bs[..|bs| - 1]) + ItemText(raw, bs[|bs| - 1])
  }

  /** The number a hexadecimal digit stands for. */
  function DigitValue(c: char): int {
    if c <= '9' then c as int - '0' as int else c as int - 'A' as int + 10
  }

  /** An item is its byte in two hexadecimal digits, the higher one first, after "0x" in a raw dump. */
  lemma ItemReads(raw: bool, b: byte)
    ensures var t, at := ItemText(raw, b), if raw then 2 else 0;
            && |t| == at + 3 && t[..at] == (if raw then "0x" else "") && t[at + 2] == ' '
            && (forall k :: at <= k < at + 2 ==> '0' <= t[k] <= '9' || 'A' <= t[k] <= 'F')
            && 16 * DigitValue(t[at]) + DigitValue(t[at + 1]) == b
  {
  }

  lemma ItemTellsByte(raw: bool, b: byte, b': byte)
    requires ItemText(raw, b) == ItemText(raw, b')
    ensures b == b'
  {
    var at := if raw then 2 else 0;
    assert ItemText(raw, b)[at] == HexDigit(b / 16) && ItemText(raw, b)[at + 1] == HexDigit(b % 16);
    assert ItemText(raw, b')[at] == HexDigit(b' / 16) && ItemText(raw, b')[at + 1] == HexDigit(b' % 16);
  }

  /** A line's text splits before its last item. */
  lemma ItemsSplit(raw: bool, bs: seq<byte>, m: int)
    requires bs != [] && m == |Items(raw, bs)| - Width(raw)
    ensures 0 <= m && Items(raw, bs)[..m] == Items(raw, bs[..|bs| - 1])
    ensures Items(raw, bs)[m..] == ItemText(raw, bs[|bs| - 1])
  {
  }

  lemma SameLastItem(raw: bool, bs: seq<byte>, bs': seq<byte>)
    requires bs != [] && |bs| == |bs'| && Items(raw, bs) == Items(raw, bs')
    ensures bs[|bs| - 1] == bs'[|bs| - 1] && Items(raw, bs[..|bs| - 1]) == Items(raw, bs'[..|bs| - 1])
  {
    var m := |Items(raw, bs)| - Width(raw);
    ItemsSplit(raw, bs, m);
    ItemsSplit(raw, bs', m);
    ItemTellsByte(raw, bs[|bs| - 1], bs'[|bs| - 1]);
  }

  lemma {:induction false} SameItem(raw: bool, bs: seq<byte>, bs': seq<byte>, i: nat)
    requires i < |bs| == |bs'| && Items(raw, bs) == Items(raw, bs')
    ensures bs[i] == bs'[i]
    decreases |bs|
  {
    SameLastItem(raw, bs, bs');
    if i < |bs| - 1 {
      SameItem(raw, bs[..|bs| - 1], bs'[..|bs| - 1], i);
    }
  }

  /** The text of a line tells the bytes it shows. */
  lemma ItemsTellBytes(raw: bool, bs: seq<byte>, bs': seq<byte>)
    requires Items(raw, bs) == Items(raw, bs')
    ensures bs == bs'
  {
    assert |bs| == |bs'|;
    forall i | 0 <= i < |bs|
      ensures bs[i] == bs'[i]
    {
      SameItem(raw, bs, bs', i);
    }
  }

  function Room(raw: bool): nat { if raw then 80 else 55 }

  /** At most n characters. */
  function Cut(t: string, n: nat): string { if |t| <= n then t else t[..n] }

  /** A trailing space becomes a newline. */
  function EndLine(t: string): string {
    if t != "" && t[|t| - 1] == ' ' then t[..|t| - 1] + "\n" else t
  }

  /** The line for bs in a buffer with the given room left. */
  function Line(raw: bool, bs: seq<byte>, room: nat): string
    requires room > 0
  {
    EndLine(Cut(Items(raw, bs), room - 1))
  }

  /** The line when nothing is cut off. */
  function FullLine(raw: bool, bs: seq<byte>): string { EndLine(Items(raw, bs)) }

  lemma LineSize(raw: bool, bs: seq<byte>, room: nat)
    requires room > 0
    ensures |Line(raw, bs, room)| == Min(|Items(raw, bs)|, room - 1) && |FullLine(raw, bs)| == |Items(raw, bs)|
  {
  }

  /**
   A whole line has its lead, its items and a newline.  A line is whole except a
   full raw one with just 80 characters of room.
   */
  lemma LineIsWhole(raw: bool, bs: seq<byte>, room: nat)
    requires 0 < |bs| <= 16 && room >= Room(raw)
    ensures FullLine(raw, bs) == Items(raw, bs)[..|Items(raw, bs)| - 1] + "\n"
    ensures Line(raw, bs, room) == FullLine(raw, bs) <==> !(raw && |bs| == 16 && room == 80)
  {
    LineSize(raw, bs, room);
    assert |Items(raw, bs)| < room ==> Line(raw, bs, room) == FullLine(raw, bs);
  }

  /** A cut takes at most the last separator, so every digit is shown. */
  lemma LineShows(raw: bool, bs: seq<byte>, room: nat, k: nat)
    requires 0 < |bs| <= 16 && room >= Room(raw) && k < |Items(raw, bs)| - 1
    ensures k < |Line(raw, bs, room)| && Line(raw, bs, room)[k] == Items(raw, bs)[k]
  {
    LineIsWhole(raw, bs, room);
  }

  /** The length of a line tells how many bytes it shows. */
  lemma LineLength(raw: bool, bs: seq<byte>, bs': seq<byte>, room: nat)
    requires 0 < |bs| <= 16 && 0 < |bs'| <= 16 && room >= Room(raw)
    requires |Line(raw, bs, room)| == |Line(raw, bs', room)|
    ensures |bs| == |bs'|
  {
    LineSize(raw, bs, room);
    LineSize(raw, bs', room);
  }

  /** Where item i starts in a line. */
  function ItemAt(raw: bool, i: nat): nat { if raw then 5 * i else 6 + 3 * i }

  /** The characters of a line are those of the line without its last item, and then that item's. */
  lemma ItemsChar(raw: bool, bs: seq<byte>, x: nat)
    requires bs != [] && x < |Items(raw, bs)|
    ensures var before := Items(raw, bs[..|bs| - 1]);
            Items(raw, bs)[x] == if x < |before| then before[x] else ItemText(raw, bs[|bs| - 1])[x - |before|]
  {
  }

  lemma {:induction false} ItemsAt(raw: bool, bs: seq<byte>, i: nat, k: nat)
    requires i < |bs| && k < Width(raw)
    ensures ItemAt(raw, i) + k < |Items(raw, bs)|
    ensures Items(raw, bs)[ItemAt(raw, i) + k] == ItemText(raw, bs[i])[k]
    decreases |bs|
  {
    ItemsChar(raw, bs, ItemAt(raw, i) + k);
    if i < |bs| - 1 {
      ItemsAt(raw, bs[..|bs| - 1], i, k);
    }
  }

  lemma {:induction false} LeadFirst(raw: bool, bs: seq<byte>)
    ensures |Items(raw, bs)| >= |Lead(raw)| && Items(raw, bs)[..|Lead(raw)|] == Lead(raw)
    decreases |bs|
  {
    if bs != [] {
      LeadFirst(raw, bs[..|bs| - 1]);
    }
  }

  /**
   Reading a line, cut or not: a formatted one starts with the address 0, and the
   two digits of item i, as a number to base 16, are byte i.
   */
  lemma LineReads(raw: bool, bs: seq<byte>, room: nat, i: nat)
    requires i < |bs| <= 16 && room >= Room(raw)
    ensures var line, at := Line(raw, bs, room), if raw then 5 * i + 2 else 6 + 3 * i;
            && at + 1 < |line| && 16 * DigitValue(line[at]) + DigitValue(line[at + 1]) == bs[i]
            && (!raw ==> line[..6] == "00000 ")
  {
    var skip := if raw then 2 else 0;
    var at := ItemAt(raw, i) + skip;
    ItemReads(raw, bs[i]);
    ItemsAt(raw, bs, i, skip);
    ItemsAt(raw, bs, i, skip + 1);
    ItemsAt(raw, bs, i, skip + 2);
    LineShows(raw, bs, room, at);
    LineShows(raw, bs, room, at + 1);
    if !raw {
      LeadShown(bs, room);
    }
  }

  lemma LeadShown(bs: seq<byte>, room: nat)
    requires 0 < |bs| <= 16 && room >= Room(false)
    ensures |Line(false, bs, room)| >= 6 && Line(false, bs, room)[..6] == "00000 "
  {
    LeadFirst(false, bs);
    assert Lead(false) == "00000 ";
    var line := Line(false, bs, room);
    forall k | 0 <= k < 6
      ensures k < |line| && line[k] == "00000 "[k]
    {
      LineShows(false, bs, room, k);
      assert Items(false, bs)[..6][k] == Items(false, bs)[k];
    }
  }

  /** A line, cut or not, tells its bytes. */
  lemma LineTellsBytes(raw: bool, bs: seq<byte>, bs': seq<byte>, room: nat)
    requires 0 < |bs| <= 16 && 0 < |bs'| <= 16 && room >= Room(raw)
    requires Line(raw, bs, room) == Line(raw, bs', room)
    ensures bs == bs'
  {
    LineLength(raw, bs, bs', room);
    var t, t' := Items(raw, bs), Items(raw, bs');
    forall k | 0 <= k < |t|
      ensures t[k] == t'[k]
    {
      if k < |t| - 1 {
        LineShows(raw, bs, room, k);
        LineShows(raw, bs', room, k);
      }
    }
    ItemsTellBytes(raw, bs, bs');
  }

  lemma ItemsStep(raw: bool, bs: seq<byte>, i: nat)
    requires i < |bs|
    ensures Items(raw, bs[..i + 1]) == Items(raw, bs[..i]) + ItemText(raw, bs[i])
  {
    assert bs[..i + 1][..i] == bs[..i];
  }

  /** Up to the last item a line fits the room asked for. */
  lemma ItemsFit(raw: bool, bs: seq<byte>, i: nat, room: nat)
    requires i < |bs| <= 16 && room >= Room(raw)
    ensures Cut(Items(raw, bs[..i]), room - 1) == Items(raw, bs[..i])
  {
  }

  lemma CutStep(t: string, more: string, n: nat)
    requires |t| <= n
    ensures Cut(t + more, n) == t + Cut(more, n - |t|)
  {
  }

  // ---- a fill ----

  /** The bytes of the lines of a fill, the last line outermost. */
  datatype Lines = NoLines | Then(before: Lines, bs: seq<byte>)

  function Size(lines: Lines): nat {
    if lines.NoLines? then 0 else Size(lines.before) + 1
  }

  /** Bytes shown by a fill. */
  function Count(lines: Lines): nat {
    if lines.NoLines? then 0 else Count(lines.before) + |lines.bs|
  }

  /** The text of a fill, each line as the room left by the earlier ones allows. */
  function FillText(raw: bool, lines: Lines, len: nat): string {
    if lines.NoLines? then ""
    else AppendLine(raw, FillText(raw, lines.before, len), lines.bs, len)
  }

  function AppendLine(raw: bool, text: string, bs: seq<byte>, len: nat): string {
    if |text| < len then text + Line(raw, bs, len - |text|) else text
  }

  /** Its length. */
  function FillSize(raw: bool, lines: Lines, len: nat): nat {
    if lines.NoLines? then 0
    else AppendSize(raw, FillSize(raw, lines.before, len), |lines.bs|, len)
  }

  function AppendSize(raw: bool, size: nat, n: nat, len: nat): nat {
    if size < len then size + Min(if raw then 5 * n else 6 + 3 * n, len - size - 1) else size
  }

  lemma AppendSizeIs(raw: bool, text: string, bs: seq<byte>, len: nat)
    ensures |AppendLine(raw, text, bs, len)| == AppendSize(raw, |text|, |bs|, len)
  {
    if |text| < len {
      LineSize(raw, bs, len - |text|);
    }
  }

  lemma {:induction false} FillSizeIs(raw: bool, lines: Lines, len: nat)
    ensures |FillText(raw, lines, len)| == FillSize(raw, lines, len)
  {
    if lines.Then? {
      FillSizeIs(raw, lines.before, len);
      AppendSizeIs(raw, FillText(raw, lines.before, len), lines.bs, len);
    }
  }

  /** The lines of a fill with nothing cut off. */
  function FullText(raw: bool, lines: Lines): string {
    if lines.NoLines? then "" else FullText(raw, lines.before) + FullLine(raw, lines.bs)
  }

  /** A line of n items in a fill that had count of its items and size characters before it. */
  ghost predicate Fits(raw: bool, count: nat, size: nat, n: nat, items: nat, len: nat) {
    count < items && n == Min(ITEMS_PER_LINE, items - count) && size + Room(raw) <= len
  }

  /**
   The lines one fill of a buffer makes when it starts with the given number of
   items: each takes 16 items or all that are left, and starts with room for it.
   */
  ghost predicate Shaped(raw: bool, lines: Lines, items: nat, len: nat) {
    lines.NoLines? ||
    (&& Shaped(raw, lines.before, items, len)
     && Fits(raw, Count(lines.before), FillSize(raw, lines.before, len), |lines.bs|, items, len))
  }

  /** text is what these lines put into the buffer. */
  ghost predicate IsText(raw: bool, lines: Lines, len: nat, text: string) {
    text == FillText(raw, lines, len) && |text| == FillSize(raw, lines, len)
  }

  lemma TextGrows(raw: bool, lines: Lines, bs: seq<byte>, len: nat, text: string, text': string)
    requires IsText(raw, lines, len, text) && |text| < len && text' == text + Line(raw, bs, len - |text|)
    ensures IsText(raw, Then(lines, bs), len, text')
  {
    assert FillText(raw, Then(lines, bs), len) == AppendLine(raw, text, bs, len);
    AppendSizeIs(raw, text, bs, len);
  }

  lemma CountsLines(raw: bool, lines: Lines, items: nat, len: nat)
    requires Shaped(raw, lines, items, len)
    ensures Count(lines) == 0 <==> lines.NoLines?
    ensures FillSize(raw, lines, len) == 0 <==> lines.NoLines?
  {
  }

  /** Length of a line of 16 items that is not cut. */
  function FullWidth(raw: bool): nat { if raw then 80 else 54 }

  /** Length of k such lines. */
  function FullWidths(raw: bool, k: nat): nat { if raw then 80 * k else 54 * k }

  /** A line with another one behind it is full and not cut. */
  lemma NotLast(raw: bool, count: nat, size: nat, n: nat, items: nat, len: nat)
    requires Fits(raw, count, size, n, items, len) && count + n < items
    requires AppendSize(raw, size, n, len) + Room(raw) <= len
    ensures n == 16 && AppendSize(raw, size, n, len) == size + FullWidth(raw) && (raw ==> size + 80 < len)
  {
  }

  /** In front of the last line there are only full lines. */
  lemma {:induction false} LinesBefore(raw: bool, lines: Lines, items: nat, len: nat)
    requires Shaped(raw, lines, items, len) && lines.Then?
    ensures FillSize(raw, lines.before, len) == FullWidths(raw, Size(lines.before))
    ensures Count(lines.before) == 16 * Size(lines.before) && 0 < |lines.bs| <= 16
  {
    var b := lines.before;
    if b.Then? {
      LinesBefore(raw, b, items, len);
      NotLast(raw, Count(b.before), FillSize(raw, b.before, len), |b.bs|, items, len);
    }
  }

  /** And none of them is cut. */
  lemma {:induction false} WholeBefore(raw: bool, lines: Lines, items: nat, len: nat)
    requires Shaped(raw, lines, items, len) && lines.Then?
    ensures FillText(raw, lines.before, len) == FullText(raw, lines.before)
  {
    var b := lines.before;
    if b.Then? {
      WholeBefore(raw, b, items, len);
      var size := FillSize(raw, b.before, len);
      NotLast(raw, Count(b.before), size, |b.bs|, items, len);
      FillSizeIs(raw, b.before, len);
      LineIsWhole(raw, b.bs, len - size);
    }
  }

  lemma SameTail(a: string, b: string, b': string)
    ensures a + b == a + b' <==> b == b'
  {
    if a + b == a + b' {
      assert b == (a + b)[|a|..] && b' == (a + b')[|a|..];
    }
  }

  /** Line k meets room for just itself, and fills it, exactly when the buffer divides into k+1 lines. */
  lemma LastRoom(len: nat, k: nat, n: nat)
    requires 80 * k + 80 <= len && 0 < n <= 16
    ensures n == 16 && len - 80 * k == 80 <==> len % 80 == 0 && len >= 80 && 16 * k + n >= len / 80 * 16
  {
    var q := len / 80;
    assert len == 80 * q + len % 80 && q >= k + 1;
  }

  /** The buffer is a whole number of raw lines long, and the fill takes all the items that fit. */
  predicate Exhausts(raw: bool, count: nat, len: nat) {
    raw && len % 80 == 0 && len >= 80 && count >= len / 80 * 16
  }

  /**
   A fill shows its lines whole, except exactly when it exhausts a buffer of a
   whole number of raw lines: then the last line loses its newline.
   */
  lemma FillIsWhole(raw: bool, lines: Lines, items: nat, len: nat)
    requires Shaped(raw, lines, items, len)
    ensures FillText(raw, lines, len) == FullText(raw, lines) <==> !Exhausts(raw, Count(lines), len)
  {
    if lines.Then? {
      LinesBefore(raw, lines, items, len);
      WholeBefore(raw, lines, items, len);
      FillSizeIs(raw, lines.before, len);
      var t, k := FillText(raw, lines.before, len), Size(lines.before);
      LineIsWhole(raw, lines.bs, len - |t|);
      SameTail(t, Line(raw, lines.bs, len - |t|), FullLine(raw, lines.bs));
      if raw {
        LastRoom(len, k, |lines.bs|);
      }
    }
  }

  const SZ_4K := 4096

  /** Length of the log buffer: a page less three words of header. */
  function LogLength(wordSize: nat): (len: nat)
    requires wordSize == 4 || wordSize == 8
    ensures len == if wordSize == 4 then 4084 else 4072
    ensures len % 80 != 0
  {
    SZ_4K - 3 * wordSize
  }

  /** With the buffer the driver allocates, every line of every fill is whole. */
  lemma AllocatedFillIsWhole(raw: bool, lines: Lines, items: nat, wordSize: nat)
    requires wordSize == 4 || wordSize == 8
    requires Shaped(raw, lines, items, LogLength(wordSize))
    ensures FillText(raw, lines, LogLength(wordSize)) == FullText(raw, lines)
  {
    FillIsWhole(raw, lines, items, LogLength(wordSize));
  }

  /** A buffer of 80 characters would cut the first full raw line. */
  lemma CutExample(bs: seq<byte>)
    requires |bs| == 16
    ensures Shaped(true, Then(NoLines, bs), 16, 80)
    ensures FillText(true, Then(NoLines, bs), 80) != FullText(true, Then(NoLines, bs))
  {
    assert Shaped(true, NoLines, 16, 80);
    FillIsWhole(true, Then(NoLines, bs), 16, 80);
  }

  // ---- reading a fill back ----

  lemma TailsEqual(a: string, b: string, a': string, b': string)
    requires a + b == a' + b' && |a| == |a'|
    ensures a == a' && b == b'
  {
    assert a == (a + b)[..|a|] && a' == (a' + b')[..|a|];
    assert b == (a + b)[|a|..] && b' == (a' + b')[|a|..];
  }

  /** The length of a fill tells its number of lines. */
  lemma LineCount(raw: bool, lines: Lines, items: nat, len: nat)
    requires Shaped(raw, lines, items, len)
    ensures Size(lines) == (FillSize(raw, lines, len) + FullWidth(raw) - 1) / FullWidth(raw)
  {
    if lines.Then? {
      LinesBefore(raw, lines, items, len);
      var size := FillSize(raw, lines.before, len);
      RoundUp(Size(lines.before), FillSize(raw, lines, len) - size, raw);
    }
  }

  lemma RoundUp(k: nat, n: nat, raw: bool)
    requires 0 < n <= FullWidth(raw)
    ensures (FullWidths(raw, k) + n + FullWidth(raw) - 1) / FullWidth(raw) == k + 1
  {
    if raw {
      assert (80 * k + n + 79) / 80 == k + 1;
    } else {
      assert (54 * k + n + 53) / 54 == k + 1;
    }
  }

  /** Two fills with the same text have the same last line and the same text before it. */
  lemma SameLastLine(raw: bool, lines: Lines, items: nat, lines': Lines, items': nat, len: nat)
    requires Shaped(raw, lines, items, len) && Shaped(raw, lines', items', len)
    requires lines.Then? && lines'.Then? && Size(lines) == Size(lines')
    requires FillText(raw, lines, len) == FillText(raw, lines', len)
    ensures FillText(raw, lines.before, len) == FillText(raw, lines'.before, len) && lines.bs == lines'.bs
  {
    LinesBefore(raw, lines, items, len);
    LinesBefore(raw, lines', items', len);
    FillSizeIs(raw, lines.before, len);
    FillSizeIs(raw, lines'.before, len);
    var t, t' := FillText(raw, lines.before, len), FillText(raw, lines'.before, len);
    TailsEqual(t, Line(raw, lines.bs, len - |t|), t', Line(raw, lines'.bs, len - |t|));
    LineTellsBytes(raw, lines.bs, lines'.bs, len - |t|);
  }

  /** The text of a fill tells every line of it, byte for byte. */
  lemma {:induction false} FillTellsLines(raw: bool, lines: Lines, items: nat, lines': Lines, items': nat, len: nat)
    requires Shaped(raw, lines, items, len) && Shaped(raw, lines', items', len)
    requires FillText(raw, lines, len) == FillText(raw, lines', len)
    ensures lines == lines'
  {
    FillSizeIs(raw, lines, len);
    FillSizeIs(raw, lines', len);
    LineCount(raw, lines, items, len);
    LineCount(raw, lines', items', len);
    if lines.Then? {
      SameLastLine(raw, lines, items, lines', items', len);
      FillTellsLines(raw, lines.before, items, lines'.before, items', len);
    }
  }
}
