/**
 SecVsnprintfImpl and the three wrappers vsprintf_s, vsnprintf_s and
 vsnprintf_truncated_s.  What libc's vsnprintf makes of a format and its
 arguments is a parameter: some NUL-free text, or an error that may leave
 anything in the buffer.
 */
module PrintWrappers {
  import opened Basics
  import opened Memory
  import opened MemOps
  import opened FormatScan

  const INT_MAX := 0x7fffffff
  const PRINTF_TRUNCATE := -2

  datatype Formatted = Produced(text: seq<Cell>) | Failed(junk: seq<Cell>)

  ghost predicate Sound(fo: Formatted) {
    fo.Produced? ==> 0 !in fo.text && |fo.text| <= INT_MAX
  }

  /** What a call leaves in the destination, and its return value. */
  datatype Printed = Printed(ret: int, text: seq<Cell>)

  /** libc vsnprintf. */
  method Vsnprintf(mem: array<Cell>, d: nat, count: nat, fo: Formatted) returns (ret: int)
    requires 0 < count && d + count <= mem.Length
    modifies mem
    ensures fo.Produced? ==>
              ret == |fo.text| && mem[..] == Put(old(mem[..]), d, fo.text[..Min(|fo.text|, count - 1)] + [0])
    ensures fo.Failed? ==> ret < 0 && mem[..] == Put(old(mem[..]), d, fo.junk[..Min(|fo.junk|, count)])
  {
    match fo
    case Produced(t) =>
      Store(mem, d, t[..Min(|t|, count - 1)] + [0]);
      ret := |t|;
    case Failed(j) =>
      Store(mem, d, j[..Min(|j|, count)]);
      ret := -1;
  }

  method Store(mem: array<Cell>, d: nat, data: seq<Cell>)
    requires d + |data| <= mem.Length
    modifies mem
    ensures mem[..] == Put(old(mem[..]), d, data)
  {
    forall k | 0 <= k < |data| {
      mem[d + k] := data[k];
    }
  }

  /** The memory m' differs from m only in the n cells at d, and holds text there. */
  ghost predicate Shows(m: seq<Cell>, m': seq<Cell>, d: nat, n: nat, text: seq<Cell>) {
    && |m'| == |m| && |text| < n && Holds(m', d, text)
    && forall k :: 0 <= k < |m| && !Within(k, d, n) ==> m'[k] == m[k]
  }

  lemma ShowsEmpty(m: seq<Cell>, m1: seq<Cell>, d: nat, n: nat)
    requires 0 < n && d + n <= |m| == |m1|
    requires forall k :: 0 <= k < |m| && !Within(k, d, n) ==> m1[k] == m[k]
    ensures Shows(m, m1[d := 0], d, n, [])
  {
    HoldsIntro(m1[d := 0], d, []);
  }

  lemma ShowsText(m: seq<Cell>, d: nat, n: nat, text: seq<Cell>)
    requires |text| < n && d + n <= |m| && 0 !in text
    ensures Shows(m, Put(m, d, text + [0]), d, n, text)
  {
    var r := Put(m, d, text + [0]);
    assert r[d..d + |text|] == text;
    HoldsIntro(r, d, text);
  }

  /** What SecVsnprintfImpl answers for a buffer of count cells. */
  ghost function ImplSpec(f: seq<char>, fo: Formatted, count: nat): Printed
    requires count > 0
  {
    if HasN(f) || fo.Failed? then Printed(-1, [])
    else if |fo.text| >= count then Printed(PRINTF_TRUNCATE, fo.text[..count - 1])
    else Printed(|fo.text|, fo.text)
  }

  method VsnprintfImpl(mem: array<Cell>, d: nat, count: nat, fmt: array<char>, ghost f: seq<char>, fo: Formatted)
    returns (ret: int)
    requires IsString(fmt, f) && Sound(fo) && 0 < count <= STRING_MAX_LEN && d + count <= mem.Length
    modifies mem
    ensures ret == ImplSpec(f, fo, count).ret
    ensures Shows(old(mem[..]), mem[..], d, count, ImplSpec(f, fo, count).text)
  {
    ghost var m := mem[..];
    var containsN := ContainsN(fmt, f);
    if containsN {
      ShowsEmpty(m, mem[..], d, count);
      mem[d] := 0;
      return -1;
    }
    ret := Vsnprintf(mem, d, count, fo);
    ghost var m1 := mem[..];
    if ret >= count {
      ghost var kept := fo.text[..count - 1];
      ShowsText(m, d, count, kept);
      mem[d + count - 1] := 0;
      assert mem[..] == m1;
      return PRINTF_TRUNCATE;
    }
    if ret < 0 {
      ShowsEmpty(m, m1, d, count);
      mem[d] := 0;
      return -1;
    }
    assert fo.text[..Min(|fo.text|, count - 1)] == fo.text;
    ShowsText(m, d, count, fo.text);
  }

  /** Arguments every wrapper accepts. */
  predicate Usable(hasFormat: bool, dest: Ptr, destMax: nat) {
    hasFormat && dest.At? && 0 < destMax <= STRING_MAX_LEN
  }

  ghost predicate BufferOk(size: nat, dest: Ptr, destMax: nat) {
    dest.At? && 0 < destMax <= STRING_MAX_LEN ==> dest.addr + destMax <= size
  }

  /** A destination that could be cleared is empty, and nothing else changed. */
  ghost predicate Cleared(m: seq<Cell>, m': seq<Cell>, dest: Ptr, destMax: nat)
    requires BufferOk(|m|, dest, destMax)
  {
    m' == if dest.At? && 0 < destMax <= STRING_MAX_LEN then m[dest.addr := 0] else m
  }

  /** SECUREC_VSPRINTF_CLEAR_DEST. */
  method ClearDest(mem: array<Cell>, dest: Ptr, destMax: nat)
    requires BufferOk(mem.Length, dest, destMax)
    modifies mem
    ensures Cleared(old(mem[..]), mem[..], dest, destMax)
  {
    if dest != Null && destMax > 0 && destMax <= STRING_MAX_LEN {
      mem[dest.addr] := 0;
    }
  }

  /** strDest[0] = '\0' behind a failed format. */
  method Empty(mem: array<Cell>, d: nat, n: nat, ghost m: seq<Cell>, ghost text: seq<Cell>)
    requires d + n <= mem.Length && Shows(m, mem[..], d, n, text)
    modifies mem
    ensures Shows(m, mem[..], d, n, [])
  {
    ShowsEmpty(m, mem[..], d, n);
    mem[d] := 0;
  }

  // ---- the wrappers ----

  ghost function SprintfSpec(f: seq<char>, fo: Formatted, destMax: nat): Printed {
    if HasN(f) || fo.Failed? || |fo.text| >= destMax then Printed(-1, []) else Printed(|fo.text|, fo.text)
  }

  ghost function SnprintfSpec(f: seq<char>, fo: Formatted, destMax: nat, count: nat): Printed {
    if HasN(f) || fo.Failed? then Printed(-1, [])
    else if |fo.text| > count && count < destMax then Printed(-1, fo.text[..count])
    else if |fo.text| >= destMax then Printed(-1, [])
    else Printed(|fo.text|, fo.text)
  }

  ghost function TruncatedSpec(f: seq<char>, fo: Formatted, destMax: nat): Printed
    requires destMax > 0
  {
    if HasN(f) || fo.Failed? then Printed(-1, [])
    else if |fo.text| >= destMax then Printed(destMax - 1, fo.text[..destMax - 1])
    else Printed(|fo.text|, fo.text)
  }

  method VsprintfS(mem: array<Cell>, dest: Ptr, destMax: nat, fmt: array?<char>, ghost f: seq<char>, fo: Formatted)
    returns (ret: int)
    requires BufferOk(mem.Length, dest, destMax) && Sound(fo) && (fmt != null ==> IsString(fmt, f))
    modifies mem
    ensures !Usable(fmt != null, dest, destMax) ==> ret == -1 && Cleared(old(mem[..]), mem[..], dest, destMax)
    ensures Usable(fmt != null, dest, destMax) ==>
              && ret == SprintfSpec(f, fo, destMax).ret
              && Shows(old(mem[..]), mem[..], dest.addr, destMax, SprintfSpec(f, fo, destMax).text)
  {
    if fmt == null || dest == Null || destMax == 0 || destMax > STRING_MAX_LEN {
      ClearDest(mem, dest, destMax);
      return -1;
    }
    ret := VsnprintfImpl(mem, dest.addr, destMax, fmt, f, fo);
    if ret < 0 {
      Empty(mem, dest.addr, destMax, old(mem[..]), ImplSpec(f, fo, destMax).text);
      return -1;
    }
  }

  method VsnprintfTruncatedS(mem: array<Cell>, dest: Ptr, destMax: nat, fmt: array?<char>, ghost f: seq<char>,
                             fo: Formatted) returns (ret: int)
    requires BufferOk(mem.Length, dest, destMax) && Sound(fo) && (fmt != null ==> IsString(fmt, f))
    modifies mem
    ensures !Usable(fmt != null, dest, destMax) ==> ret == -1 && Cleared(old(mem[..]), mem[..], dest, destMax)
    ensures Usable(fmt != null, dest, destMax) ==>
              && ret == TruncatedSpec(f, fo, destMax).ret
              && Shows(old(mem[..]), mem[..], dest.addr, destMax, TruncatedSpec(f, fo, destMax).text)
  {
    if fmt == null || dest == Null || destMax == 0 || destMax > STRING_MAX_LEN {
      ClearDest(mem, dest, destMax);
      return -1;
    }
    ret := VsnprintfImpl(mem, dest.addr, destMax, fmt, f, fo);
    if ret < 0 {
      if ret == PRINTF_TRUNCATE {
        return destMax - 1;
      }
      Empty(mem, dest.addr, destMax, old(mem[..]), ImplSpec(f, fo, destMax).text);
      return -1;
    }
  }

  lemma ShowsWider(m: seq<Cell>, m': seq<Cell>, d: nat, n: nat, wider: nat, text: seq<Cell>)
    requires Shows(m, m', d, n, text) && n <= wider
    ensures Shows(m, m', d, wider, text)
  {
  }

  method VsnprintfS(mem: array<Cell>, dest: Ptr, destMax: nat, count: nat, fmt: array?<char>, ghost f: seq<char>,
                    fo: Formatted) returns (ret: int)
    requires BufferOk(mem.Length, dest, destMax) && Sound(fo) && (fmt != null ==> IsString(fmt, f))
    modifies mem
    ensures !(Usable(fmt != null, dest, destMax) && count < STRING_MAX_LEN) ==>
              ret == -1 && Cleared(old(mem[..]), mem[..], dest, destMax)
    ensures Usable(fmt != null, dest, destMax) && count < STRING_MAX_LEN ==>
              && ret == SnprintfSpec(f, fo, destMax, count).ret
              && Shows(old(mem[..]), mem[..], dest.addr, destMax, SnprintfSpec(f, fo, destMax, count).text)
  {
    if fmt == null || dest == Null || destMax == 0 || destMax > STRING_MAX_LEN || count > STRING_MAX_LEN - 1 {
      ClearDest(mem, dest, destMax);
      return -1;
    }
    ghost var m := mem[..];
    if destMax > count {
      ret := VsnprintfImpl(mem, dest.addr, count + 1, fmt, f, fo);
      ShowsWider(m, mem[..], dest.addr, count + 1, destMax, ImplSpec(f, fo, count + 1).text);
      if ret == PRINTF_TRUNCATE {
        return -1;
      }
    } else {
      ret := VsnprintfImpl(mem, dest.addr, destMax, fmt, f, fo);
    }
    if ret < 0 {
      Empty(mem, dest.addr, destMax, m, ImplSpec(f, fo, Min(destMax, count + 1)).text);
      return -1;
    }
  }

  // ---- what a caller may rely on ----

  /**
   For usable arguments: the text left behind fits its buffer and is a prefix of
   what was to be printed; a non-negative return value is its length; a negative
   one means it is empty, except exactly when vsnprintf_s cut a text longer than
   a count that is itself below destMax.
   */
  lemma WrapperGuarantees(f: seq<char>, fo: Formatted, destMax: nat, count: nat)
    requires destMax > 0
    ensures forall p :: p in {SprintfSpec(f, fo, destMax), TruncatedSpec(f, fo, destMax),
                              SnprintfSpec(f, fo, destMax, count)} ==>
              && |p.text| < destMax
              && (fo.Produced? ==> p.text <= fo.text)
              && (p.ret >= 0 ==> p.ret == |p.text|)
    ensures SprintfSpec(f, fo, destMax).ret < 0 ==> SprintfSpec(f, fo, destMax).text == []
    ensures TruncatedSpec(f, fo, destMax).ret < 0 <==> HasN(f) || fo.Failed?
    ensures var p := SnprintfSpec(f, fo, destMax, count);
            p.ret < 0 && p.text != [] <==>
            !HasN(f) && fo.Produced? && 0 < count < |fo.text| && count < destMax
  {
  }

  /** Where nothing has to be cut, the three wrappers agree. */
  lemma WrappersAgreeOnFittingText(f: seq<char>, fo: Formatted, destMax: nat, count: nat)
    requires destMax > 0 && fo.Produced? && |fo.text| < destMax && |fo.text| <= count
    ensures SprintfSpec(f, fo, destMax) == TruncatedSpec(f, fo, destMax) == SnprintfSpec(f, fo, destMax, count)
  {
  }

  /** Exactly when each wrapper succeeds, what it returns and what it leaves, for usable arguments. */
  lemma SprintfMeaning(f: seq<char>, fo: Formatted, destMax: nat)
    requires destMax > 0
    ensures var p := SprintfSpec(f, fo, destMax);
            && (p.ret >= 0 <==> !HasN(f) && fo.Produced? && |fo.text| < destMax)
            && (p.ret >= 0 ==> p.ret == |fo.text| && p.text == fo.text)
            && (p.ret < 0 ==> p.ret == -1 && p.text == [])
  {
  }

  lemma SnprintfMeaning(f: seq<char>, fo: Formatted, destMax: nat, count: nat)
    requires destMax > 0
    ensures var p := SnprintfSpec(f, fo, destMax, count);
            var prints := !HasN(f) && fo.Produced?;
            && (p.ret >= 0 <==> prints && |fo.text| < destMax && |fo.text| <= count)
            && (p.ret >= 0 ==> p.ret == |fo.text| && p.text == fo.text)
            && (p.ret < 0 ==>
                  p.ret == -1 && p.text == if prints && count < |fo.text| && count < destMax then fo.text[..count] else [])
  {
  }

  lemma TruncatedMeaning(f: seq<char>, fo: Formatted, destMax: nat)
    requires destMax > 0
    ensures var p := TruncatedSpec(f, fo, destMax);
            if !HasN(f) && fo.Produced? then p.ret == Min(|fo.text|, destMax - 1) && p.text == fo.text[..p.ret]
            else p.ret == -1 && p.text == []
  {
  }

  /** Which arguments are usable, and that unusable ones leave an empty destination where there is one. */
  lemma ArgumentMeaning(m: seq<Cell>, m': seq<Cell>, hasFormat: bool, dest: Ptr, destMax: nat)
    requires BufferOk(|m|, dest, destMax)
    ensures Usable(hasFormat, dest, destMax) <==> hasFormat && dest.At? && 0 < destMax <= 0x7fff_ffff
    ensures Cleared(m, m', dest, destMax) && dest.At? && 0 < destMax <= 0x7fff_ffff ==>
              Shows(m, m', dest.addr, destMax, [])
    ensures Cleared(m, m', dest, destMax) && !(dest.At? && 0 < destMax <= 0x7fff_ffff) ==> m' == m
  {
    if dest.At? && 0 < destMax <= 0x7fff_ffff {
      ShowsEmpty(m, m, dest.addr, destMax);
    }
  }
}
