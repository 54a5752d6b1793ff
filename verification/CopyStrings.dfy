/**
 strcpy_s and strncpy_s, their wide counterparts wcscpy_s and wcsncpy_s, and
 the constant-argument macros SECUREC_STRCPY_SM and SECUREC_STRNCPY_SM.
 Lengths count characters and `cap` is the largest accepted size, so that one
 table serves both character widths.
 */
module CopyStrings {
  import opened Basics
  import opened Memory
  import opened MemOps

  predicate SizeOk(cap: nat, destMax: nat) { 0 < destMax <= cap }

  /** What every string function demands of its caller. */
  ghost predicate Strings(cap: nat, m: seq<Cell>, dest: Ptr, destMax: nat, src: Ptr) {
    && (dest.At? && SizeOk(cap, destMax) ==> dest.addr + destMax <= |m|)
    && (src.At? ==> Terminated(m, src.addr))
  }

  /** Both arguments are present and the size is in range. */
  ghost predicate Proper(cap: nat, dest: Ptr, destMax: nat, src: Ptr) {
    SizeOk(cap, destMax) && dest.At? && src.At?
  }

  /** Strings of n characters and their terminators, at d and at s, share a cell. */
  ghost predicate StringClash(d: nat, s: nat, n: nat) {
    d != s && !Disjoint(d, n + 1, s, n + 1)
  }

  /** At most the first count characters. */
  ghost function Prefix(s: seq<Cell>, count: nat): (u: seq<Cell>)
    ensures |u| == Min(count, |s|)
  {
    s[..Min(count, |s|)]
  }

  /** The three argument errors common to every string function. */
  ghost function ArgumentError(cap: nat, m: seq<Cell>, dest: Ptr, destMax: nat, src: Ptr): Outcome
    requires Strings(cap, m, dest, destMax, src) && !Proper(cap, dest, destMax, src)
  {
    if !SizeOk(cap, destMax) then Outcome(ERANGE, m)
    else if dest.Null? then Outcome(EINVAL, m)
    else Outcome(EINVAL_AND_RESET, m[dest.addr := 0])
  }

  ghost function CpySpec(cap: nat, m: seq<Cell>, dest: Ptr, destMax: nat, src: Ptr): Outcome
    requires Strings(cap, m, dest, destMax, src)
  {
    if !Proper(cap, dest, destMax, src) then ArgumentError(cap, m, dest, destMax, src)
    else
      var s := Text(m, src.addr);
      if |s| >= destMax then Outcome(ERANGE_AND_RESET, m[dest.addr := 0])
      else if StringClash(dest.addr, src.addr, |s|) then Outcome(EOVERLAP_AND_RESET, m[dest.addr := 0])
      else Outcome(EOK, Put(m, dest.addr, s + [0]))
  }

  ghost function NcpySpec(cap: nat, m: seq<Cell>, dest: Ptr, destMax: nat, src: Ptr, count: nat): Outcome
    requires Strings(cap, m, dest, destMax, src)
  {
    if !Proper(cap, dest, destMax, src) then ArgumentError(cap, m, dest, destMax, src)
    else if count > cap then Outcome(ERANGE_AND_RESET, m[dest.addr := 0])
    else
      var u := Prefix(Text(m, src.addr), count);
      if |u| >= destMax then Outcome(ERANGE_AND_RESET, m[dest.addr := 0])
      else if count > 0 && StringClash(dest.addr, src.addr, |u|) then Outcome(EOVERLAP_AND_RESET, m[dest.addr := 0])
      else Outcome(EOK, Put(m, dest.addr, u + [0]))
  }

  /** wcsncpy_s: a string copied onto itself is left alone. */
  ghost function WncpySpec(cap: nat, m: seq<Cell>, dest: Ptr, destMax: nat, src: Ptr, count: nat): Outcome
    requires Strings(cap, m, dest, destMax, src)
  {
    if Proper(cap, dest, destMax, src) && 0 < count <= cap && dest == src
       && |Prefix(Text(m, src.addr), count)| < destMax
    then Outcome(EOK, m)
    else NcpySpec(cap, m, dest, destMax, src, count)
  }

  /** strDest[0] = '\0'. */
  method Reset(mem: array<Cell>, d: nat)
    requires d < mem.Length
    modifies mem
    ensures mem[..] == old(mem[..])[d := 0]
  {
    mem[d] := 0;
  }

  /** Copies a whole string, terminator included, by one of the three routes of SECUREC_STRCPY_OPT or by memcpy. */
  method CopyWhole(mem: array<Cell>, d: nat, s: nat, n: nat, fast: bool)
    requires Terminated(mem[..], s) && n == StrLen(mem[..], s)
    requires d + n < mem.Length && !Clash(d, s, n + 1)
    modifies mem
    ensures mem[..] == Put(old(mem[..]), d, Text(old(mem[..]), s) + [0])
  {
    assert mem[s..s + n + 1] == Text(mem[..], s) + [0];
    if fast {
      CopyOpt(mem, d, s, n + 1, STRCOPY_THRESHOLD, STRCOPY_LAST_LABEL);
    } else {
      MemCpy(mem, d, s, n + 1);
    }
  }

  /** Copies n characters of a string and stores a terminator behind them. */
  method CopyPrefix(mem: array<Cell>, d: nat, s: nat, n: nat, ghost count: nat)
    requires Terminated(mem[..], s) && n == Min(count, StrLen(mem[..], s))
    requires d + n < mem.Length && !Clash(d, s, n)
    modifies mem
    ensures mem[..] == Put(old(mem[..]), d, Prefix(Text(old(mem[..]), s), count) + [0])
  {
    assert mem[s..s + n] == Prefix(Text(mem[..], s), count);
    MemCpy(mem, d, s, n);
    mem[d + n] := 0;
  }

  /** The copy both _SM macros make: cut at count, or whole with its own terminator. */
  method CopySm(mem: array<Cell>, d: nat, s: nat, len: nat, count: nat)
    requires Terminated(mem[..], s) && len == StrLen(mem[..], s)
    requires d + Min(count, len) < mem.Length
    requires !Clash(d, s, if count < len then count else len + 1)
    modifies mem
    ensures mem[..] == Put(old(mem[..]), d, Prefix(Text(old(mem[..]), s), count) + [0])
  {
    if count < len {
      CopyPrefix(mem, d, s, count, count);
    } else {
      assert Prefix(Text(mem[..], s), count) == Text(mem[..], s);
      CopyWhole(mem, d, s, len, false);
    }
  }

  // ---- strcpy_s ----

  /** SECUREC_STRING_NO_OVERLAP, in characters. */
  predicate StringNoOverlap(d: nat, s: nat, len: nat) {
    (s < d && s + len < d) || (d < s && d + len < s)
  }

  /** CheckSrcRange: rescans the source one character at a time. */
  method CheckSrcRange(mem: array<Cell>, d: nat, destMax: nat, s: nat) returns (rc: Errno)
    requires d < mem.Length && destMax > 0 && Terminated(mem[..], s)
    modifies mem
    ensures var n := StrLen(old(mem[..]), s);
            if n >= destMax then rc == ERANGE_AND_RESET && mem[..] == old(mem[..])[d := 0]
            else rc == EOK && mem[..] == old(mem[..])
  {
    var tmpDestMax, tmpSrc := destMax, s;
    while mem[tmpSrc] != 0 && tmpDestMax > 0
      invariant 0 <= tmpDestMax <= destMax && tmpSrc == s + destMax - tmpDestMax
      invariant tmpSrc <= s + StrLen(mem[..], s)
      invariant mem[..] == old(mem[..])
      decreases tmpDestMax
    {
      tmpSrc, tmpDestMax := tmpSrc + 1, tmpDestMax - 1;
    }
    if tmpDestMax == 0 {
      Reset(mem, d);
      return ERANGE_AND_RESET;
    }
    return EOK;
  }

  /** strcpy_error: reached on a bad argument, on an oversized source, or when both pointers are equal. */
  method StrcpyError(cap: nat, mem: array<Cell>, dest: Ptr, destMax: nat, src: Ptr) returns (rc: Errno)
    requires Strings(cap, mem[..], dest, destMax, src)
    requires Proper(cap, dest, destMax, src) ==> dest == src || StrLen(mem[..], src.addr) >= destMax
    modifies mem
    ensures Outcome(rc, mem[..]) == CpySpec(cap, old(mem[..]), dest, destMax, src)
  {
    if destMax == 0 || destMax > cap {
      return ERANGE;
    }
    if dest == Null || src == Null {
      if dest != Null {
        Reset(mem, dest.addr);
        return EINVAL_AND_RESET;
      }
      return EINVAL;
    }
    if dest == src {
      PutSameText(mem[..], dest.addr);
    }
    rc := CheckSrcRange(mem, dest.addr, destMax, src.addr);
  }

  method StrcpyS(cap: nat, mem: array<Cell>, dest: Ptr, destMax: nat, src: Ptr) returns (rc: Errno)
    requires Strings(cap, mem[..], dest, destMax, src)
    modifies mem
    ensures Outcome(rc, mem[..]) == CpySpec(cap, old(mem[..]), dest, destMax, src)
  {
    if destMax > 0 && destMax <= cap && dest != Null && src != Null && dest != src {
      var srcStrLen := BoundedLen(mem, src.addr, destMax);
      srcStrLen := srcStrLen + 1;
      if srcStrLen <= destMax {
        if MemoryNoOverlap(dest.addr, src.addr, srcStrLen) {
          CopyWhole(mem, dest.addr, src.addr, srcStrLen - 1, true);
          return EOK;
        } else {
          Reset(mem, dest.addr);
          return EOVERLAP_AND_RESET;
        }
      }
    }
    rc := StrcpyError(cap, mem, dest, destMax, src);
  }

  /**
   SECUREC_STRCPY_SM has no overlap test of its own: wherever its memcpy is
   defined it equals strcpy_s.
   */
  method StrcpySm(cap: nat, mem: array<Cell>, dest: Ptr, destMax: nat, src: Ptr) returns (rc: Errno)
    requires Strings(cap, mem[..], dest, destMax, src) && cap % 2 == 1
    requires Proper(cap, dest, destMax, src) && StrLen(mem[..], src.addr) < destMax ==>
               !Clash(dest.addr, src.addr, StrLen(mem[..], src.addr) + 1)
    modifies mem
    ensures Outcome(rc, mem[..]) == CpySpec(cap, old(mem[..]), dest, destMax, src)
  {
    if dest != Null && src != Null && destMax > 0 && ClearLowBit(destMax) < cap {
      var len := FullLen(mem, src.addr);
      if len + 1 <= destMax {
        CopyWhole(mem, dest.addr, src.addr, len, false);
        return EOK;
      }
    }
    rc := StrcpyError(cap, mem, dest, destMax, src);
  }

  /** libc strlen. */
  method FullLen(mem: array<Cell>, p: nat) returns (n: nat)
    requires Terminated(mem[..], p)
    ensures n == StrLen(mem[..], p)
  {
    n := 0;
    while mem[p + n] != 0
      invariant n <= StrLen(mem[..], p)
      decreases StrLen(mem[..], p) - n
    {
      n := n + 1;
    }
  }

  /** wcscpy_s: no fast path, no rescan, and the other overlap macro. */
  method WcscpyS(cap: nat, mem: array<Cell>, dest: Ptr, destMax: nat, src: Ptr) returns (rc: Errno)
    requires Strings(cap, mem[..], dest, destMax, src)
    modifies mem
    ensures Outcome(rc, mem[..]) == CpySpec(cap, old(mem[..]), dest, destMax, src)
  {
    if destMax == 0 || destMax > cap {
      return ERANGE;
    }
    if dest == Null || src == Null {
      if dest != Null {
        Reset(mem, dest.addr);
        return EINVAL_AND_RESET;
      }
      return EINVAL;
    }
    var srcStrLen := BoundedLen(mem, src.addr, destMax);
    if srcStrLen == destMax {
      Reset(mem, dest.addr);
      return ERANGE_AND_RESET;
    }
    if dest == src {
      PutSameText(mem[..], dest.addr);
      return EOK;
    }
    if StringNoOverlap(dest.addr, src.addr, srcStrLen) {
      CopyWhole(mem, dest.addr, src.addr, srcStrLen, false);
      return EOK;
    } else {
      Reset(mem, dest.addr);
      return EOVERLAP_AND_RESET;
    }
  }

  // ---- strncpy_s ----

  /** CheckSrcCountRange. */
  method CheckSrcCountRange(mem: array<Cell>, d: nat, destMax: nat, s: nat, count: nat) returns (rc: Errno)
    requires d < mem.Length && destMax > 0 && Terminated(mem[..], s)
    modifies mem
    ensures var n := Min(count, StrLen(old(mem[..]), s));
            if n >= destMax then rc == ERANGE_AND_RESET && mem[..] == old(mem[..])[d := 0]
            else rc == EOK && mem[..] == old(mem[..])
  {
    var tmpDestMax, tmpCount, endPos := destMax, count, s;
    while mem[endPos] != 0 && tmpDestMax > 0 && tmpCount > 0
      invariant 0 <= tmpDestMax <= destMax && 0 <= tmpCount <= count
      invariant endPos == s + destMax - tmpDestMax == s + count - tmpCount
      invariant endPos <= s + StrLen(mem[..], s)
      invariant mem[..] == old(mem[..])
      decreases tmpCount
    {
      endPos, tmpCount, tmpDestMax := endPos + 1, tmpCount - 1, tmpDestMax - 1;
    }
    if tmpDestMax == 0 {
      Reset(mem, d);
      return ERANGE_AND_RESET;
    }
    return EOK;
  }

  /** strncpy_error: reached on a bad argument, a zero or oversized count, or a source that does not fit. */
  method StrncpyError(cap: nat, mem: array<Cell>, dest: Ptr, destMax: nat, src: Ptr, count: nat)
    returns (rc: Errno)
    requires Strings(cap, mem[..], dest, destMax, src)
    requires Proper(cap, dest, destMax, src) && 0 < count <= cap ==>
               Min(count, StrLen(mem[..], src.addr)) >= destMax
    modifies mem
    ensures Outcome(rc, mem[..]) == NcpySpec(cap, old(mem[..]), dest, destMax, src, count)
  {
    if destMax == 0 || destMax > cap {
      return ERANGE;
    }
    if dest == Null || src == Null {
      if dest != Null {
        Reset(mem, dest.addr);
        return EINVAL_AND_RESET;
      }
      return EINVAL;
    }
    if count > cap {
      Reset(mem, dest.addr);
      return ERANGE_AND_RESET;
    }
    if count == 0 {
      PutEmptyText(mem[..], dest.addr);
      assert Prefix(Text(mem[..], src.addr), count) == [];
      Reset(mem, dest.addr);
      return EOK;
    }
    rc := CheckSrcCountRange(mem, dest.addr, destMax, src.addr, count);
  }

  method StrncpyS(cap: nat, mem: array<Cell>, dest: Ptr, destMax: nat, src: Ptr, count: nat)
    returns (rc: Errno)
    requires Strings(cap, mem[..], dest, destMax, src)
    modifies mem
    ensures Outcome(rc, mem[..]) == NcpySpec(cap, old(mem[..]), dest, destMax, src, count)
  {
    if destMax > 0 && destMax <= cap && dest != Null && src != Null && count <= cap && count > 0 {
      var minCpLen;
      if count < destMax {
        minCpLen := BoundedLen(mem, src.addr, count);
      } else {
        minCpLen := BoundedLen(mem, src.addr, destMax);
        if minCpLen == destMax {
          Reset(mem, dest.addr);
          return ERANGE_AND_RESET;
        }
      }
      if StringNoOverlap(dest.addr, src.addr, minCpLen) || dest == src {
        CopyPrefix(mem, dest.addr, src.addr, minCpLen, count);
        return EOK;
      } else {
        Reset(mem, dest.addr);
        return EOVERLAP_AND_RESET;
      }
    }
    rc := StrncpyError(cap, mem, dest, destMax, src, count);
  }

  /** The arguments are proper and what is to be copied fits; the _SM macros then copy without further tests. */
  ghost predicate NcpyFits(cap: nat, m: seq<Cell>, dest: Ptr, destMax: nat, src: Ptr, count: nat)
    requires Strings(cap, m, dest, destMax, src)
  {
    Proper(cap, dest, destMax, src) && Min(count, StrLen(m, src.addr)) < destMax
  }

  /** The memcpy of an _SM macro is defined: the cells read and written are disjoint or the same. */
  ghost predicate CopyDefined(to: nat, s: nat, len: nat, count: nat) {
    !Clash(to, s, if count < len then count else len + 1)
  }

  /** SECUREC_STRNCPY_SM. */
  ghost function NcpySmSpec(cap: nat, m: seq<Cell>, dest: Ptr, destMax: nat, src: Ptr, count: nat): Outcome
    requires Strings(cap, m, dest, destMax, src)
  {
    if NcpyFits(cap, m, dest, destMax, src, count)
    then Outcome(EOK, Put(m, dest.addr, Prefix(Text(m, src.addr), count) + [0]))
    else NcpySpec(cap, m, dest, destMax, src, count)
  }

  method StrncpySm(cap: nat, mem: array<Cell>, dest: Ptr, destMax: nat, src: Ptr, count: nat)
    returns (rc: Errno)
    requires Strings(cap, mem[..], dest, destMax, src) && cap % 2 == 1
    requires NcpyFits(cap, mem[..], dest, destMax, src, count) ==>
               CopyDefined(dest.addr, src.addr, StrLen(mem[..], src.addr), count)
    modifies mem
    ensures Outcome(rc, mem[..]) == NcpySmSpec(cap, old(mem[..]), dest, destMax, src, count)
  {
    if dest != Null && src != Null && destMax > 0 && ClearLowBit(destMax) < cap {
      var len := FullLen(mem, src.addr);
      if Min(count, len) + 1 <= destMax {
        CopySm(mem, dest.addr, src.addr, len, count);
        return EOK;
      }
    }
    rc := StrncpyError(cap, mem, dest, destMax, src, count);
  }

  /** SecDoCpyLimitW. */
  method DoCpyLimitW(cap: nat, mem: array<Cell>, dest: Ptr, destMax: nat, src: Ptr, count: nat)
    returns (rc: Errno)
    requires Strings(cap, mem[..], dest, destMax, src) && Proper(cap, dest, destMax, src) && 0 < count <= cap
    modifies mem
    ensures Outcome(rc, mem[..]) == WncpySpec(cap, old(mem[..]), dest, destMax, src, count)
  {
    var bound := if count < destMax then count else destMax;
    var srcStrLen := BoundedLen(mem, src.addr, bound);
    if srcStrLen == destMax {
      Reset(mem, dest.addr);
      return ERANGE_AND_RESET;
    }
    if dest == src {
      return EOK;
    }
    if StringNoOverlap(dest.addr, src.addr, srcStrLen) {
      CopyPrefix(mem, dest.addr, src.addr, srcStrLen, count);
      return EOK;
    } else {
      Reset(mem, dest.addr);
      return EOVERLAP_AND_RESET;
    }
  }

  method WcsncpyS(cap: nat, mem: array<Cell>, dest: Ptr, destMax: nat, src: Ptr, count: nat)
    returns (rc: Errno)
    requires Strings(cap, mem[..], dest, destMax, src)
    modifies mem
    ensures Outcome(rc, mem[..]) == WncpySpec(cap, old(mem[..]), dest, destMax, src, count)
  {
    if destMax == 0 || destMax > cap {
      return ERANGE;
    }
    if dest == Null || src == Null {
      if dest != Null {
        Reset(mem, dest.addr);
        return EINVAL_AND_RESET;
      }
      return EINVAL;
    }
    if count > cap {
      Reset(mem, dest.addr);
      return ERANGE_AND_RESET;
    }
    if count == 0 {
      PutEmptyText(mem[..], dest.addr);
      assert Prefix(Text(mem[..], src.addr), count) == [];
      Reset(mem, dest.addr);
      return EOK;
    }
    rc := DoCpyLimitW(cap, mem, dest, destMax, src, count);
  }

  // ---- what the tables mean ----

  /** A reset leaves the empty string. */
  lemma ResetIsEmpty(m: seq<Cell>, d: nat)
    requires d < |m|
    ensures Holds(m[d := 0], d, [])
  {
    HoldsIntro(m[d := 0], d, []);
  }

  lemma PutString(m: seq<Cell>, d: nat, s: seq<Cell>)
    requires d + |s| < |m| && 0 !in s
    ensures Holds(Put(m, d, s + [0]), d, s)
  {
    var r := Put(m, d, s + [0]);
    assert r[d..d + |s|] == s;
    HoldsIntro(r, d, s);
  }

  /**
   strcpy_s (and wcscpy_s) returns EOK exactly when the source fits and does not
   partly overlap its copy; then the destination holds the old source string,
   and on a reset the empty one.  Cells outside the buffer never change.
   */
  lemma CpyMeaning(cap: nat, m: seq<Cell>, dest: Ptr, destMax: nat, src: Ptr)
    requires Strings(cap, m, dest, destMax, src) && Proper(cap, dest, destMax, src)
    ensures var r := CpySpec(cap, m, dest, destMax, src);
            var s := Text(m, src.addr);
            && (r.rc == EOK <==> |s| < destMax && !StringClash(dest.addr, src.addr, |s|))
            && Holds(r.mem, dest.addr, if r.rc == EOK then s else [])
            && |r.mem| == |m|
            && forall k :: 0 <= k < |m| && !Within(k, dest.addr, destMax) ==> r.mem[k] == m[k]
  {
    var s := Text(m, src.addr);
    if |s| < destMax && !StringClash(dest.addr, src.addr, |s|) {
      PutString(m, dest.addr, s);
    } else {
      ResetIsEmpty(m, dest.addr);
    }
  }

  /** The same for strncpy_s: the destination gets the first count characters at most. */
  lemma NcpyMeaning(cap: nat, m: seq<Cell>, dest: Ptr, destMax: nat, src: Ptr, count: nat)
    requires Strings(cap, m, dest, destMax, src) && Proper(cap, dest, destMax, src)
    ensures var r := NcpySpec(cap, m, dest, destMax, src, count);
            var u := Prefix(Text(m, src.addr), count);
            && (r.rc == EOK <==>
                count <= cap && |u| < destMax && (count == 0 || !StringClash(dest.addr, src.addr, |u|)))
            && Holds(r.mem, dest.addr, if r.rc == EOK then u else [])
            && |r.mem| == |m|
            && forall k :: 0 <= k < |m| && !Within(k, dest.addr, destMax) ==> r.mem[k] == m[k]
  {
    var u := Prefix(Text(m, src.addr), count);
    if count <= cap && |u| < destMax && (count == 0 || !StringClash(dest.addr, src.addr, |u|)) {
      PutString(m, dest.addr, u);
    } else {
      ResetIsEmpty(m, dest.addr);
    }
  }

  /**
   strncpy_s and wcsncpy_s differ exactly on a string truncated onto itself:
   the narrow form cuts it, the wide form leaves it alone.
   */
  lemma NarrowVersusWide(cap: nat, m: seq<Cell>, dest: Ptr, destMax: nat, src: Ptr, count: nat)
    requires Strings(cap, m, dest, destMax, src)
    ensures (NcpySpec(cap, m, dest, destMax, src, count) == WncpySpec(cap, m, dest, destMax, src, count))
            <==> !(Proper(cap, dest, destMax, src) && dest == src
                   && 0 < count < Min(StrLen(m, src.addr), destMax))
    ensures NcpySpec(cap, m, dest, destMax, src, count) != WncpySpec(cap, m, dest, destMax, src, count) ==>
              && WncpySpec(cap, m, dest, destMax, src, count) == Outcome(EOK, m)
              && NcpySpec(cap, m, dest, destMax, src, count) == Outcome(EOK, m[dest.addr + count := 0])
  {
    if Proper(cap, dest, destMax, src) && dest == src && 0 < count <= cap {
      var s := Text(m, src.addr);
      var u := Prefix(s, count);
      if |u| < destMax {
        var r := Put(m, dest.addr, u + [0]);
        assert r[dest.addr + |u|] == 0;
        if |u| == |s| {
          assert r == m;
        } else {
          assert m[dest.addr + |u|] != 0;
        }
      }
    }
  }

  /**
   The overlap test of strncpy_s is sound, and it refuses more than it must only
   when a truncated source ends right where the destination starts.
   */
  lemma NcpyOverlapTest(d: nat, s: nat, n: nat)
    requires d != s
    ensures StringNoOverlap(d, s, n) <==> !StringClash(d, s, n)
    ensures !StringClash(d, s, n) ==> Disjoint(d, n + 1, s, n)
    ensures StringClash(d, s, n) && Disjoint(d, n + 1, s, n) <==> s < d && s + n == d
  {
  }

  /**
   Where its memcpy is defined, SECUREC_STRNCPY_SM equals strncpy_s except
   exactly for a count above the limit, which it does not test, and for a cut
   source that abuts its copy, which strncpy_s refuses.
   */
  lemma NcpySmVersusPlain(cap: nat, m: seq<Cell>, dest: Ptr, destMax: nat, src: Ptr, count: nat)
    requires Strings(cap, m, dest, destMax, src)
    requires NcpyFits(cap, m, dest, destMax, src, count) ==>
               CopyDefined(dest.addr, src.addr, StrLen(m, src.addr), count)
    ensures NcpySmSpec(cap, m, dest, destMax, src, count) == NcpySpec(cap, m, dest, destMax, src, count) <==>
            !(&& NcpyFits(cap, m, dest, destMax, src, count)
              && (|| count > cap
                  || (0 < count < StrLen(m, src.addr)
                      && (dest.addr + count == src.addr || src.addr + count == dest.addr))))
    ensures NcpySmSpec(cap, m, dest, destMax, src, count) != NcpySpec(cap, m, dest, destMax, src, count) ==>
              var r := NcpySmSpec(cap, m, dest, destMax, src, count);
              r.rc == EOK && Holds(r.mem, dest.addr, Prefix(Text(m, src.addr), count))
  {
    if NcpyFits(cap, m, dest, destMax, src, count) {
      PutString(m, dest.addr, Prefix(Text(m, src.addr), count));
      var n := |Prefix(Text(m, src.addr), count)|;
      if dest != src {
        NcpyOverlapTest(dest.addr, src.addr, n);
      }
    }
  }

  // ---- exactly when each code is returned ----

  /** The arguments are improper exactly in the first three cases. */
  lemma ArgumentCodes(cap: nat, m: seq<Cell>, dest: Ptr, destMax: nat, src: Ptr)
    requires Strings(cap, m, dest, destMax, src) && !Proper(cap, dest, destMax, src)
    ensures var r := ArgumentError(cap, m, dest, destMax, src);
            && (r.rc == ERANGE <==> destMax == 0 || destMax > cap)
            && (r.rc == EINVAL <==> 0 < destMax <= cap && dest.Null?)
            && (r.rc == EINVAL_AND_RESET <==> 0 < destMax <= cap && dest.At? && src.Null?)
            && r.rc in {ERANGE, EINVAL, EINVAL_AND_RESET}
            && r.mem == if r.rc == EINVAL_AND_RESET then m[dest.addr := 0] else m
  {
  }

  lemma CpyCodes(cap: nat, m: seq<Cell>, dest: Ptr, destMax: nat, src: Ptr)
    requires Strings(cap, m, dest, destMax, src)
    ensures var r := CpySpec(cap, m, dest, destMax, src);
            if !(0 < destMax <= cap && dest.At? && src.At?) then
              r == ArgumentError(cap, m, dest, destMax, src)
            else
              var d, s, n := dest.addr, src.addr, StrLen(m, src.addr);
              var meets := d != s && s <= d + n && d <= s + n;
              && (r.rc == ERANGE_AND_RESET <==> n >= destMax)
              && (r.rc == EOVERLAP_AND_RESET <==> n < destMax && meets)
              && (r.rc == EOK <==> n < destMax && !meets)
              && (r.rc != EOK ==> r.mem == m[d := 0])
  {
  }

  lemma NcpyCodes(cap: nat, m: seq<Cell>, dest: Ptr, destMax: nat, src: Ptr, count: nat)
    requires Strings(cap, m, dest, destMax, src)
    ensures var r := NcpySpec(cap, m, dest, destMax, src, count);
            if !(0 < destMax <= cap && dest.At? && src.At?) then
              r == ArgumentError(cap, m, dest, destMax, src)
            else
              var d, s, n := dest.addr, src.addr, Min(count, StrLen(m, src.addr));
              var meets := d != s && count > 0 && s <= d + n && d <= s + n;
              && (r.rc == ERANGE_AND_RESET <==> count > cap || n >= destMax)
              && (r.rc == EOVERLAP_AND_RESET <==> count <= cap && n < destMax && meets)
              && (r.rc == EOK <==> count <= cap && n < destMax && !meets)
              && (r.rc != EOK ==> r.mem == m[d := 0])
  {
  }
}
