/**
 strcat_s, strncat_s and the constant-argument macros SECUREC_STRCAT_SM and
 SECUREC_STRNCAT_SM.
 */
module CatStrings {
  import opened Basics
  import opened Memory
  import opened MemOps
  import opened CopyStrings

  /** The buffer at d holds a string that ends within its destMax cells. */
  ghost predicate EndsWithin(m: seq<Cell>, d: nat, destMax: nat) {
    Terminated(m, d) && StrLen(m, d) < destMax
  }

  /** SECUREC_CAT_STRING_IS_OVERLAP. */
  predicate CatIsOverlap(d: nat, destLen: nat, s: nat, srcLen: nat) {
    (d < s && d + destLen + srcLen >= s) || (s < d && s + srcLen >= d)
  }

  /**
   Return code of strcat_s on proper arguments.  `ends` says whether the
   destination text, t characters long, ends within its buffer; u is the length
   of the source text.
   */
  ghost function CatRc(d: nat, destMax: nat, s: nat, ends: bool, t: nat, u: nat): Errno {
    if !ends then
      if d < s < d + destMax then EOVERLAP_AND_RESET else EINVAL_AND_RESET
    else if t + u >= destMax then
      if d < s <= d + destMax || s < d <= s + destMax - t then EOVERLAP_AND_RESET else ERANGE_AND_RESET
    else if d == s then ERANGE_AND_RESET
    else if !Disjoint(d + t, u + 1, s, u + 1) then EOVERLAP_AND_RESET
    else EOK
  }

  /** Return code of strncat_s on proper arguments; u counts the characters to append. */
  ghost function NcatRc(d: nat, destMax: nat, s: nat, ends: bool, t: nat, u: nat): Errno {
    if !ends then
      if d < s < d + destMax || s < d <= s + u then EOVERLAP_AND_RESET else EINVAL_AND_RESET
    else if d < s <= d + t + u || s < d <= s + u then EOVERLAP_AND_RESET
    else if t + u >= destMax || d == s then ERANGE_AND_RESET
    else EOK
  }

  ghost function TextLen(m: seq<Cell>, d: nat, destMax: nat): nat {
    if EndsWithin(m, d, destMax) then StrLen(m, d) else destMax
  }

  ghost function CatSpec(cap: nat, m: seq<Cell>, dest: Ptr, destMax: nat, src: Ptr): Outcome
    requires Strings(cap, m, dest, destMax, src)
  {
    if !Proper(cap, dest, destMax, src) then ArgumentError(cap, m, dest, destMax, src)
    else
      var d, t, u := dest.addr, TextLen(m, dest.addr, destMax), Text(m, src.addr);
      var rc := CatRc(d, destMax, src.addr, t < destMax, t, |u|);
      Outcome(rc, if rc == EOK then Put(m, d + t, u + [0]) else m[d := 0])
  }

  ghost function NcatSpec(cap: nat, m: seq<Cell>, dest: Ptr, destMax: nat, src: Ptr, count: nat): Outcome
    requires Strings(cap, m, dest, destMax, src)
  {
    if !Proper(cap, dest, destMax, src) then ArgumentError(cap, m, dest, destMax, src)
    else if count > cap then Outcome(ERANGE_AND_RESET, m[dest.addr := 0])
    else
      var d, t, u := dest.addr, TextLen(m, dest.addr, destMax), Prefix(Text(m, src.addr), count);
      var rc := NcatRc(d, destMax, src.addr, t < destMax, t, |u|);
      Outcome(rc, if rc == EOK then Put(m, d + t, u + [0]) else m[d := 0])
  }

  // ---- the overlap test ----

  /**
   On two terminated strings at different addresses the overlap test of strcat_s
   is exact: it holds exactly when the cells read and the cells written meet.
   */
  lemma CatOverlapExact(m: seq<Cell>, d: nat, s: nat)
    requires Terminated(m, d) && Terminated(m, s) && d != s
    ensures CatIsOverlap(d, StrLen(m, d), s, StrLen(m, s)) <==>
            !Disjoint(d + StrLen(m, d), StrLen(m, s) + 1, s, StrLen(m, s) + 1)
  {
    if d < s <= d + StrLen(m, d) {
      SuffixLen(m, d, s);
    }
    if s < d <= s + StrLen(m, s) {
      SuffixLen(m, s, d);
    }
  }

  /**
   For strncat_s, whose copy does not read the terminator, the same test is
   sufficient, and it refuses more than it must exactly when the source starts
   inside the destination text or runs into it from below; counting the
   terminator of an uncut source as read, it is exact.
   */
  lemma NcatOverlapTest(m: seq<Cell>, d: nat, s: nat, count: nat)
    requires Terminated(m, d) && Terminated(m, s) && d != s
    ensures var t, n := StrLen(m, d), Min(count, StrLen(m, s));
            && (!CatIsOverlap(d, t, s, n) ==> Disjoint(d + t, n + 1, s, n))
            && (n == StrLen(m, s) ==> (CatIsOverlap(d, t, s, n) <==> !Disjoint(d + t, n + 1, s, n + 1)))
            && (CatIsOverlap(d, t, s, n) && Disjoint(d + t, n + 1, s, n) <==> d < s <= d + t || s < d <= s + n)
  {
    if d < s <= d + StrLen(m, d) {
      SuffixLen(m, d, s);
    }
    if s < d <= s + StrLen(m, s) {
      SuffixLen(m, s, d);
    }
  }

  /** The branches of SecDoCat and SecDoCatLimit, in source order; every code but EOK comes with a reset. */
  function DoCatRc(d: nat, destMax: nat, s: nat, destLen: nat, srcLen: nat): Errno {
    if CatIsOverlap(d, destLen, s, srcLen) then
      if d + destLen <= s && destLen == destMax then EINVAL_AND_RESET else EOVERLAP_AND_RESET
    else if srcLen + destLen >= destMax || d == s then
      if destLen == destMax then EINVAL_AND_RESET else ERANGE_AND_RESET
    else EOK
  }

  /** They compute the table, although the source scan is cut where the buffer ends. */
  lemma CatDecision(m: seq<Cell>, d: nat, destMax: nat, s: nat, destLen: nat, srcLen: nat)
    requires Terminated(m, s)
    requires destLen == TextLen(m, d, destMax) && srcLen == Min(StrLen(m, s), destMax - destLen)
    ensures var rc := CatRc(d, destMax, s, destLen < destMax, destLen, StrLen(m, s));
            && DoCatRc(d, destMax, s, destLen, srcLen) == rc
            && (rc == EOK ==> srcLen == StrLen(m, s) && destLen + srcLen < destMax
                              && !Clash(d + destLen, s, srcLen + 1))
  {
    if EndsWithin(m, d, destMax) && d != s {
      CatOverlapExact(m, d, s);
    }
  }

  lemma NcatDecision(m: seq<Cell>, d: nat, destMax: nat, s: nat, count: nat)
    requires Terminated(m, s)
    ensures var t, n := TextLen(m, d, destMax), Min(count, StrLen(m, s));
            && DoCatRc(d, destMax, s, t, n) == NcatRc(d, destMax, s, t < destMax, t, n)
            && (NcatRc(d, destMax, s, t < destMax, t, n) == EOK ==> t + n < destMax && !Clash(d + t, s, n))
  {
    if EndsWithin(m, d, destMax) && d != s {
      NcatOverlapTest(m, d, s, count);
    }
  }

  /** The end of SecDoCat: append the source with its terminator, or reset. */
  method AppendOrReset(mem: array<Cell>, d: nat, t: nat, s: nat, len: nat, append: bool)
    requires Terminated(mem[..], s) && d < mem.Length
    requires append ==> len == StrLen(mem[..], s) && d + t + len < mem.Length && !Clash(d + t, s, len + 1)
    modifies mem
    ensures mem[..] == if append then Put(old(mem[..]), d + t, Text(old(mem[..]), s) + [0])
                       else old(mem[..])[d := 0]
  {
    if append {
      CopyWhole(mem, d + t, s, len, false);
    } else {
      Reset(mem, d);
    }
  }

  /** The end of SecDoCatLimit: append count characters and a terminator, or reset. */
  method AppendPrefixOrReset(mem: array<Cell>, d: nat, t: nat, s: nat, len: nat, count: nat, append: bool)
    requires Terminated(mem[..], s) && len == Min(count, StrLen(mem[..], s))
    requires d < mem.Length
    requires append ==> d + t + len < mem.Length && !Clash(d + t, s, len)
    modifies mem
    ensures mem[..] == if append then Put(old(mem[..]), d + t, Prefix(Text(old(mem[..]), s), count) + [0])
                       else old(mem[..])[d := 0]
  {
    if append {
      CopyPrefix(mem, d + t, s, len, count);
    } else {
      Reset(mem, d);
    }
  }

  // ---- strcat_s ----

  /** The destination scan: its length, or destMax when no terminator was met. */
  method DestLen(mem: array<Cell>, d: nat, destMax: nat) returns (n: nat)
    requires d + destMax <= mem.Length
    ensures n == TextLen(mem[..], d, destMax)
  {
    n := StrNLen(mem, d, destMax);
    if n < destMax {
      ScanOfText(mem[..], d, destMax, n);
    }
  }

  /** The optimised source scan on a terminated string. */
  method SourceLenOpt(mem: array<Cell>, p: nat, max: nat) returns (n: nat)
    requires Terminated(mem[..], p)
    ensures n == Min(StrLen(mem[..], p), max)
  {
    n := StrNLenOpt(mem, p, max);
    ScanOfText(mem[..], p, max, n);
  }

  /** The scans and tests of SecDoCat, before anything is written. */
  method CatTests(mem: array<Cell>, d: nat, destMax: nat, s: nat)
    returns (rc: Errno, destLen: nat, srcLen: nat)
    requires d + destMax <= mem.Length && Terminated(mem[..], s)
    ensures destLen == TextLen(mem[..], d, destMax)
    ensures rc == CatRc(d, destMax, s, destLen < destMax, destLen, StrLen(mem[..], s))
    ensures rc == EOK ==> srcLen == StrLen(mem[..], s) && destLen + srcLen < destMax
                          && !Clash(d + destLen, s, srcLen + 1)
  {
    destLen := DestLen(mem, d, destMax);
    srcLen := SourceLenOpt(mem, s, destMax - destLen);
    CatDecision(mem[..], d, destMax, s, destLen, srcLen);
    rc := DoCatRc(d, destMax, s, destLen, srcLen);
  }

  lemma CatOutcome(cap: nat, m: seq<Cell>, dest: Ptr, destMax: nat, src: Ptr, rc: Errno, t: nat, m': seq<Cell>)
    requires Strings(cap, m, dest, destMax, src) && Proper(cap, dest, destMax, src)
    requires t == TextLen(m, dest.addr, destMax)
    requires rc == CatRc(dest.addr, destMax, src.addr, t < destMax, t, StrLen(m, src.addr))
    requires rc == EOK ==> dest.addr + t + StrLen(m, src.addr) < |m|
    requires m' == if rc == EOK then Put(m, dest.addr + t, Text(m, src.addr) + [0]) else m[dest.addr := 0]
    ensures Outcome(rc, m') == CatSpec(cap, m, dest, destMax, src)
  {
  }

  /** SecDoCat. */
  method DoCat(cap: nat, mem: array<Cell>, dest: Ptr, destMax: nat, src: Ptr) returns (rc: Errno)
    requires Strings(cap, mem[..], dest, destMax, src) && Proper(cap, dest, destMax, src)
    modifies mem
    ensures Outcome(rc, mem[..]) == CatSpec(cap, old(mem[..]), dest, destMax, src)
  {
    var destLen, srcLen;
    ghost var m := mem[..];
    rc, destLen, srcLen := CatTests(mem, dest.addr, destMax, src.addr);
    AppendOrReset(mem, dest.addr, destLen, src.addr, srcLen, rc == EOK);
    CatOutcome(cap, m, dest, destMax, src, rc, destLen, mem[..]);
  }

  method StrcatS(cap: nat, mem: array<Cell>, dest: Ptr, destMax: nat, src: Ptr) returns (rc: Errno)
    requires Strings(cap, mem[..], dest, destMax, src)
    modifies mem
    ensures Outcome(rc, mem[..]) == CatSpec(cap, old(mem[..]), dest, destMax, src)
  {
    if destMax == 0 || destMax > cap {
      return ERANGE;
    }
    if dest == Null || src == Null {
      if dest != Null {
        Reset(mem, dest.addr);
        return EINVAL_AND_RESET;
      }
      return EINVAL;
    }
    rc := DoCat(cap, mem, dest, destMax, src);
  }

  /** The walk to the end of the destination in the concatenating macros. */
  method WalkDest(mem: array<Cell>, d: nat, destMax: nat) returns (end: nat, rest: nat)
    requires d + destMax <= mem.Length
    ensures end + rest == d + destMax && end == d + TextLen(mem[..], d, destMax)
  {
    end, rest := d, destMax;
    while rest > 0 && mem[end] != 0
      invariant end + rest == d + destMax && d <= end
      invariant IsScanPart(mem[..], d, end)
      decreases rest
    {
      end, rest := end + 1, rest - 1;
    }
    if rest > 0 {
      ScanOfText(mem[..], d, destMax, end - d);
    }
  }

  ghost predicate IsScanPart(m: seq<Cell>, d: nat, end: nat) {
    end <= |m| && forall k :: d <= k < end ==> m[k] != 0
  }

  /** The arguments are proper, and both texts end and fit together within the buffer. */
  ghost predicate CatFits(cap: nat, m: seq<Cell>, dest: Ptr, destMax: nat, src: Ptr, count: nat)
    requires Strings(cap, m, dest, destMax, src)
  {
    && Proper(cap, dest, destMax, src)
    && TextLen(m, dest.addr, destMax) + Min(count, StrLen(m, src.addr)) < destMax
  }

  /** SECUREC_STRCAT_SM. */
  ghost function CatSmSpec(cap: nat, m: seq<Cell>, dest: Ptr, destMax: nat, src: Ptr): Outcome
    requires Strings(cap, m, dest, destMax, src)
  {
    if src.At? && CatFits(cap, m, dest, destMax, src, StrLen(m, src.addr))
    then Outcome(EOK, Put(m, dest.addr + TextLen(m, dest.addr, destMax), Text(m, src.addr) + [0]))
    else CatSpec(cap, m, dest, destMax, src)
  }

  lemma CatSmOutcome(cap: nat, m: seq<Cell>, dest: Ptr, destMax: nat, src: Ptr, m': seq<Cell>)
    requires Strings(cap, m, dest, destMax, src) && src.At?
    requires CatFits(cap, m, dest, destMax, src, StrLen(m, src.addr))
    requires m' == Put(m, dest.addr + TextLen(m, dest.addr, destMax), Text(m, src.addr) + [0])
    ensures Outcome(EOK, m') == CatSmSpec(cap, m, dest, destMax, src)
  {
  }

  /** Its walk and its copy; false when the texts do not fit. */
  method AppendWholeSm(mem: array<Cell>, d: nat, destMax: nat, s: nat) returns (done: bool)
    requires d + destMax <= mem.Length && Terminated(mem[..], s)
    requires TextLen(mem[..], d, destMax) + StrLen(mem[..], s) < destMax ==>
               !Clash(d + TextLen(mem[..], d, destMax), s, StrLen(mem[..], s) + 1)
    modifies mem
    ensures done <==> TextLen(old(mem[..]), d, destMax) + StrLen(old(mem[..]), s) < destMax
    ensures mem[..] == if done
                       then Put(old(mem[..]), d + TextLen(old(mem[..]), d, destMax), Text(old(mem[..]), s) + [0])
                       else old(mem[..])
  {
    var end, rest := WalkDest(mem, d, destMax);
    var len := FullLen(mem, s);
    done := rest > 0 && len + 1 <= rest;
    if done {
      CopyWhole(mem, end, s, len, false);
    }
  }

  method StrcatSm(cap: nat, mem: array<Cell>, dest: Ptr, destMax: nat, src: Ptr) returns (rc: Errno)
    requires Strings(cap, mem[..], dest, destMax, src) && cap % 2 == 1
    requires src.At? && CatFits(cap, mem[..], dest, destMax, src, StrLen(mem[..], src.addr)) ==>
               !Clash(dest.addr + TextLen(mem[..], dest.addr, destMax), src.addr, StrLen(mem[..], src.addr) + 1)
    modifies mem
    ensures Outcome(rc, mem[..]) == CatSmSpec(cap, old(mem[..]), dest, destMax, src)
  {
    ghost var m := mem[..];
    ClearLowBitTest(cap, destMax);
    if dest != Null && src != Null && destMax > 0 && ClearLowBit(destMax) < cap {
      var done := AppendWholeSm(mem, dest.addr, destMax, src.addr);
      if done {
        CatSmOutcome(cap, m, dest, destMax, src, mem[..]);
        return EOK;
      }
      assert !CatFits(cap, m, dest, destMax, src, StrLen(m, src.addr));
    }
    assert mem[..] == m;
    rc := StrcatS(cap, mem, dest, destMax, src);
  }

  // ---- strncat_s ----

  /** SecDoCatLimit. */
  method DoCatLimit(cap: nat, mem: array<Cell>, dest: Ptr, destMax: nat, src: Ptr, count: nat)
    returns (rc: Errno)
    requires Strings(cap, mem[..], dest, destMax, src) && Proper(cap, dest, destMax, src) && count <= cap
    modifies mem
    ensures Outcome(rc, mem[..]) == NcatSpec(cap, old(mem[..]), dest, destMax, src, count)
  {
    var d, s := dest.addr, src.addr;
    var destLen := DestLen(mem, d, destMax);
    var srcLen := BoundedLen(mem, s, count);
    NcatDecision(mem[..], d, destMax, s, count);
    rc := DoCatRc(d, destMax, s, destLen, srcLen);
    AppendPrefixOrReset(mem, d, destLen, s, srcLen, count, rc == EOK);
  }

  method StrncatS(cap: nat, mem: array<Cell>, dest: Ptr, destMax: nat, src: Ptr, count: nat)
    returns (rc: Errno)
    requires Strings(cap, mem[..], dest, destMax, src)
    modifies mem
    ensures Outcome(rc, mem[..]) == NcatSpec(cap, old(mem[..]), dest, destMax, src, count)
  {
    if destMax == 0 || destMax > cap {
      return ERANGE;
    }
    if dest == Null || src == Null {
      if dest != Null {
        Reset(mem, dest.addr);
        return EINVAL_AND_RESET;
      }
      return EINVAL;
    }
    if count > cap {
      Reset(mem, dest.addr);
      return ERANGE_AND_RESET;
    }
    rc := DoCatLimit(cap, mem, dest, destMax, src, count);
  }

  /** SECUREC_STRNCAT_SM. */
  ghost function NcatSmSpec(cap: nat, m: seq<Cell>, dest: Ptr, destMax: nat, src: Ptr, count: nat): Outcome
    requires Strings(cap, m, dest, destMax, src)
  {
    if count <= cap && CatFits(cap, m, dest, destMax, src, count)
    then Outcome(EOK, Put(m, dest.addr + TextLen(m, dest.addr, destMax), Prefix(Text(m, src.addr), count) + [0]))
    else NcatSpec(cap, m, dest, destMax, src, count)
  }

  /** What fits is appended, whether or not strncat_s would refuse it. */
  lemma NcatSmOutcome(cap: nat, m: seq<Cell>, dest: Ptr, destMax: nat, src: Ptr, count: nat, m': seq<Cell>)
    requires Strings(cap, m, dest, destMax, src) && count <= cap && CatFits(cap, m, dest, destMax, src, count)
    requires m' == Put(m, dest.addr + TextLen(m, dest.addr, destMax), Prefix(Text(m, src.addr), count) + [0])
    ensures Outcome(EOK, m') == NcatSmSpec(cap, m, dest, destMax, src, count)
  {
  }

  /** Its walk and its copy; false when the texts do not fit. */
  method AppendSm(mem: array<Cell>, d: nat, destMax: nat, s: nat, count: nat) returns (done: bool)
    requires d + destMax <= mem.Length && Terminated(mem[..], s)
    requires TextLen(mem[..], d, destMax) + Min(count, StrLen(mem[..], s)) < destMax ==>
               CopyDefined(d + TextLen(mem[..], d, destMax), s, StrLen(mem[..], s), count)
    modifies mem
    ensures done <==> TextLen(old(mem[..]), d, destMax) + Min(count, StrLen(old(mem[..]), s)) < destMax
    ensures mem[..] == if done
                       then Put(old(mem[..]), d + TextLen(old(mem[..]), d, destMax),
                                Prefix(Text(old(mem[..]), s), count) + [0])
                       else old(mem[..])
  {
    var end, rest := WalkDest(mem, d, destMax);
    var len := FullLen(mem, s);
    done := rest > 0 && Min(count, len) + 1 <= rest;
    if done {
      CopySm(mem, end, s, len, count);
    }
  }

  method StrncatSm(cap: nat, mem: array<Cell>, dest: Ptr, destMax: nat, src: Ptr, count: nat)
    returns (rc: Errno)
    requires Strings(cap, mem[..], dest, destMax, src) && cap % 2 == 1
    requires count <= cap && CatFits(cap, mem[..], dest, destMax, src, count) ==>
               CopyDefined(dest.addr + TextLen(mem[..], dest.addr, destMax), src.addr,
                           StrLen(mem[..], src.addr), count)
    modifies mem
    ensures Outcome(rc, mem[..]) == NcatSmSpec(cap, old(mem[..]), dest, destMax, src, count)
  {
    ghost var m := mem[..];
    ClearLowBitTest(cap, destMax);
    ClearLowBitTest(cap, count);
    if dest != Null && src != Null && destMax > 0 && ClearLowBit(destMax) < cap && ClearLowBit(count) < cap {
      var done := AppendSm(mem, dest.addr, destMax, src.addr, count);
      if done {
        NcatSmOutcome(cap, m, dest, destMax, src, count, mem[..]);
        return EOK;
      }
      assert !CatFits(cap, m, dest, destMax, src, count);
    }
    assert mem[..] == m;
    rc := StrncatS(cap, mem, dest, destMax, src, count);
  }

  // ---- what the tables mean ----

  lemma AppendString(m: seq<Cell>, d: nat, u: seq<Cell>)
    requires Terminated(m, d) && d + StrLen(m, d) + |u| < |m| && 0 !in u
    ensures Holds(Put(m, d + StrLen(m, d), u + [0]), d, Text(m, d) + u)
  {
    var t := Text(m, d);
    var r := Put(m, d + |t|, u + [0]);
    assert r[d..d + |t + u|] == t + u;
    HoldsIntro(r, d, t + u);
  }

  /**
   strcat_s returns EOK exactly when both strings fit together and the cells read
   do not meet the cells written; the destination then holds old destination text
   plus old source text, and in every other case the empty string.
   */
  lemma CatMeaning(cap: nat, m: seq<Cell>, dest: Ptr, destMax: nat, src: Ptr)
    requires Strings(cap, m, dest, destMax, src) && Proper(cap, dest, destMax, src)
    ensures var r := CatSpec(cap, m, dest, destMax, src);
            var d, s, u := dest.addr, src.addr, Text(m, src.addr);
            && (r.rc == EOK <==>
                && EndsWithin(m, d, destMax) && StrLen(m, d) + |u| < destMax
                && Disjoint(d + StrLen(m, d), |u| + 1, s, |u| + 1))
            && (r.rc == EOK ==> Holds(r.mem, d, Text(m, d) + u))
            && (r.rc != EOK ==> Holds(r.mem, d, []))
            && |r.mem| == |m|
            && forall k :: 0 <= k < |m| && !Within(k, d, destMax) ==> r.mem[k] == m[k]
  {
    if CatSpec(cap, m, dest, destMax, src).rc == EOK {
      AppendString(m, dest.addr, Text(m, src.addr));
    } else {
      ResetIsEmpty(m, dest.addr);
    }
  }

  lemma NcatMeaning(cap: nat, m: seq<Cell>, dest: Ptr, destMax: nat, src: Ptr, count: nat)
    requires Strings(cap, m, dest, destMax, src) && Proper(cap, dest, destMax, src)
    ensures var r := NcatSpec(cap, m, dest, destMax, src, count);
            var d, s, u := dest.addr, src.addr, Prefix(Text(m, src.addr), count);
            && (r.rc == EOK <==>
                && count <= cap && EndsWithin(m, d, destMax) && StrLen(m, d) + |u| < destMax
                && d != s && !CatIsOverlap(d, StrLen(m, d), s, |u|))
            && (r.rc == EOK ==> Disjoint(d + StrLen(m, d), |u| + 1, s, |u|))
            && (r.rc == EOK ==> Holds(r.mem, d, Text(m, d) + u))
            && (r.rc != EOK ==> Holds(r.mem, d, []))
            && |r.mem| == |m|
            && forall k :: 0 <= k < |m| && !Within(k, d, destMax) ==> r.mem[k] == m[k]
  {
    if NcatSpec(cap, m, dest, destMax, src, count).rc == EOK {
      AppendString(m, dest.addr, Prefix(Text(m, src.addr), count));
    } else {
      ResetIsEmpty(m, dest.addr);
    }
  }

  /**
   Where its memcpy is defined, SECUREC_STRCAT_SM equals strcat_s unless the
   source is the destination's own terminator, which strcat_s refuses.
   */
  lemma CatSmVersusPlain(cap: nat, m: seq<Cell>, dest: Ptr, destMax: nat, src: Ptr)
    requires Strings(cap, m, dest, destMax, src)
    requires src.At? && CatFits(cap, m, dest, destMax, src, StrLen(m, src.addr)) ==>
               !Clash(dest.addr + StrLen(m, dest.addr), src.addr, StrLen(m, src.addr) + 1)
    ensures CatSmSpec(cap, m, dest, destMax, src) == CatSpec(cap, m, dest, destMax, src) <==>
            !(&& src.At? && CatFits(cap, m, dest, destMax, src, StrLen(m, src.addr))
              && src.addr == dest.addr + StrLen(m, dest.addr))
    ensures CatSmSpec(cap, m, dest, destMax, src) != CatSpec(cap, m, dest, destMax, src) ==>
              CatSmSpec(cap, m, dest, destMax, src) == Outcome(EOK, m)
  {
    if src.At? && CatFits(cap, m, dest, destMax, src, StrLen(m, src.addr)) {
      if src.addr == dest.addr + StrLen(m, dest.addr) {
        PutSameText(m, src.addr);
      }
      CatMeaning(cap, m, dest, destMax, src);
    }
  }

  /**
   SECUREC_STRNCAT_SM equals strncat_s except exactly where that function's
   overlap test refuses what fits.
   */
  lemma NcatSmVersusPlain(cap: nat, m: seq<Cell>, dest: Ptr, destMax: nat, src: Ptr, count: nat)
    requires Strings(cap, m, dest, destMax, src)
    ensures NcatSmSpec(cap, m, dest, destMax, src, count) == NcatSpec(cap, m, dest, destMax, src, count) <==>
            !(&& count <= cap && CatFits(cap, m, dest, destMax, src, count)
              && (|| dest == src
                  || CatIsOverlap(dest.addr, StrLen(m, dest.addr), src.addr, Min(count, StrLen(m, src.addr)))))
  {
    if count <= cap && CatFits(cap, m, dest, destMax, src, count) {
      assert |Prefix(Text(m, src.addr), count)| == Min(count, StrLen(m, src.addr));
    }
  }

  /**
   Where the macro's memcpy is defined, that is only a source cut short within
   reach of the destination, or the destination's own terminator.
   */
  lemma NcatSmRefusal(m: seq<Cell>, d: nat, s: nat, count: nat)
    requires Terminated(m, d) && Terminated(m, s)
    requires CopyDefined(d + StrLen(m, d), s, StrLen(m, s), count)
    requires d == s || CatIsOverlap(d, StrLen(m, d), s, Min(count, StrLen(m, s)))
    ensures count < StrLen(m, s) || s == d + StrLen(m, d)
  {
    if d != s {
      NcatOverlapTest(m, d, s, count);
    }
  }

  // ---- exactly when each code is returned ----

  lemma EndsExactly(m: seq<Cell>, d: nat, destMax: nat)
    requires d + destMax <= |m|
    ensures EndsWithin(m, d, destMax) <==> exists k :: Within(k, d, destMax) && m[k] == 0
  {
    if k :| Within(k, d, destMax) && m[k] == 0 {
      assert StrLen(m, d) <= k - d;
    }
    if EndsWithin(m, d, destMax) {
      assert Within(d + StrLen(m, d), d, destMax);
    }
  }

  /**
   strcat_s.  On a destination without a terminator the code depends on whether
   the source starts inside the buffer; on texts that do not fit together, on
   whether the source, as far as it was scanned, reaches the buffer.
   */
  lemma CatCodes(cap: nat, m: seq<Cell>, dest: Ptr, destMax: nat, src: Ptr)
    requires Strings(cap, m, dest, destMax, src)
    ensures var r := CatSpec(cap, m, dest, destMax, src);
            if !(0 < destMax <= cap && dest.At? && src.At?) then
              r == ArgumentError(cap, m, dest, destMax, src)
            else
              var d, s, n := dest.addr, src.addr, StrLen(m, src.addr);
              && (r.rc != EOK ==> r.mem == m[d := 0])
              && if !EndsWithin(m, d, destMax) then
                   r.rc == if d < s < d + destMax then EOVERLAP_AND_RESET else EINVAL_AND_RESET
                 else
                   var t := StrLen(m, d);
                   var near := d < s <= d + destMax || s < d <= s + (destMax - t);
                   var meets := d != s && s <= d + t + n && d + t <= s + n;
                   && (r.rc == ERANGE_AND_RESET <==> (t + n >= destMax && !near) || (t + n < destMax && d == s))
                   && (r.rc == EOVERLAP_AND_RESET <==> (t + n >= destMax && near) || (t + n < destMax && meets))
                   && (r.rc == EOK <==> t + n < destMax && d != s && !meets)
  {
  }

  lemma NcatCodes(cap: nat, m: seq<Cell>, dest: Ptr, destMax: nat, src: Ptr, count: nat)
    requires Strings(cap, m, dest, destMax, src)
    ensures var r := NcatSpec(cap, m, dest, destMax, src, count);
            if !(0 < destMax <= cap && dest.At? && src.At?) then
              r == ArgumentError(cap, m, dest, destMax, src)
            else if count > cap then
              r == Outcome(ERANGE_AND_RESET, m[dest.addr := 0])
            else
              var d, s, n := dest.addr, src.addr, Min(count, StrLen(m, src.addr));
              && (r.rc != EOK ==> r.mem == m[d := 0])
              && if !EndsWithin(m, d, destMax) then
                   r.rc == if d < s < d + destMax || s < d <= s + n then EOVERLAP_AND_RESET else EINVAL_AND_RESET
                 else
                   var t := StrLen(m, d);
                   var reaches := d < s <= d + t + n || s < d <= s + n;
                   && (r.rc == EOVERLAP_AND_RESET <==> reaches)
                   && (r.rc == ERANGE_AND_RESET <==> !reaches && (t + n >= destMax || d == s))
                   && (r.rc == EOK <==> !reaches && t + n < destMax && d != s)
  {
  }
}
