/**
 One flat memory shared by every pointer argument: cells are addressed by
 index, so any two regions may overlap.  A cell holds one character (narrow or
 wide); 0 is the terminator.
 */
module Memory {
  import opened Basics

  type Cell = int

  datatype Ptr = Null | At(addr: nat)

  /** Return codes of securec.h; the `_AND_RESET` codes are the library's own. */
  datatype Errno =
    | EOK | EINVAL | ERANGE
    | EINVAL_AND_RESET | ERANGE_AND_RESET | EOVERLAP_AND_RESET

  /** What one call returns and leaves behind. */
  datatype Outcome = Outcome(rc: Errno, mem: seq<Cell>)

  const STRING_MAX_LEN := 0x7fffffff
  const MEM_MAX_LEN := 0x7fffffff

  ghost predicate Terminated(m: seq<Cell>, p: nat) {
    exists k :: p <= k < |m| && m[k] == 0
  }

  /** The first terminator at or behind p is n cells away. */
  ghost predicate IsLen(m: seq<Cell>, p: nat, n: nat) {
    p + n < |m| && m[p + n] == 0 && forall k :: p <= k < p + n ==> m[k] != 0
  }

  lemma LenExists(m: seq<Cell>, p: nat)
    requires Terminated(m, p)
    ensures exists n: nat :: IsLen(m, p, n)
    decreases |m| - p
  {
    if m[p] == 0 {
      assert IsLen(m, p, 0);
    } else {
      LenExists(m, p + 1);
      var n: nat :| IsLen(m, p + 1, n);
      assert IsLen(m, p, n + 1);
    }
  }

  ghost function StrLen(m: seq<Cell>, p: nat): (n: nat)
    requires Terminated(m, p)
    ensures IsLen(m, p, n)
  {
    LenExists(m, p);
    var n: nat :| IsLen(m, p, n);
    n
  }

  /** The string at p, without its terminator. */
  ghost function Text(m: seq<Cell>, p: nat): (s: seq<Cell>)
    requires Terminated(m, p)
    ensures |s| == StrLen(m, p) && 0 !in s
  {
    m[p..p + StrLen(m, p)]
  }

  /** p holds exactly the string s. */
  ghost predicate Holds(m: seq<Cell>, p: nat, s: seq<Cell>) {
    Terminated(m, p) && Text(m, p) == s
  }

  lemma HoldsIntro(m: seq<Cell>, p: nat, s: seq<Cell>)
    requires p + |s| < |m| && m[p..p + |s|] == s && m[p + |s|] == 0 && 0 !in s
    ensures Holds(m, p, s)
  {
    var n := StrLen(m, p);
    assert forall k :: p <= k < p + |s| ==> m[k] == s[k - p];
    assert n == |s|;
  }

  /** A string that no write touched is still there. */
  lemma HoldsFrame(m: seq<Cell>, m': seq<Cell>, p: nat)
    requires Terminated(m, p) && |m'| == |m|
    requires forall k :: p <= k <= p + StrLen(m, p) ==> m'[k] == m[k]
    ensures Holds(m', p, Text(m, p))
  {
    var s := Text(m, p);
    assert m'[p..p + |s|] == s;
    HoldsIntro(m', p, s);
  }

  /** A pointer into a string sees the rest of that string. */
  lemma SuffixLen(m: seq<Cell>, p: nat, q: nat)
    requires Terminated(m, p) && p <= q <= p + StrLen(m, p)
    ensures Terminated(m, q) && q + StrLen(m, q) == p + StrLen(m, p)
  {
    var e := p + StrLen(m, p);
    assert m[e] == 0;
    var n := StrLen(m, q);
    assert q + n <= e;
    assert q + n >= e;
  }

  /** m with data stored from index at on; everything else unchanged. */
  ghost function Put(m: seq<Cell>, at: nat, data: seq<Cell>): (r: seq<Cell>)
    requires at + |data| <= |m|
    ensures |r| == |m|
    ensures forall k :: 0 <= k < |m| ==> r[k] == if at <= k < at + |data| then data[k - at] else m[k]
  {
    m[..at] + data + m[at + |data|..]
  }

  /** Storing what is already there changes nothing. */
  lemma PutSame(m: seq<Cell>, at: nat, n: nat)
    requires at + n <= |m|
    ensures Put(m, at, m[at..at + n]) == m
  {
  }

  lemma PutEmptyText(m: seq<Cell>, at: nat)
    requires at < |m|
    ensures Put(m, at, [] + [0]) == m[at := 0]
  {
  }

  lemma PutSameText(m: seq<Cell>, p: nat)
    requires Terminated(m, p)
    ensures Put(m, p, Text(m, p) + [0]) == m
  {
    assert Text(m, p) + [0] == m[p..p + StrLen(m, p) + 1];
  }

  ghost predicate Disjoint(a: nat, an: nat, b: nat, bn: nat) {
    a + an <= b || b + bn <= a
  }

  /** n is where a scan for the terminator bounded by max stops. */
  ghost predicate IsScan(m: seq<Cell>, p: nat, max: nat, n: nat) {
    && n <= max && p + n <= |m|
    && (forall k :: p <= k < p + n ==> m[k] != 0)
    && (n < max ==> p + n < |m| && m[p + n] == 0)
  }

  ghost predicate Scannable(m: seq<Cell>, p: nat, max: nat) {
    p + max <= |m| || Terminated(m, p)
  }

  lemma ScanOfText(m: seq<Cell>, p: nat, max: nat, n: nat)
    requires IsScan(m, p, max, n) && Terminated(m, p)
    ensures n == Min(StrLen(m, p), max)
  {
  }

  /** SECUREC_CALC_STR_LEN. */
  method StrNLen(mem: array<Cell>, p: nat, max: nat) returns (n: nat)
    requires Scannable(mem[..], p, max)
    ensures IsScan(mem[..], p, max, n)
  {
    n := 0;
    while n < max && mem[p + n] != 0
      invariant n <= max && p + n <= mem.Length
      invariant forall k :: p <= k < p + n ==> mem[k] != 0
    {
      n := n + 1;
    }
  }

  /** SECUREC_CALC_STR_LEN_OPT: eight unrolled probes, then a scan from offset 8. */
  method StrNLenOpt(mem: array<Cell>, p: nat, max: nat) returns (n: nat)
    requires Scannable(mem[..], p, max)
    ensures IsScan(mem[..], p, max, n)
  {
    if max > 8 {
      if mem[p] == 0 { n := 0; }
      else if mem[p + 1] == 0 { n := 1; }
      else if mem[p + 2] == 0 { n := 2; }
      else if mem[p + 3] == 0 { n := 3; }
      else if mem[p + 4] == 0 { n := 4; }
      else if mem[p + 5] == 0 { n := 5; }
      else if mem[p + 6] == 0 { n := 6; }
      else if mem[p + 7] == 0 { n := 7; }
      else if mem[p + 8] == 0 { n := 8; }
      else {
        var rest := StrNLen(mem, p + 8, max - 8);
        n := 8 + rest;
      }
    } else {
      n := StrNLen(mem, p, max);
    }
  }

  /** The bounded scan on a terminated string. */
  method BoundedLen(mem: array<Cell>, p: nat, max: nat) returns (n: nat)
    requires Terminated(mem[..], p)
    ensures n == Min(StrLen(mem[..], p), max)
  {
    n := StrNLen(mem, p, max);
    ScanOfText(mem[..], p, max, n);
  }
}
