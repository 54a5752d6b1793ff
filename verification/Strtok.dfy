/**
 strtok_s: single calls as the source makes them, then whole runs of a first
 call on a string followed by any number of NULL calls.
 */
module Strtok {
  import opened Memory

  /** The caller's `char *` that strtok_s keeps its position in. */
  class Context {
    var pos: Ptr
    constructor (p: Ptr)
      ensures pos == p
    {
      pos := p;
    }
  }

  ghost function Delims(m: seq<Cell>, p: nat): (ds: set<Cell>)
    requires Terminated(m, p)
    ensures 0 !in ds
  {
    set c | c in Text(m, p)
  }

  /** c is a character of the string at p. */
  ghost predicate IsDelim(m: seq<Cell>, p: nat, c: Cell)
    requires Terminated(m, p)
  {
    exists k :: p <= k < p + StrLen(m, p) && m[k] == c
  }

  /** The set is just those characters. */
  lemma DelimsAre(m: seq<Cell>, p: nat, c: Cell)
    requires Terminated(m, p)
    ensures c in Delims(m, p) <==> IsDelim(m, p, c)
  {
    var s := Text(m, p);
    if c in Delims(m, p) {
      var j :| 0 <= j < |s| && s[j] == c;
      assert m[p + j] == c;
    }
    if k :| p <= k < p + StrLen(m, p) && m[k] == c {
      assert s[k - p] == c;
    }
  }

  /** j is the first position of m[i..end] that holds no delimiter, or end. */
  ghost predicate IsBegin(m: seq<Cell>, i: nat, end: nat, ds: set<Cell>, j: nat)
    requires end <= |m|
  {
    i <= j <= end && (forall k :: i <= k < j ==> m[k] in ds) && (j < end ==> m[j] !in ds)
  }

  lemma BeginExists(m: seq<Cell>, i: nat, end: nat, ds: set<Cell>)
    requires i <= end <= |m|
    ensures exists j: nat :: IsBegin(m, i, end, ds, j)
    decreases end - i
  {
    if i < end && m[i] in ds {
      BeginExists(m, i + 1, end, ds);
      var j: nat :| IsBegin(m, i + 1, end, ds, j);
      assert IsBegin(m, i, end, ds, j);
    } else {
      assert IsBegin(m, i, end, ds, i);
    }
  }

  ghost function Begin(m: seq<Cell>, i: nat, end: nat, ds: set<Cell>): (j: nat)
    requires i <= end <= |m|
    ensures IsBegin(m, i, end, ds, j)
  {
    BeginExists(m, i, end, ds);
    var j: nat :| IsBegin(m, i, end, ds, j);
    j
  }

  lemma BeginUnique(m: seq<Cell>, i: nat, end: nat, ds: set<Cell>, j: nat)
    requires i <= end <= |m| && IsBegin(m, i, end, ds, j)
    ensures Begin(m, i, end, ds) == j
  {
    var j' := Begin(m, i, end, ds);
    assert !(j < j') && !(j' < j);
  }

  /** j is the first position of m[i..end] that holds a delimiter, or end. */
  ghost predicate IsStop(m: seq<Cell>, i: nat, end: nat, ds: set<Cell>, j: nat)
    requires end <= |m|
  {
    i <= j <= end && (forall k :: i <= k < j ==> m[k] !in ds) && (j < end ==> m[j] in ds)
  }

  lemma StopExists(m: seq<Cell>, i: nat, end: nat, ds: set<Cell>)
    requires i <= end <= |m|
    ensures exists j: nat :: IsStop(m, i, end, ds, j)
    decreases end - i
  {
    if i < end && m[i] !in ds {
      StopExists(m, i + 1, end, ds);
      var j: nat :| IsStop(m, i + 1, end, ds, j);
      assert IsStop(m, i, end, ds, j);
    } else {
      assert IsStop(m, i, end, ds, i);
    }
  }

  ghost function Stop(m: seq<Cell>, i: nat, end: nat, ds: set<Cell>): (j: nat)
    requires i <= end <= |m|
    ensures IsStop(m, i, end, ds, j)
  {
    StopExists(m, i, end, ds);
    var j: nat :| IsStop(m, i, end, ds, j);
    j
  }

  lemma StopUnique(m: seq<Cell>, i: nat, end: nat, ds: set<Cell>, j: nat)
    requires i <= end <= |m| && IsStop(m, i, end, ds, j)
    ensures Stop(m, i, end, ds) == j
  {
    var j' := Stop(m, i, end, ds);
    assert !(j < j') && !(j' < j);
  }

  /** What one successful-argument call does from position i. */
  datatype Step = Step(token: Ptr, next: nat, mem: seq<Cell>)

  ghost function Tok(m: seq<Cell>, i: nat, ds: set<Cell>): Step
    requires Terminated(m, i)
  {
    TokUpTo(m, i, i + StrLen(m, i), ds)
  }

  /** The same with the end of the string given. */
  ghost function TokUpTo(m: seq<Cell>, i: nat, end: nat, ds: set<Cell>): Step
    requires i <= end < |m|
  {
    var j := Begin(m, i, end, ds);
    var e := Stop(m, j, end, ds);
    Step(if j == end then Null else At(j),
         if e < end then e + 1 else end,
         if e < end then m[e := 0] else m)
  }

  // ---- the source's functions ----

  /** SecIsInDelimit. */
  method IsInDelimit(mem: array<Cell>, ch: Cell, delimit: nat) returns (found: bool)
    requires Terminated(mem[..], delimit)
    ensures found <==> IsDelim(mem[..], delimit, ch)
    ensures found <==> ch in Delims(mem[..], delimit)
  {
    var ctl := delimit;
    ghost var end := delimit + StrLen(mem[..], delimit);
    while mem[ctl] != 0 && mem[ctl] != ch
      invariant delimit <= ctl <= end
      invariant forall k :: delimit <= k < ctl ==> mem[k] != ch
      decreases end - ctl
    {
      ctl := ctl + 1;
    }
    found := mem[ctl] != 0;
    assert found ==> mem[..][ctl] == ch;
    DelimsAre(mem[..], delimit, ch);
  }

  /** SecFindBegin. */
  method FindBegin(mem: array<Cell>, start: nat, delimit: nat) returns (token: nat)
    requires Terminated(mem[..], start) && Terminated(mem[..], delimit)
    ensures token == Begin(mem[..], start, start + StrLen(mem[..], start), Delims(mem[..], delimit))
  {
    token := start;
    ghost var m := mem[..];
    ghost var end, ds := start + StrLen(m, start), Delims(m, delimit);
    while mem[token] != 0
      invariant mem[..] == m && start <= token <= end
      invariant forall k :: start <= k < token ==> m[k] in ds
      decreases end - token
    {
      var isDelimiter := IsInDelimit(mem, mem[token], delimit);
      if !isDelimiter {
        break;
      }
      token := token + 1;
    }
    BeginUnique(m, start, end, ds, token);
  }

  /** SecFindRest. */
  method FindRest(mem: array<Cell>, start: nat, delimit: nat) returns (token: nat)
    requires Terminated(mem[..], start) && Terminated(mem[..], delimit)
    modifies mem
    ensures var m := old(mem[..]);
            var end := start + StrLen(m, start);
            var e := Stop(m, start, end, Delims(m, delimit));
            && mem[..] == (if e < end then m[e := 0] else m)
            && token == (if e < end then e + 1 else end)
  {
    token := start;
    ghost var m := mem[..];
    ghost var end, ds := start + StrLen(m, start), Delims(m, delimit);
    while mem[token] != 0
      invariant mem[..] == m && start <= token <= end
      invariant forall k :: start <= k < token ==> m[k] !in ds
      decreases end - token
    {
      var isDelimiter := IsInDelimit(mem, mem[token], delimit);
      if isDelimiter {
        StopUnique(m, start, end, ds, token);
        mem[token] := 0;
        token := token + 1;
        return;
      }
      token := token + 1;
    }
    StopUnique(m, start, end, ds, token);
  }

  /** SecUpdateToken. */
  method UpdateToken(mem: array<Cell>, start: nat, delimit: nat, context: Context) returns (r: Ptr)
    requires Terminated(mem[..], start) && Terminated(mem[..], delimit)
    modifies mem, context
    ensures var m := old(mem[..]);
            var end := start + StrLen(m, start);
            var e := Stop(m, start, end, Delims(m, delimit));
            && mem[..] == (if e < end then m[e := 0] else m)
            && context.pos == At(if e < end then e + 1 else end)
            && r == (if context.pos == At(start) then Null else At(start))
  {
    var rest := FindRest(mem, start, delimit);
    context.pos := At(rest);
    if context.pos == At(start) {
      return Null;
    }
    return At(start);
  }

  /** Where the search starts, if the arguments allow one. */
  ghost function Start(token: Ptr, delimit: Ptr, context: Context?): Ptr
    reads context
  {
    if context == null || delimit == Null then Null
    else if token == Null then context.pos
    else token
  }

  method StrtokS(mem: array<Cell>, token: Ptr, delimit: Ptr, context: Context?) returns (r: Ptr)
    requires delimit.At? ==> Terminated(mem[..], delimit.addr)
    requires Start(token, delimit, context).At? ==> Terminated(mem[..], Start(token, delimit, context).addr)
    modifies mem, context
    ensures context == null || delimit == Null || (token == Null && old(context.pos) == Null) ==>
              r == Null && mem[..] == old(mem[..])
    ensures old(Start(token, delimit, context)) == Null ==>
              && r == Null && mem[..] == old(mem[..])
              && (context != null ==> context.pos == old(context.pos))
    ensures old(Start(token, delimit, context)).At? ==>
              && context.pos.At?
              && Step(r, context.pos.addr, mem[..])
                 == Tok(old(mem[..]), old(Start(token, delimit, context)).addr, Delims(old(mem[..]), delimit.addr))
  {
    var orgToken := token;
    if context == null || delimit == Null {
      return Null;
    }
    if orgToken == Null && context.pos == Null {
      return Null;
    }
    if orgToken == Null {
      orgToken := context.pos;
    }
    ghost var m := mem[..];
    var begin := FindBegin(mem, orgToken.addr, delimit.addr);
    assert mem[..] == m;
    SuffixLen(m, orgToken.addr, begin);
    r := UpdateToken(mem, begin, delimit.addr, context);
  }

  // ---- tokens of a string ----

  datatype Run = Run(start: nat, stop: nat)

  /** A maximal non-empty delimiter-free run of m[p..end]. */
  ghost predicate IsRun(m: seq<Cell>, p: nat, end: nat, ds: set<Cell>, a: nat, b: nat)
    requires end <= |m|
  {
    && p <= a < b <= end
    && (forall k :: a <= k < b ==> m[k] !in ds)
    && (a == p || m[a - 1] in ds)
    && (b == end || m[b] in ds)
  }

  /** rs lists exactly the maximal runs of m[p..end], from left to right. */
  ghost predicate Lists(m: seq<Cell>, p: nat, end: nat, ds: set<Cell>, rs: seq<Run>)
    requires end <= |m|
  {
    && (forall r :: r in rs ==> IsRun(m, p, end, ds, r.start, r.stop))
    && (forall a: nat, b: nat :: IsRun(m, p, end, ds, a, b) ==> Run(a, b) in rs)
    && (forall x, y :: 0 <= x < y < |rs| ==> rs[x].stop < rs[y].start)
  }

  /** Every run but the first starts behind the delimiter that ends the first. */
  lemma OtherRuns(m: seq<Cell>, p: nat, end: nat, ds: set<Cell>, j: nat, e: nat, a: nat, b: nat)
    requires p <= end <= |m|
    requires j == Begin(m, p, end, ds) < end && e == Stop(m, j, end, ds)
    ensures IsRun(m, p, end, ds, a, b) <==>
            (a == j && b == e) || (e < end && IsRun(m, e + 1, end, ds, a, b))
  {
    if IsRun(m, p, end, ds, a, b) {
      assert m[a] !in ds;
      if a < e {
        assert a == j;
        assert b == e;
      }
    }
  }

  lemma NoRuns(m: seq<Cell>, p: nat, end: nat, ds: set<Cell>, a: nat, b: nat)
    requires p <= end <= |m| && Begin(m, p, end, ds) == end
    ensures !IsRun(m, p, end, ds, a, b)
  {
    if p <= a < end {
      assert m[a] in ds;
    }
  }

  /** Every string has such a list. */
  lemma {:induction false} ListExists(m: seq<Cell>, p: nat, end: nat, ds: set<Cell>) returns (rs: seq<Run>)
    requires p <= end <= |m|
    ensures Lists(m, p, end, ds, rs)
    decreases end - p
  {
    var j := Begin(m, p, end, ds);
    if j == end {
      rs := [];
      forall a: nat, b: nat
        ensures !IsRun(m, p, end, ds, a, b)
      {
        NoRuns(m, p, end, ds, a, b);
      }
    } else {
      var e := Stop(m, j, end, ds);
      var rest := [];
      if e < end {
        rest := ListExists(m, e + 1, end, ds);
      }
      rs := [Run(j, e)] + rest;
      forall a: nat, b: nat
        ensures Run(a, b) in rs <==> IsRun(m, p, end, ds, a, b)
      {
        OtherRuns(m, p, end, ds, j, e, a, b);
      }
      assert forall r :: r in rs ==> r == Run(r.start, r.stop);
    }
  }

  /** Without a start there is no run; otherwise the list opens with the run found first. */
  lemma FirstOfList(m: seq<Cell>, p: nat, end: nat, ds: set<Cell>, rs: seq<Run>)
    requires p <= end <= |m| && Lists(m, p, end, ds, rs)
    ensures var j := Begin(m, p, end, ds);
            if j == end then rs == [] else rs != [] && rs[0] == Run(j, Stop(m, j, end, ds))
  {
    var j := Begin(m, p, end, ds);
    if j < end {
      var e := Stop(m, j, end, ds);
      assert IsRun(m, p, end, ds, j, e);
      assert Run(j, e) in rs;
      OtherRuns(m, p, end, ds, j, e, rs[0].start, rs[0].stop);
    } else if rs != [] {
      NoRuns(m, p, end, ds, rs[0].start, rs[0].stop);
    }
  }

  /** What follows the first run is listed by the rest of the list. */
  lemma RestOfList(m: seq<Cell>, p: nat, end: nat, ds: set<Cell>, rs: seq<Run>)
    requires p <= end <= |m| && Lists(m, p, end, ds, rs) && rs != []
    ensures rs[0].stop <= end
    ensures if rs[0].stop == end then rs[1..] == [] else Lists(m, rs[0].stop + 1, end, ds, rs[1..])
  {
    var j := Begin(m, p, end, ds);
    FirstOfList(m, p, end, ds, rs);
    var e := rs[0].stop;
    var rest := rs[1..];
    assert e == end && rest != [] ==> rest[0] in rest;
    forall r | r in rest
      ensures e < end && IsRun(m, e + 1, end, ds, r.start, r.stop)
    {
      OtherRuns(m, p, end, ds, j, e, r.start, r.stop);
    }
    if e < end {
      forall a: nat, b: nat | IsRun(m, e + 1, end, ds, a, b)
        ensures Run(a, b) in rest
      {
        OtherRuns(m, p, end, ds, j, e, a, b);
      }
    }
  }

  /** A list of runs looks only at the cells it is about. */
  lemma ListFrame(m: seq<Cell>, m': seq<Cell>, p: nat, end: nat, ds: set<Cell>, rs: seq<Run>)
    requires p <= end <= |m| == |m'| && (forall k :: p <= k < end ==> m'[k] == m[k])
    requires Lists(m, p, end, ds, rs)
    ensures Lists(m', p, end, ds, rs)
  {
    assert forall a: nat, b: nat :: IsRun(m', p, end, ds, a, b) ==> IsRun(m, p, end, ds, a, b);
  }

  // ---- runs of calls ----

  /** One call from i leaves the rest of the text as it was. */
  lemma StepEnds(m: seq<Cell>, i: nat, delimit: nat)
    requires Terminated(m, i) && Terminated(m, delimit)
    ensures var s := Tok(m, i, Delims(m, delimit));
            && i <= s.next <= i + StrLen(m, i) && |s.mem| == |m|
            && (forall k :: s.next <= k < |m| ==> s.mem[k] == m[k])
            && Terminated(s.mem, s.next) && Terminated(s.mem, delimit)
            && s.next + StrLen(s.mem, s.next) == i + StrLen(m, i)
            && (s.token.At? ==> i < s.next)
  {
    var s := Tok(m, i, Delims(m, delimit));
    SuffixLen(m, i, s.next);
    HoldsFrame(m, s.mem, s.next);
    var z :| delimit <= z < |m| && m[z] == 0;
    assert s.mem[z] == 0;
  }

  /**
   The delimiter string is the tail of the subject, two or more characters long,
   and the character in front of it belongs to a token: ending that token will
   overwrite the first delimiter.
   */
  ghost predicate Spoils(m: seq<Cell>, i: nat, delimit: nat)
    requires Terminated(m, i) && Terminated(m, delimit)
  {
    i < delimit && delimit + 1 < i + StrLen(m, i) && m[delimit - 1] !in Delims(m, delimit)
  }

  /** Strings that share a cell share their end. */
  lemma SharedEnd(m: seq<Cell>, p: nat, q: nat, k: nat)
    requires Terminated(m, p) && Terminated(m, q)
    requires p <= k <= p + StrLen(m, p) && q <= k <= q + StrLen(m, q)
    ensures p + StrLen(m, p) == q + StrLen(m, q)
  {
    SuffixLen(m, p, k);
    SuffixLen(m, q, k);
  }

  lemma DelimitersIn(m: seq<Cell>, delimit: nat)
    requires Terminated(m, delimit)
    ensures forall k :: delimit <= k < delimit + StrLen(m, delimit) ==> m[k] in Delims(m, delimit)
  {
    forall k | delimit <= k < delimit + StrLen(m, delimit)
      ensures m[k] in Delims(m, delimit)
    {
      assert Text(m, delimit)[k - delimit] == m[k];
    }
  }

  /** A cut inside the delimiter string that does not spoil the run comes at the end of the text. */
  lemma CutInDelimiters(m: seq<Cell>, i: nat, delimit: nat, j: nat, e: nat)
    requires Terminated(m, i) && Terminated(m, delimit) && !Spoils(m, i, delimit)
    requires var end, ds := i + StrLen(m, i), Delims(m, delimit);
             j == Begin(m, i, end, ds) && e == Stop(m, j, end, ds) < end
    requires delimit <= e <= delimit + StrLen(m, delimit)
    ensures e + 1 == i + StrLen(m, i)
  {
    SharedEnd(m, i, delimit, e);
    DelimitersIn(m, delimit);
    assert m[e - 1] !in Delims(m, delimit);
  }

  /** One call leaves nothing to search, or the delimiters as they were and the run unspoilt. */
  lemma StepKeeps(m: seq<Cell>, i: nat, delimit: nat)
    requires Terminated(m, i) && Terminated(m, delimit) && !Spoils(m, i, delimit)
    ensures var s := Tok(m, i, Delims(m, delimit));
            && Terminated(s.mem, s.next) && Terminated(s.mem, delimit)
            && (s.next == i + StrLen(m, i)
                || (Delims(s.mem, delimit) == Delims(m, delimit) && !Spoils(s.mem, s.next, delimit)))
  {
    var ds := Delims(m, delimit);
    var s := Tok(m, i, ds);
    StepEnds(m, i, delimit);
    var end := i + StrLen(m, i);
    var j := Begin(m, i, end, ds);
    var e := Stop(m, j, end, ds);
    if e < end {
      if delimit <= e <= delimit + StrLen(m, delimit) {
        CutInDelimiters(m, i, delimit, j, e);
      } else {
        HoldsFrame(m, s.mem, delimit);
      }
    }
  }

  datatype State = State(mem: seq<Cell>, pos: nat)

  /** One call, reading the delimiters from memory as it is now. */
  ghost predicate Calls(s: State, token: Ptr, s': State, delimit: nat) {
    && Terminated(s.mem, s.pos) && Terminated(s.mem, delimit)
    && Tok(s.mem, s.pos, Delims(s.mem, delimit)) == Step(token, s'.pos, s'.mem)
  }

  /** Any run: the states between the calls and the pointers the calls return. */
  ghost predicate IsTrace(states: seq<State>, tokens: seq<Ptr>, delimit: nat) {
    && |states| == |tokens| + 1
    && forall x {:trigger tokens[x]} :: 0 <= x < |tokens| ==> Calls(states[x], tokens[x], states[x + 1], delimit)
  }

  /** k is the delimiter that ended one of the first n runs. */
  ghost predicate Cut(rs: seq<Run>, n: nat, end: nat, k: nat) {
    k < end && exists x :: 0 <= x < n && x < |rs| && rs[x].stop == k
  }

  /** m with the delimiter behind the first listed run overwritten, if there is one. */
  ghost function CutFirst(m: seq<Cell>, rs: seq<Run>, end: nat): (m': seq<Cell>)
    requires end <= |m|
    ensures |m'| == |m|
  {
    if rs != [] && rs[0].stop < end then m[rs[0].stop := 0] else m
  }

  /** The runs that n calls leave. */
  ghost function Left(rs: seq<Run>, n: nat): seq<Run> {
    if n < |rs| then rs[n..] else []
  }

  lemma LeftStep(rs: seq<Run>, n: nat)
    ensures n < |rs| ==> Left(rs, n) != [] && Left(rs, n)[0] == rs[n]
    ensures Left(rs, n + 1) == Left(Left(rs, n), 1)
  {
  }

  /** One call takes the first run off the list. */
  lemma StepTakesFirstRun(m: seq<Cell>, i: nat, end: nat, ds: set<Cell>, rs: seq<Run>)
    requires i <= end < |m| && Lists(m, i, end, ds, rs)
    ensures var s := TokUpTo(m, i, end, ds);
            && s.token == (if rs == [] then Null else At(rs[0].start))
            && s.mem == CutFirst(m, rs, end)
            && Lists(s.mem, s.next, end, ds, Left(rs, 1))
  {
    var s := TokUpTo(m, i, end, ds);
    FirstOfList(m, i, end, ds, rs);
    if rs != [] {
      RestOfList(m, i, end, ds, rs);
      if rs[0].stop < end {
        ListFrame(m, s.mem, s.next, end, ds, rs[1..]);
      }
    }
  }

  /** One call, with the end of the string and the delimiters given. */
  ghost predicate CoreCall(s: State, token: Ptr, s': State, end: nat, ds: set<Cell>) {
    s.pos <= end < |s.mem| && TokUpTo(s.mem, s.pos, end, ds) == Step(token, s'.pos, s'.mem)
  }

  ghost predicate IsCoreTrace(states: seq<State>, tokens: seq<Ptr>, end: nat, ds: set<Cell>) {
    && |states| == |tokens| + 1
    && forall x {:trigger tokens[x]} :: 0 <= x < |tokens| ==> CoreCall(states[x], tokens[x], states[x + 1], end, ds)
  }

  ghost predicate ListedIn(s: State, end: nat, ds: set<Cell>, rs: seq<Run>) {
    s.pos <= end < |s.mem| && Lists(s.mem, s.pos, end, ds, rs)
  }

  lemma CoreCallTakesFirst(s: State, token: Ptr, s': State, end: nat, ds: set<Cell>, rs: seq<Run>)
    requires CoreCall(s, token, s', end, ds) && ListedIn(s, end, ds, rs)
    ensures ListedIn(s', end, ds, Left(rs, 1))
    ensures token == if rs == [] then Null else At(rs[0].start)
    ensures s'.mem == CutFirst(s.mem, rs, end)
  {
    StepTakesFirstRun(s.mem, s.pos, end, ds, rs);
  }

  /** Subject and delimiters of a state. */
  ghost predicate Ready(s: State, delimit: nat) {
    Terminated(s.mem, s.pos) && Terminated(s.mem, delimit)
  }

  /** s has the string end that s0 had and, as long as there is text, the same delimiters. */
  ghost predicate Kept(s0: State, s: State, delimit: nat)
    requires Ready(s0, delimit)
  {
    && |s.mem| == |s0.mem| && Ready(s, delimit)
    && s.pos + StrLen(s.mem, s.pos) == s0.pos + StrLen(s0.mem, s0.pos)
    && (StrLen(s.mem, s.pos) == 0
        || (Delims(s.mem, delimit) == Delims(s0.mem, delimit) && !Spoils(s.mem, s.pos, delimit)))
  }

  lemma KeptStep(s0: State, s: State, token: Ptr, s': State, delimit: nat)
    requires Ready(s0, delimit) && Kept(s0, s, delimit) && Calls(s, token, s', delimit)
    ensures Kept(s0, s', delimit)
  {
    StepEnds(s.mem, s.pos, delimit);
    if StrLen(s.mem, s.pos) > 0 {
      StepKeeps(s.mem, s.pos, delimit);
    }
  }

  lemma {:induction false} TraceKeeps(states: seq<State>, tokens: seq<Ptr>, delimit: nat, n: nat)
    requires IsTrace(states, tokens, delimit) && n <= |tokens|
    requires Ready(states[0], delimit) && !Spoils(states[0].mem, states[0].pos, delimit)
    ensures Kept(states[0], states[n], delimit)
  {
    if n > 0 {
      TraceKeeps(states, tokens, delimit, n - 1);
      KeptStep(states[0], states[n - 1], tokens[n - 1], states[n], delimit);
    }
  }

  lemma CallIsCore(s: State, token: Ptr, s': State, delimit: nat, end: nat, ds: set<Cell>)
    requires Calls(s, token, s', delimit) && end == s.pos + StrLen(s.mem, s.pos)
    requires s.pos == end || ds == Delims(s.mem, delimit)
    ensures CoreCall(s, token, s', end, ds)
  {
  }

  /**
   Calls on NULL always search the same text for the same delimiters, although
   each reads both from memory again.
   */
  lemma TraceIsCore(states: seq<State>, tokens: seq<Ptr>, delimit: nat, end: nat, ds: set<Cell>)
    requires IsTrace(states, tokens, delimit)
    requires Ready(states[0], delimit) && !Spoils(states[0].mem, states[0].pos, delimit)
    requires end == states[0].pos + StrLen(states[0].mem, states[0].pos) && ds == Delims(states[0].mem, delimit)
    ensures IsCoreTrace(states, tokens, end, ds)
  {
    forall x | 0 <= x < |tokens|
      ensures CoreCall(states[x], tokens[x], states[x + 1], end, ds)
    {
      TraceKeeps(states, tokens, delimit, x);
      CallIsCore(states[x], tokens[x], states[x + 1], delimit, end, ds);
    }
  }

  /** After n calls the text still to be searched contains exactly the remaining runs. */
  lemma {:induction false} RemainingRuns(states: seq<State>, tokens: seq<Ptr>, end: nat, ds: set<Cell>,
                                         rs: seq<Run>, n: nat)
    requires IsCoreTrace(states, tokens, end, ds) && n <= |tokens|
    requires ListedIn(states[0], end, ds, rs)
    ensures ListedIn(states[n], end, ds, Left(rs, n))
  {
    if n == 0 {
      assert Left(rs, 0) == rs;
    } else {
      RemainingRuns(states, tokens, end, ds, rs, n - 1);
      LeftStep(rs, n - 1);
      CoreCallTakesFirst(states[n - 1], tokens[n - 1], states[n], end, ds, Left(rs, n - 1));
    }
  }

  /** Call number n returns the start of run number n, and NULL once the runs are used up. */
  lemma CallTakesRun(states: seq<State>, tokens: seq<Ptr>, end: nat, ds: set<Cell>, rs: seq<Run>, n: nat)
    requires IsCoreTrace(states, tokens, end, ds) && n < |tokens|
    requires ListedIn(states[0], end, ds, rs)
    ensures tokens[n] == if n < |rs| then At(rs[n].start) else Null
    ensures end < |states[n].mem| && states[n + 1].mem == CutFirst(states[n].mem, Left(rs, n), end)
  {
    RemainingRuns(states, tokens, end, ds, rs, n);
    LeftStep(rs, n);
    CoreCallTakesFirst(states[n], tokens[n], states[n + 1], end, ds, Left(rs, n));
  }

  lemma CutStep(rs: seq<Run>, n: nat, end: nat, k: nat)
    ensures Cut(rs, n + 1, end, k) <==> Cut(rs, n, end, k) || (n < |rs| && rs[n].stop == k < end)
  {
    if n < |rs| && rs[n].stop == k < end {
      assert Cut(rs, n + 1, end, k);
    }
  }

  lemma CellStep(m: seq<Cell>, rs: seq<Run>, n: nat, end: nat, k: nat)
    requires end <= |m| && k < |m|
    ensures CutFirst(m, Left(rs, n), end)[k] == if n < |rs| && rs[n].stop == k < end then 0 else m[k]
  {
  }

  /** Each of the first n calls overwrites just the delimiter behind its run. */
  ghost predicate CutsOnly(states: seq<State>, rs: seq<Run>, end: nat, n: nat) {
    n < |states| &&
    forall x {:trigger Left(rs, x)} :: 0 <= x < n ==> CutsTo(states[x], states[x + 1], Left(rs, x), end)
  }

  ghost predicate CutsTo(s: State, s': State, left: seq<Run>, end: nat) {
    end <= |s.mem| && s'.mem == CutFirst(s.mem, left, end)
  }

  lemma TraceCutsOnly(states: seq<State>, tokens: seq<Ptr>, end: nat, ds: set<Cell>, rs: seq<Run>, n: nat)
    requires IsCoreTrace(states, tokens, end, ds) && n <= |tokens| && ListedIn(states[0], end, ds, rs)
    ensures CutsOnly(states, rs, end, n)
  {
    forall x | 0 <= x < n
      ensures CutsTo(states[x], states[x + 1], Left(rs, x), end)
    {
      CallTakesRun(states, tokens, end, ds, rs, x);
    }
  }

  lemma {:induction false} CellOf(states: seq<State>, rs: seq<Run>, end: nat, n: nat, k: nat)
    requires CutsOnly(states, rs, end, n) && k < |states[0].mem|
    ensures |states[n].mem| == |states[0].mem|
    ensures states[n].mem[k] == if Cut(rs, n, end, k) then 0 else states[0].mem[k]
  {
    if n > 0 {
      CellOf(states, rs, end, n - 1, k);
      assert CutsTo(states[n - 1], states[n], Left(rs, n - 1), end);
      CellStep(states[n - 1].mem, rs, n - 1, end, k);
      CutStep(rs, n - 1, end, k);
    }
  }

  /** n calls overwrite exactly the delimiters that end the first n runs. */
  lemma CellAfter(states: seq<State>, tokens: seq<Ptr>, end: nat, ds: set<Cell>, rs: seq<Run>, n: nat, k: nat)
    requires IsCoreTrace(states, tokens, end, ds) && n <= |tokens|
    requires ListedIn(states[0], end, ds, rs) && k < |states[0].mem|
    ensures |states[n].mem| == |states[0].mem|
    ensures states[n].mem[k] == if Cut(rs, n, end, k) then 0 else states[0].mem[k]
  {
    TraceCutsOnly(states, tokens, end, ds, rs, n);
    CellOf(states, rs, end, n, k);
  }

  /** No cut falls inside a run. */
  lemma RunsAreNotCut(m: seq<Cell>, p: nat, end: nat, ds: set<Cell>, rs: seq<Run>, n: nat, x: nat, k: nat)
    requires p <= end <= |m| && Lists(m, p, end, ds, rs)
    requires x < |rs| && rs[x].start <= k < rs[x].stop
    ensures !Cut(rs, n, end, k)
  {
    forall y | 0 <= y < n && y < |rs|
      ensures rs[y].stop != k
    {
      assert rs[y] in rs && rs[x] in rs;
    }
  }

  /** After n calls the x-th run, once taken, ends in a terminator and is otherwise intact. */
  lemma RunIsIntact(states: seq<State>, tokens: seq<Ptr>, end: nat, ds: set<Cell>, rs: seq<Run>, n: nat, x: nat)
    requires IsCoreTrace(states, tokens, end, ds) && x < n <= |tokens| && x < |rs|
    requires ListedIn(states[0], end, ds, rs) && states[0].mem[end] == 0
    ensures states[0].pos <= rs[x].start < rs[x].stop <= end && |states[n].mem| == |states[0].mem|
    ensures states[n].mem[rs[x].stop] == 0
    ensures states[n].mem[rs[x].start..rs[x].stop] == states[0].mem[rs[x].start..rs[x].stop]
  {
    var m, m', r := states[0].mem, states[n].mem, rs[x];
    assert r in rs && IsRun(m, states[0].pos, end, ds, r.start, r.stop);
    CellAfter(states, tokens, end, ds, rs, n, r.stop);
    assert r.stop < end ==> Cut(rs, n, end, r.stop);
    forall k | r.start <= k < r.stop
      ensures m'[k] == m[k]
    {
      RunsAreNotCut(m, states[0].pos, end, ds, rs, n, x, k);
      CellAfter(states, tokens, end, ds, rs, n, k);
    }
  }

  lemma PieceIsString(m: seq<Cell>, m': seq<Cell>, p: nat, a: nat, b: nat, end: nat)
    requires p <= a <= b <= end && IsLen(m, p, end - p)
    requires |m'| == |m| && m'[b] == 0 && m'[a..b] == m[a..b]
    ensures Holds(m', a, m[a..b])
  {
    HoldsIntro(m', a, m[a..b]);
  }

  /**
   After any number n of calls, every pointer x returned so far still holds
   exactly its run of the original string.
   */
  lemma TokensSurvive(states: seq<State>, tokens: seq<Ptr>, end: nat, ds: set<Cell>, rs: seq<Run>, n: nat, x: nat)
    requires IsCoreTrace(states, tokens, end, ds) && x < n <= |tokens| && x < |rs|
    requires ListedIn(states[0], end, ds, rs) && IsLen(states[0].mem, states[0].pos, end - states[0].pos)
    ensures tokens[x] == At(rs[x].start) && rs[x].start < rs[x].stop <= end
    ensures Holds(states[n].mem, rs[x].start, states[0].mem[rs[x].start..rs[x].stop])
  {
    CallTakesRun(states, tokens, end, ds, rs, x);
    RunIsIntact(states, tokens, end, ds, rs, n, x);
    PieceIsString(states[0].mem, states[n].mem, states[0].pos, rs[x].start, rs[x].stop, end);
  }

  /** Each call that finds a token leaves strictly less text to search. */
  lemma RemainingTextShrinks(s: State, token: Ptr, s': State, delimit: nat)
    requires Calls(s, token, s', delimit)
    ensures Terminated(s'.mem, s'.pos)
    ensures token.At? ==> StrLen(s'.mem, s'.pos) < StrLen(s.mem, s.pos)
    ensures token == Null ==> StrLen(s'.mem, s'.pos) == 0 && s'.mem == s.mem
  {
    StepEnds(s.mem, s.pos, delimit);
  }

  /** A cut is a delimiter of the text. */
  lemma CutIsDelimiter(m: seq<Cell>, p: nat, end: nat, ds: set<Cell>, rs: seq<Run>, n: nat, k: nat)
    requires p <= end <= |m| && Lists(m, p, end, ds, rs) && Cut(rs, n, end, k)
    ensures p <= k < end && m[k] in ds
  {
    var x :| 0 <= x < n && x < |rs| && rs[x].stop == k;
    assert rs[x] in rs;
  }

  /**
   The whole run: a first call on a string and any number of NULL calls with the
   same delimiters return exactly the maximal delimiter-free runs of the original
   string in order, each still intact and terminated at the end, then NULL for
   ever; and nothing but delimiters of that string is ever overwritten.  The
   delimiter string may share cells with the subject unless it spoils the run.
   */
  lemma WholeRun(states: seq<State>, tokens: seq<Ptr>, delimit: nat, rs: seq<Run>)
    requires IsTrace(states, tokens, delimit)
    requires Ready(states[0], delimit) && !Spoils(states[0].mem, states[0].pos, delimit)
    requires Lists(states[0].mem, states[0].pos, states[0].pos + StrLen(states[0].mem, states[0].pos),
                   Delims(states[0].mem, delimit), rs)
    ensures forall x :: 0 <= x < |tokens| ==> tokens[x] == if x < |rs| then At(rs[x].start) else Null
    ensures var m, m', p := states[0].mem, states[|tokens|].mem, states[0].pos;
            && (forall x :: 0 <= x < |tokens| && x < |rs| ==>
                  p <= rs[x].start < rs[x].stop <= |m| && Holds(m', rs[x].start, m[rs[x].start..rs[x].stop]))
            && |m'| == |m|
            && (forall k :: 0 <= k < |m| && m'[k] != m[k] ==>
                  p <= k < p + StrLen(m, p) && m[k] in Delims(m, delimit) && m'[k] == 0)
  {
    var m, p, n := states[0].mem, states[0].pos, |tokens|;
    var end, ds := p + StrLen(m, p), Delims(m, delimit);
    TraceIsCore(states, tokens, delimit, end, ds);
    forall x | 0 <= x < n
      ensures tokens[x] == if x < |rs| then At(rs[x].start) else Null
    {
      CallTakesRun(states, tokens, end, ds, rs, x);
    }
    forall x | 0 <= x < n && x < |rs|
      ensures p <= rs[x].start < rs[x].stop <= end
      ensures Holds(states[n].mem, rs[x].start, m[rs[x].start..rs[x].stop])
    {
      assert rs[x] in rs;
      TokensSurvive(states, tokens, end, ds, rs, n, x);
    }
    CellAfter(states, tokens, end, ds, rs, n, 0);
    forall k | 0 <= k < |m| && states[n].mem[k] != m[k]
      ensures p <= k < end && m[k] in ds && states[n].mem[k] == 0
    {
      CellAfter(states, tokens, end, ds, rs, n, k);
      CutIsDelimiter(m, p, end, ds, rs, n, k);
    }
  }

  // ---- the whole run, over memory alone ----

  /**
   A maximal non-empty run of cells of the text at p that are no characters of the
   delimiter string.
   */
  ghost predicate IsToken(m: seq<Cell>, p: nat, delimit: nat, a: nat, b: nat)
    requires Terminated(m, p) && Terminated(m, delimit)
  {
    && p <= a < b <= p + StrLen(m, p)
    && (forall k :: a <= k < b ==> !IsDelim(m, delimit, m[k]))
    && (a == p || IsDelim(m, delimit, m[a - 1]))
    && (b == p + StrLen(m, p) || IsDelim(m, delimit, m[b]))
  }

  lemma TokenIsRun(m: seq<Cell>, p: nat, delimit: nat, a: nat, b: nat)
    requires Terminated(m, p) && Terminated(m, delimit)
    ensures IsToken(m, p, delimit, a, b) <==> IsRun(m, p, p + StrLen(m, p), Delims(m, delimit), a, b)
  {
    forall k | 0 <= k < |m|
      ensures m[k] in Delims(m, delimit) <==> IsDelim(m, delimit, m[k])
    {
      DelimsAre(m, delimit, m[k]);
    }
  }

  /** rs lists exactly the tokens, from left to right. */
  ghost predicate ListsTokens(m: seq<Cell>, p: nat, delimit: nat, rs: seq<Run>)
    requires Terminated(m, p) && Terminated(m, delimit)
  {
    && (forall r :: r in rs ==> IsToken(m, p, delimit, r.start, r.stop))
    && (forall a: nat, b: nat :: IsToken(m, p, delimit, a, b) ==> Run(a, b) in rs)
    && (forall x, y :: 0 <= x < y < |rs| ==> rs[x].stop < rs[y].start)
  }

  lemma TokensAreRuns(m: seq<Cell>, p: nat, delimit: nat, rs: seq<Run>)
    requires Terminated(m, p) && Terminated(m, delimit)
    ensures ListsTokens(m, p, delimit, rs) <==> Lists(m, p, p + StrLen(m, p), Delims(m, delimit), rs)
  {
    forall a: nat, b: nat
      ensures IsToken(m, p, delimit, a, b) <==> IsRun(m, p, p + StrLen(m, p), Delims(m, delimit), a, b)
    {
      TokenIsRun(m, p, delimit, a, b);
    }
  }

  /** The delimiter string is a tail of the subject, longer than one character and right behind a token. */
  ghost predicate CutsItself(m: seq<Cell>, p: nat, delimit: nat)
    requires Terminated(m, p) && Terminated(m, delimit)
  {
    p < delimit && delimit + 1 < p + StrLen(m, p) && !IsDelim(m, delimit, m[delimit - 1])
  }

  /**
   The whole run, with nothing but memory in its statement: the calls return the
   tokens of the original string in order and then NULL if and only if the
   delimiter string does not cut itself; and then nothing but characters of that
   string that occur in the delimiter string is overwritten.
   */
  lemma TokensInOrder(states: seq<State>, tokens: seq<Ptr>, delimit: nat, rs: seq<Run>)
    requires IsTrace(states, tokens, delimit) && Ready(states[0], delimit) && |rs| < |tokens|
    requires ListsTokens(states[0].mem, states[0].pos, delimit, rs)
    ensures (forall x :: 0 <= x < |tokens| ==> tokens[x] == if x < |rs| then At(rs[x].start) else Null)
            <==> !CutsItself(states[0].mem, states[0].pos, delimit)
    ensures var m, m', p := states[0].mem, states[|tokens|].mem, states[0].pos;
            !CutsItself(m, p, delimit) ==>
              && |m'| == |m|
              && (forall k :: 0 <= k < |m| && m'[k] != m[k] ==>
                    p <= k < p + StrLen(m, p) && IsDelim(m, delimit, m[k]) && m'[k] == 0)
  {
    var m, p := states[0].mem, states[0].pos;
    TokensAreRuns(m, p, delimit, rs);
    RunIsRightExactly(states, tokens, delimit, rs);
    if p < delimit < |m| {
      DelimsAre(m, delimit, m[delimit - 1]);
    }
    if !CutsItself(m, p, delimit) {
      WholeRun(states, tokens, delimit, rs);
      forall k | 0 <= k < |m|
        ensures m[k] in Delims(m, delimit) <==> IsDelim(m, delimit, m[k])
      {
        DelimsAre(m, delimit, m[k]);
      }
    }
  }

  // ---- a delimiter string that is cut ----

  /** What Spoils says about the text up to end: q is its first delimiter of the tail. */
  ghost predicate TailAt(m: seq<Cell>, i: nat, end: nat, ds: set<Cell>, q: nat) {
    && i < q && q + 1 < end < |m|
    && m[q - 1] !in ds && forall k :: q <= k < end ==> m[k] in ds
  }

  lemma SpoilsIsTail(m: seq<Cell>, i: nat, delimit: nat)
    requires Terminated(m, i) && Terminated(m, delimit) && Spoils(m, i, delimit)
    ensures TailAt(m, i, i + StrLen(m, i), Delims(m, delimit), delimit)
    ensures i + StrLen(m, i) == delimit + StrLen(m, delimit)
  {
    SharedEnd(m, i, delimit, delimit);
    DelimitersIn(m, delimit);
  }

  /** The first run ends at the tail, or so far before it that the tail stays one. */
  lemma FirstRunBeforeTail(m: seq<Cell>, i: nat, end: nat, ds: set<Cell>, q: nat)
    requires TailAt(m, i, end, ds, q)
    ensures var j := Begin(m, i, end, ds);
            var e := Stop(m, j, end, ds);
            i <= j < e <= q && (e < q ==> e + 1 < q)
  {
    var j := Begin(m, i, end, ds);
    assert j <= q - 1;
    var e := Stop(m, j, end, ds);
    assert m[q] in ds;
    assert e <= q;
    assert m[j] !in ds && m[e] in ds;
  }

  /** It is the only one exactly if it ends at the tail. */
  lemma RunsBeforeTail(m: seq<Cell>, i: nat, end: nat, ds: set<Cell>, q: nat, rs: seq<Run>)
    requires TailAt(m, i, end, ds, q) && Lists(m, i, end, ds, rs)
    ensures rs != [] && rs[0].stop <= q && (|rs| == 1 <==> rs[0].stop == q)
    ensures TokUpTo(m, i, end, ds) == Step(At(rs[0].start), rs[0].stop + 1, m[rs[0].stop := 0])
    ensures |rs| > 1 ==> rs[0].stop + 1 < q
  {
    FirstRunBeforeTail(m, i, end, ds, q);
    FirstOfList(m, i, end, ds, rs);
    RestOfList(m, i, end, ds, rs);
    var e := rs[0].stop;
    FirstOfList(m, e + 1, end, ds, rs[1..]);
    if e == q {
      BeginUnique(m, e + 1, end, ds, end);
    } else {
      assert Begin(m, e + 1, end, ds) <= q - 1;
    }
  }

  /** With the delimiter string emptied, the next call returns what is left of it. */
  lemma NoDelimitersLeft(m: seq<Cell>, delimit: nat)
    requires delimit + 1 < |m| && m[delimit] == 0 && m[delimit + 1] != 0 && Terminated(m, delimit + 1)
    ensures Terminated(m, delimit) && Tok(m, delimit + 1, Delims(m, delimit)).token == At(delimit + 1)
  {
    assert StrLen(m, delimit) == 0;
    assert Delims(m, delimit) == {};
  }

  /** m will be spoilt from i on: the delimiter string at q is the tail of the text, which ends at end. */
  ghost predicate Tailed(m: seq<Cell>, i: nat, end: nat, ds: set<Cell>, q: nat) {
    && TailAt(m, i, end, ds, q) && IsLen(m, i, end - i)
    && Terminated(m, q) && q + StrLen(m, q) == end && Delims(m, q) == ds
  }

  /** Cells before i' do not matter for that. */
  lemma TailedFrame(m: seq<Cell>, m': seq<Cell>, i: nat, i': nat, end: nat, ds: set<Cell>, q: nat)
    requires Tailed(m, i, end, ds, q) && i <= i' < q && |m'| == |m|
    requires forall k :: i' <= k < |m| ==> m'[k] == m[k]
    ensures Tailed(m', i', end, ds, q)
  {
    HoldsFrame(m, m', q);
  }

  /** The same with the runs rs still to come. */
  ghost predicate Doomed(s: State, end: nat, ds: set<Cell>, q: nat, rs: seq<Run>) {
    Tailed(s.mem, s.pos, end, ds, q) && ListedIn(s, end, ds, rs)
  }

  /** A call before the last run stays before the tail. */
  lemma CallBeforeTail(s: State, token: Ptr, s': State, end: nat, ds: set<Cell>, q: nat, rs: seq<Run>)
    requires TailAt(s.mem, s.pos, end, ds, q) && ListedIn(s, end, ds, rs)
    requires CoreCall(s, token, s', end, ds)
    ensures rs != [] && |s'.mem| == |s.mem|
    ensures if |rs| == 1 then s'.pos == q + 1 && s'.mem == s.mem[q := 0] else s.pos <= s'.pos < q
    ensures forall k :: s'.pos <= k < |s.mem| ==> s'.mem[k] == s.mem[k]
  {
    RunsBeforeTail(s.mem, s.pos, end, ds, q, rs);
    assert rs[0] in rs;
  }

  lemma DoomedCall(s: State, token: Ptr, s': State, end: nat, ds: set<Cell>, q: nat)
    requires Tailed(s.mem, s.pos, end, ds, q) && Calls(s, token, s', q)
    ensures CoreCall(s, token, s', end, ds)
  {
    assert StrLen(s.mem, s.pos) == end - s.pos;
    CallIsCore(s, token, s', q, end, ds);
  }

  lemma DoomedGoesOn(s: State, token: Ptr, s': State, end: nat, ds: set<Cell>, q: nat, rs: seq<Run>)
    requires Doomed(s, end, ds, q, rs) && Calls(s, token, s', q)
    ensures rs != [] && (|rs| > 1 ==> Doomed(s', end, ds, q, rs[1..]))
  {
    DoomedCall(s, token, s', end, ds, q);
    CallBeforeTail(s, token, s', end, ds, q, rs);
    if |rs| > 1 {
      CoreCallTakesFirst(s, token, s', end, ds, rs);
      assert Left(rs, 1) == rs[1..];
      TailedFrame(s.mem, s'.mem, s.pos, s'.pos, end, ds, q);
    }
  }

  lemma DoomedEnds(s: State, token: Ptr, s': State, token': Ptr, s'': State,
                   end: nat, ds: set<Cell>, q: nat, rs: seq<Run>)
    requires Doomed(s, end, ds, q, rs) && |rs| == 1
    requires Calls(s, token, s', q) && Calls(s', token', s'', q)
    ensures token' == At(q + 1)
  {
    DoomedCall(s, token, s', end, ds, q);
    CallBeforeTail(s, token, s', end, ds, q, rs);
    NoDelimitersLeft(s'.mem, q);
  }

  /** From state n on, after the remaining runs, comes a token that is none of them. */
  lemma {:induction false} SpoiltRun(states: seq<State>, tokens: seq<Ptr>, end: nat, ds: set<Cell>, q: nat,
                                     rs: seq<Run>, n: nat)
    requires IsTrace(states, tokens, q) && n + |rs| < |tokens| && Doomed(states[n], end, ds, q, rs)
    ensures tokens[n + |rs|] == At(q + 1)
    decreases |rs|
  {
    var t := tokens[n];
    DoomedGoesOn(states[n], t, states[n + 1], end, ds, q, rs);
    if |rs| > 1 {
      SpoiltRun(states, tokens, end, ds, q, rs[1..], n + 1);
    } else {
      DoomedEnds(states[n], t, states[n + 1], tokens[n + 1], states[n + 2], end, ds, q, rs);
    }
  }

  /** Subject "x,;" with the delimiters ",;" at its end: the second call returns ";". */
  lemma SpoiltExample()
    ensures var m: seq<Cell> := [120, 44, 59, 0];
            Terminated(m, 0) && Terminated(m, 1) && Spoils(m, 0, 1)
  {
    var m: seq<Cell> := [120, 44, 59, 0];
    assert m[3] == 0;
    assert IsLen(m, 0, 3) && IsLen(m, 1, 2);
    assert StrLen(m, 0) == 3 && StrLen(m, 1) == 2;
    assert Text(m, 1) == [44, 59];
  }

  /**
   Exactly when the whole run is right: for every run longer than its tokens, the
   calls return the runs and then NULL if and only if the delimiter string does
   not spoil it.
   */
  lemma RunIsRightExactly(states: seq<State>, tokens: seq<Ptr>, delimit: nat, rs: seq<Run>)
    requires IsTrace(states, tokens, delimit) && Ready(states[0], delimit) && |rs| < |tokens|
    requires Lists(states[0].mem, states[0].pos, states[0].pos + StrLen(states[0].mem, states[0].pos),
                   Delims(states[0].mem, delimit), rs)
    ensures (forall x :: 0 <= x < |tokens| ==> tokens[x] == if x < |rs| then At(rs[x].start) else Null)
            <==> !Spoils(states[0].mem, states[0].pos, delimit)
  {
    if Spoils(states[0].mem, states[0].pos, delimit) {
      var s := states[0];
      SpoilsIsTail(s.mem, s.pos, delimit);
      SpoiltRun(states, tokens, s.pos + StrLen(s.mem, s.pos), Delims(s.mem, delimit), delimit, rs, 0);
    } else {
      WholeRun(states, tokens, delimit, rs);
    }
  }

  // ---- runs of the code ----

  lemma TraceGrows(states: seq<State>, tokens: seq<Ptr>, delimit: nat, token: Ptr, s': State)
    requires IsTrace(states, tokens, delimit) && Calls(states[|tokens|], token, s', delimit)
    ensures IsTrace(states + [s'], tokens + [token], delimit)
  {
    var ss, ts := states + [s'], tokens + [token];
    forall x {:trigger ts[x]} | 0 <= x < |ts|
      ensures Calls(ss[x], ts[x], ss[x + 1], delimit)
    {
      if x < |tokens| {
        assert Calls(states[x], tokens[x], states[x + 1], delimit);
      }
    }
  }

  /** One call of strtok_s, as a step of a run. */
  method CallNext(mem: array<Cell>, token: Ptr, delimit: nat, context: Context, ghost s: State)
    returns (r: Ptr, ghost s': State)
    requires s.mem == mem[..] && Ready(s, delimit)
    requires token == At(s.pos) || (token == Null && context.pos == At(s.pos))
    modifies mem, context
    ensures Calls(s, r, s', delimit) && Ready(s', delimit) && s'.mem == mem[..] && context.pos == At(s'.pos)
  {
    StepEnds(mem[..], s.pos, delimit);
    r := StrtokS(mem, token, At(delimit), context);
    s' := State(mem[..], context.pos.addr);
  }

  /** A first call on a string and n calls on NULL make a run, to which every result above applies. */
  method TokenRun(mem: array<Cell>, start: nat, delimit: nat, context: Context, n: nat)
    returns (tokens: seq<Ptr>, ghost states: seq<State>)
    requires Terminated(mem[..], start) && Terminated(mem[..], delimit)
    modifies mem, context
    ensures IsTrace(states, tokens, delimit) && |tokens| == n + 1
    ensures states[0] == State(old(mem[..]), start)
    ensures states[n + 1].mem == mem[..] && context.pos == At(states[n + 1].pos)
  {
    ghost var s := State(mem[..], start);
    states := [s];
    var r;
    r, s := CallNext(mem, At(start), delimit, context, s);
    tokens := [r];
    TraceGrows(states, [], delimit, r, s);
    states := states + [s];
    for i := 0 to n
      invariant IsTrace(states, tokens, delimit) && |tokens| == i + 1
      invariant states[0] == State(old(mem[..]), start) && states[i + 1] == s
      invariant Ready(s, delimit) && s.mem == mem[..] && context.pos == At(s.pos)
    {
      ghost var s';
      r, s' := CallNext(mem, Null, delimit, context, s);
      TraceGrows(states, tokens, delimit, r, s');
      states, tokens, s := states + [s'], tokens + [r], s';
    }
  }
}
