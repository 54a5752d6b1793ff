/**
 Whole runs of strcpy_s, strncpy_s, strcat_s and strncat_s on one destination
 buffer.  Sources are arbitrary pointers: they may overlap the buffer and each
 other, and may see what earlier calls wrote.
 */
module StringRuns {
  import opened Basics
  import opened Memory
  import opened MemOps
  import opened CopyStrings
  import opened CatStrings

  datatype Op =
    | Cpy(src: nat) | Ncpy(src: nat, count: nat)
    | Cat(src: nat) | Ncat(src: nat, count: nat)
  {
    predicate Appends() { Cat? || Ncat? }

    /** The part of source text s this call transfers. */
    ghost function Piece(s: seq<Cell>): (u: seq<Cell>)
      ensures u <= s
    {
      if Ncpy? || Ncat? then Prefix(s, count) else s
    }

    predicate CountOk(cap: nat) { Ncpy? || Ncat? ==> count <= cap }
  }

  /** A buffer of legal size inside memory whose text ends within it. */
  ghost predicate Ready(cap: nat, m: seq<Cell>, d: nat, destMax: nat) {
    SizeOk(cap, destMax) && d + destMax <= |m| && EndsWithin(m, d, destMax)
  }

  ghost function Call(cap: nat, m: seq<Cell>, d: nat, destMax: nat, op: Op): Outcome
    requires Ready(cap, m, d, destMax) && Terminated(m, op.src)
  {
    match op
    case Cpy(s) => CpySpec(cap, m, At(d), destMax, At(s))
    case Ncpy(s, n) => NcpySpec(cap, m, At(d), destMax, At(s), n)
    case Cat(s) => CatSpec(cap, m, At(d), destMax, At(s))
    case Ncat(s, n) => NcatSpec(cap, m, At(d), destMax, At(s), n)
  }

  // ---- the abstract machine on texts ----

  /** One call as the machine sees it: its source text, and whether source and result meet. */
  datatype Event = Event(op: Op, source: seq<Cell>, meets: bool)

  /** Apply the operation if it fits and does not overlap, otherwise become empty. */
  ghost function Apply(cap: nat, destMax: nat, t: seq<Cell>, e: Event): seq<Cell> {
    var u := e.op.Piece(e.source);
    var result := if e.op.Appends() then t + u else u;
    if !e.meets && e.op.CountOk(cap) && |result| < destMax then result else []
  }

  ghost function Machine(cap: nat, destMax: nat, t: seq<Cell>, events: seq<Event>): seq<Cell>
    decreases |events|
  {
    if events == [] then t else Machine(cap, destMax, Apply(cap, destMax, t, events[0]), events[1..])
  }

  /** Source and result meet, in the sense of the call's own overlap rule. */
  ghost predicate Meets(m: seq<Cell>, d: nat, op: Op)
    requires Terminated(m, d) && Terminated(m, op.src)
  {
    var t, s := StrLen(m, d), StrLen(m, op.src);
    match op
    case Cpy(src) => StringClash(d, src, s)
    case Ncpy(src, n) => n > 0 && StringClash(d, src, Min(n, s))
    case Cat(src) => !Disjoint(d + t, s + 1, src, s + 1)
    case Ncat(src, n) => d == src || CatIsOverlap(d, t, src, Min(n, s))
  }

  // ---- one call ----

  /** The call keeps the buffer ready, follows the machine, and writes nowhere else. */
  ghost predicate Follows(cap: nat, m: seq<Cell>, d: nat, destMax: nat, op: Op)
    requires Ready(cap, m, d, destMax) && Terminated(m, op.src)
  {
    var m' := Call(cap, m, d, destMax, op).mem;
    && Ready(cap, m', d, destMax)
    && Text(m', d) == Apply(cap, destMax, Text(m, d), Event(op, Text(m, op.src), Meets(m, d, op)))
    && |m'| == |m|
    && forall k :: 0 <= k < |m| && !Within(k, d, destMax) ==> m'[k] == m[k]
  }

  lemma CpyFollows(cap: nat, m: seq<Cell>, d: nat, destMax: nat, s: nat)
    requires Ready(cap, m, d, destMax) && Terminated(m, s)
    ensures Follows(cap, m, d, destMax, Cpy(s))
  {
    CpyMeaning(cap, m, At(d), destMax, At(s));
  }

  lemma NcpyFollows(cap: nat, m: seq<Cell>, d: nat, destMax: nat, s: nat, n: nat)
    requires Ready(cap, m, d, destMax) && Terminated(m, s)
    ensures Follows(cap, m, d, destMax, Ncpy(s, n))
  {
    NcpyMeaning(cap, m, At(d), destMax, At(s), n);
  }

  lemma CatFollows(cap: nat, m: seq<Cell>, d: nat, destMax: nat, s: nat)
    requires Ready(cap, m, d, destMax) && Terminated(m, s)
    ensures Follows(cap, m, d, destMax, Cat(s))
  {
    CatMeaning(cap, m, At(d), destMax, At(s));
  }

  lemma NcatFollows(cap: nat, m: seq<Cell>, d: nat, destMax: nat, s: nat, n: nat)
    requires Ready(cap, m, d, destMax) && Terminated(m, s)
    ensures Follows(cap, m, d, destMax, Ncat(s, n))
  {
    NcatMeaning(cap, m, At(d), destMax, At(s), n);
  }

  lemma CallFollowsMachine(cap: nat, m: seq<Cell>, d: nat, destMax: nat, op: Op)
    requires Ready(cap, m, d, destMax) && Terminated(m, op.src)
    ensures Follows(cap, m, d, destMax, op)
  {
    match op
    case Cpy(s) => CpyFollows(cap, m, d, destMax, s);
    case Ncpy(s, n) => NcpyFollows(cap, m, d, destMax, s, n);
    case Cat(s) => CatFollows(cap, m, d, destMax, s);
    case Ncat(s, n) => NcatFollows(cap, m, d, destMax, s, n);
  }

  // ---- whole runs ----

  /** Every source is a string at the time it is used. */
  ghost predicate Runnable(cap: nat, m: seq<Cell>, d: nat, destMax: nat, ops: seq<Op>)
    decreases |ops|
  {
    Ready(cap, m, d, destMax) &&
    (ops != [] ==>
       Terminated(m, ops[0].src) && Runnable(cap, Call(cap, m, d, destMax, ops[0]).mem, d, destMax, ops[1..]))
  }

  ghost function Exec(cap: nat, m: seq<Cell>, d: nat, destMax: nat, ops: seq<Op>): seq<Cell>
    requires Runnable(cap, m, d, destMax, ops)
    decreases |ops|
  {
    if ops == [] then m else Exec(cap, Call(cap, m, d, destMax, ops[0]).mem, d, destMax, ops[1..])
  }

  /** What the machine is told about each call of the run. */
  ghost function Observed(cap: nat, m: seq<Cell>, d: nat, destMax: nat, ops: seq<Op>): seq<Event>
    requires Runnable(cap, m, d, destMax, ops)
    decreases |ops|
  {
    if ops == [] then []
    else [Event(ops[0], Text(m, ops[0].src), Meets(m, d, ops[0]))]
         + Observed(cap, Call(cap, m, d, destMax, ops[0]).mem, d, destMax, ops[1..])
  }

  /**
   Any run, of any length, with any overlaps: the buffer stays terminated within
   destMax, its text is what the machine computes, and no cell outside it changes.
   */
  lemma {:induction false} RunFollowsMachine(cap: nat, m: seq<Cell>, d: nat, destMax: nat, ops: seq<Op>)
    requires Runnable(cap, m, d, destMax, ops)
    ensures var m' := Exec(cap, m, d, destMax, ops);
            && Ready(cap, m', d, destMax)
            && Text(m', d) == Machine(cap, destMax, Text(m, d), Observed(cap, m, d, destMax, ops))
            && |m'| == |m|
            && forall k :: 0 <= k < |m| && !Within(k, d, destMax) ==> m'[k] == m[k]
    decreases |ops|
  {
    if ops != [] {
      CallFollowsMachine(cap, m, d, destMax, ops[0]);
      var m1 := Call(cap, m, d, destMax, ops[0]).mem;
      RunFollowsMachine(cap, m1, d, destMax, ops[1..]);
      assert Observed(cap, m, d, destMax, ops)[1..] == Observed(cap, m1, d, destMax, ops[1..]);
    }
  }

  /** A store of text and terminator that reaches the last cell of memory leaves a terminator there. */
  lemma PutKeepsLast(m: seq<Cell>, at: nat, u: seq<Cell>)
    requires at + |u| < |m| && m[|m| - 1] == 0
    ensures Put(m, at, u + [0])[|m| - 1] == 0
  {
  }

  ghost predicate EndsInNul(m: seq<Cell>, m': seq<Cell>) {
    |m'| == |m| > 0 && m'[|m| - 1] == 0
  }

  lemma CpyKeepsLast(cap: nat, m: seq<Cell>, d: nat, destMax: nat, s: nat)
    requires Ready(cap, m, d, destMax) && Terminated(m, s) && m[|m| - 1] == 0
    ensures EndsInNul(m, Call(cap, m, d, destMax, Cpy(s)).mem)
  {
    if Call(cap, m, d, destMax, Cpy(s)).rc == EOK {
      PutKeepsLast(m, d, Text(m, s));
    }
  }

  lemma NcpyKeepsLast(cap: nat, m: seq<Cell>, d: nat, destMax: nat, s: nat, n: nat)
    requires Ready(cap, m, d, destMax) && Terminated(m, s) && m[|m| - 1] == 0
    ensures EndsInNul(m, Call(cap, m, d, destMax, Ncpy(s, n)).mem)
  {
    if Call(cap, m, d, destMax, Ncpy(s, n)).rc == EOK {
      PutKeepsLast(m, d, Prefix(Text(m, s), n));
    }
  }

  lemma CatKeepsLast(cap: nat, m: seq<Cell>, d: nat, destMax: nat, s: nat)
    requires Ready(cap, m, d, destMax) && Terminated(m, s) && m[|m| - 1] == 0
    ensures EndsInNul(m, Call(cap, m, d, destMax, Cat(s)).mem)
  {
    if Call(cap, m, d, destMax, Cat(s)).rc == EOK {
      PutKeepsLast(m, d + TextLen(m, d, destMax), Text(m, s));
    }
  }

  lemma NcatKeepsLast(cap: nat, m: seq<Cell>, d: nat, destMax: nat, s: nat, n: nat)
    requires Ready(cap, m, d, destMax) && Terminated(m, s) && m[|m| - 1] == 0
    ensures EndsInNul(m, Call(cap, m, d, destMax, Ncat(s, n)).mem)
  {
    if Call(cap, m, d, destMax, Ncat(s, n)).rc == EOK {
      PutKeepsLast(m, d + TextLen(m, d, destMax), Prefix(Text(m, s), n));
    }
  }

  /** No call stores anything but a terminator into the last cell of memory. */
  lemma LastCellStaysNul(cap: nat, m: seq<Cell>, d: nat, destMax: nat, op: Op)
    requires Ready(cap, m, d, destMax) && Terminated(m, op.src) && m[|m| - 1] == 0
    ensures EndsInNul(m, Call(cap, m, d, destMax, op).mem)
  {
    match op
    case Cpy(s) => CpyKeepsLast(cap, m, d, destMax, s);
    case Ncpy(s, n) => NcpyKeepsLast(cap, m, d, destMax, s, n);
    case Cat(s) => CatKeepsLast(cap, m, d, destMax, s);
    case Ncat(s, n) => NcatKeepsLast(cap, m, d, destMax, s, n);
  }

  /** In a memory that ends with a terminator every list of calls is a run. */
  lemma {:induction false} AlwaysRunnable(cap: nat, m: seq<Cell>, d: nat, destMax: nat, ops: seq<Op>)
    requires Ready(cap, m, d, destMax) && m[|m| - 1] == 0
    requires forall op :: op in ops ==> op.src < |m|
    ensures Runnable(cap, m, d, destMax, ops)
    decreases |ops|
  {
    if ops != [] {
      assert ops[0] in ops;
      CallFollowsMachine(cap, m, d, destMax, ops[0]);
      LastCellStaysNul(cap, m, d, destMax, ops[0]);
      AlwaysRunnable(cap, Call(cap, m, d, destMax, ops[0]).mem, d, destMax, ops[1..]);
    }
  }

  // ---- sources away from the buffer ----

  ghost predicate Apart(m: seq<Cell>, d: nat, destMax: nat, src: nat) {
    Terminated(m, src) && Disjoint(d, destMax, src, StrLen(m, src) + 1)
  }

  /** The events read off the initial memory alone. */
  ghost function Planned(m: seq<Cell>, ops: seq<Op>): seq<Event>
    requires forall op :: op in ops ==> Terminated(m, op.src)
  {
    if ops == [] then [] else [Event(ops[0], Text(m, ops[0].src), false)] + Planned(m, ops[1..])
  }

  /** A source apart from the buffer keeps its text, and meets no result that fits. */
  lemma ApartIsStable(cap: nat, m: seq<Cell>, d: nat, destMax: nat, op: Op, src: nat)
    requires Ready(cap, m, d, destMax) && Terminated(m, op.src) && Apart(m, d, destMax, src)
    ensures var m' := Call(cap, m, d, destMax, op).mem;
            Apart(m', d, destMax, src) && Text(m', src) == Text(m, src)
  {
    CallFollowsMachine(cap, m, d, destMax, op);
    HoldsFrame(m, Call(cap, m, d, destMax, op).mem, src);
  }

  lemma ApartMeetsNothing(cap: nat, m: seq<Cell>, d: nat, destMax: nat, op: Op)
    requires Ready(cap, m, d, destMax) && Apart(m, d, destMax, op.src)
    ensures Apply(cap, destMax, Text(m, d), Event(op, Text(m, op.src), Meets(m, d, op)))
         == Apply(cap, destMax, Text(m, d), Event(op, Text(m, op.src), false))
  {
  }

  /**
   With all sources apart from the buffer the final text is a function of the
   initial texts only: the machine runs without looking at memory again.
   */
  lemma {:induction false} ApartRun(cap: nat, m: seq<Cell>, d: nat, destMax: nat, ops: seq<Op>)
    requires Ready(cap, m, d, destMax)
    requires forall op :: op in ops ==> Terminated(m, op.src) && Apart(m, d, destMax, op.src)
    ensures Runnable(cap, m, d, destMax, ops)
    ensures Holds(Exec(cap, m, d, destMax, ops), d, Machine(cap, destMax, Text(m, d), Planned(m, ops)))
    decreases |ops|
  {
    if ops != [] {
      var op := ops[0];
      assert op in ops;
      CallFollowsMachine(cap, m, d, destMax, op);
      ApartMeetsNothing(cap, m, d, destMax, op);
      var m1 := Call(cap, m, d, destMax, op).mem;
      forall later | later in ops[1..]
        ensures Apart(m1, d, destMax, later.src) && Text(m1, later.src) == Text(m, later.src)
      {
        assert later in ops;
        ApartIsStable(cap, m, d, destMax, op, later.src);
      }
      ApartRun(cap, m1, d, destMax, ops[1..]);
      PlannedFrame(m, m1, ops[1..]);
      assert Planned(m, ops)[1..] == Planned(m, ops[1..]);
    }
  }

  lemma {:induction false} PlannedFrame(m: seq<Cell>, m1: seq<Cell>, ops: seq<Op>)
    requires forall op :: op in ops ==>
               Terminated(m, op.src) && Terminated(m1, op.src) && Text(m1, op.src) == Text(m, op.src)
    ensures Planned(m1, ops) == Planned(m, ops)
  {
    if ops != [] {
      assert ops[0] in ops;
      PlannedFrame(m, m1, ops[1..]);
    }
  }
}
