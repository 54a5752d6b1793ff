/**
 The table shipped for the murata,ncp15xh103 thermistor, one entry per degree
 from -40 to 125: it meets what the theorems of Ntc ask of a table.
 */
module NtcTable {
  import opened Basics
  import opened Ntc

  ghost predicate Step(s: seq<nat>, i: nat) {
    0 < i < |s| ==> s[i - 1] > s[i]
  }

  /** Strictly falling from hi to lo, one entry to the next. */
  ghost predicate Falls(s: seq<nat>, hi: nat, lo: nat) {
    && s != [] && s[0] == hi && s[|s| - 1] == lo
    && forall i: nat :: Step(s, i)
  }

  lemma Join(a: seq<nat>, b: seq<nat>, hi: nat, mid: nat, mid': nat, lo: nat)
    requires Falls(a, hi, mid) && Falls(b, mid', lo) && mid > mid'
    ensures Falls(a + b, hi, lo)
  {
    forall i: nat
      ensures Step(a + b, i)
    {
      assert Step(a, i);
      if i > |a| {
        assert Step(b, i - |a|);
      }
    }
  }

  /** Then every later entry is smaller. */
  lemma {:induction false} FallsFar(s: seq<nat>, hi: nat, lo: nat, i: nat, j: nat)
    requires Falls(s, hi, lo) && i < j < |s|
    ensures s[i] > s[j]
    decreases j
  {
    assert Step(s, j);
    if i < j - 1 {
      FallsFar(s, hi, lo, i, j - 1);
    }
  }

  // ---- resistances in ohms, twenty-one degrees a row ----

  function Row0(): seq<nat> {
    [195652, 184917, 174845, 165391, 156513, 148171, 140330, 132958, 126022, 119494, 113347,
     107565, 102116, 96978, 92132, 87559, 83242, 79166, 75316, 71677, 68237]
  }

  function Row1(): seq<nat> {
    [64991, 61919, 59011, 56258, 53650, 51178, 48835, 46613, 44506, 42506, 40600,
     38791, 37073, 35442, 33892, 32420, 31020, 29689, 28423, 27219, 26076]
  }

  function Row2(): seq<nat> {
    [24988, 23951, 22963, 22021, 21123, 20267, 19450, 18670, 17926, 17214, 16534,
     15886, 15266, 14674, 14108, 13566, 13049, 12554, 12081, 11628, 11195]
  }

  function Row3(): seq<nat> {
    [10780, 10382, 10000, 9634, 9284, 8947, 8624, 8315, 8018, 7734, 7461,
     7199, 6948, 6707, 6475, 6253, 6039, 5834, 5636, 5445, 5262]
  }

  function Row4(): seq<nat> {
    [5086, 4917, 4754, 4597, 4446, 4301, 4161, 4026, 3896, 3771, 3651,
     3535, 3423, 3315, 3211, 3111, 3014, 2922, 2834, 2748, 2666]
  }

  function Row5(): seq<nat> {
    [2586, 2509, 2435, 2364, 2294, 2228, 2163, 2100, 2040, 1981, 1925,
     1870, 1817, 1766, 1716, 1669, 1622, 1578, 1535, 1493, 1452]
  }

  function Row6(): seq<nat> {
    [1413, 1375, 1338, 1303, 1268, 1234, 1202, 1170, 1139, 1110, 1081,
     1053, 1026, 999, 974, 949, 925, 902, 880, 858, 837]
  }

  function Row7(): seq<nat> {
    [816, 796, 777, 758, 740, 722, 705, 688, 672, 656, 640,
     625, 611, 596, 583, 569, 556, 544, 531]
  }


  lemma Row0Falls()
    ensures |Row0()| == 21 && Falls(Row0(), 195652, 68237)
  {
  }

  lemma Row1Falls()
    ensures |Row1()| == 21 && Falls(Row1(), 64991, 26076)
  {
  }

  lemma Row2Falls()
    ensures |Row2()| == 21 && Falls(Row2(), 24988, 11195)
  {
  }

  lemma Row3Falls()
    ensures |Row3()| == 21 && Falls(Row3(), 10780, 5262)
  {
  }

  lemma Row4Falls()
    ensures |Row4()| == 21 && Falls(Row4(), 5086, 2666)
  {
  }

  lemma Row5Falls()
    ensures |Row5()| == 21 && Falls(Row5(), 2586, 1452)
  {
  }

  lemma Row6Falls()
    ensures |Row6()| == 21 && Falls(Row6(), 1413, 837)
  {
  }

  lemma Row7Falls()
    ensures |Row7()| == 19 && Falls(Row7(), 816, 531)
  {
  }

  function UpTo1(): seq<nat> { Row0() + Row1() }
  function UpTo2(): seq<nat> { UpTo1() + Row2() }
  function UpTo3(): seq<nat> { UpTo2() + Row3() }
  function UpTo4(): seq<nat> { UpTo3() + Row4() }
  function UpTo5(): seq<nat> { UpTo4() + Row5() }
  function UpTo6(): seq<nat> { UpTo5() + Row6() }
  function UpTo7(): seq<nat> { UpTo6() + Row7() }

  lemma UpTo1Falls()
    ensures |UpTo1()| == 42 && Falls(UpTo1(), 195652, 26076)
  {
    Row0Falls();
    Row1Falls();
    Join(Row0(), Row1(), 195652, 68237, 64991, 26076);
  }

  lemma UpTo2Falls()
    ensures |UpTo2()| == 63 && Falls(UpTo2(), 195652, 11195)
  {
    UpTo1Falls();
    Row2Falls();
    Join(UpTo1(), Row2(), 195652, 26076, 24988, 11195);
  }

  lemma UpTo3Falls()
    ensures |UpTo3()| == 84 && Falls(UpTo3(), 195652, 5262)
  {
    UpTo2Falls();
    Row3Falls();
    Join(UpTo2(), Row3(), 195652, 11195, 10780, 5262);
  }

  lemma UpTo4Falls()
    ensures |UpTo4()| == 105 && Falls(UpTo4(), 195652, 2666)
  {
    UpTo3Falls();
    Row4Falls();
    Join(UpTo3(), Row4(), 195652, 5262, 5086, 2666);
  }

  lemma UpTo5Falls()
    ensures |UpTo5()| == 126 && Falls(UpTo5(), 195652, 1452)
  {
    UpTo4Falls();
    Row5Falls();
    Join(UpTo4(), Row5(), 195652, 2666, 2586, 1452);
  }

  lemma UpTo6Falls()
    ensures |UpTo6()| == 147 && Falls(UpTo6(), 195652, 837)
  {
    UpTo5Falls();
    Row6Falls();
    Join(UpTo5(), Row6(), 195652, 1452, 1413, 837);
  }

  lemma UpTo7Falls()
    ensures |UpTo7()| == 166 && Falls(UpTo7(), 195652, 531)
  {
    UpTo6Falls();
    Row7Falls();
    Join(UpTo6(), Row7(), 195652, 837, 816, 531);
  }

  // ---- the table ----

  /** One entry per degree from -40 on. */
  function TableOf(s: seq<nat>): (t: seq<Comp>)
    ensures |t| == |s| && forall i :: 0 <= i < |s| ==> t[i] == Comp(i - 40, s[i])
  {
    seq(|s|, i requires 0 <= i < |s| => Comp(i - 40, s[i]))
  }

  lemma FallingIsTable(s: seq<nat>, hi: nat, lo: nat)
    requires Falls(s, hi, lo)
    ensures IsTable(TableOf(s))
  {
    forall i, j | 0 <= i < j < |s|
      ensures s[i] > s[j]
    {
      FallsFar(s, hi, lo, i, j);
    }
  }

  lemma FallingFits32(s: seq<nat>, hi: nat, lo: nat)
    requires Falls(s, hi, lo) && hi <= 1_000_000 && |s| <= 1000
    ensures Fits32(TableOf(s))
  {
    var t := TableOf(s);
    forall i | 0 <= i < |s|
      ensures s[i] <= hi
    {
      if i > 0 {
        FallsFar(s, hi, lo, 0, i);
      }
    }
    forall i | 0 < i < |t|
      ensures (t[i].tempC - t[i - 1].tempC) * TEMPERATURE_COEFF * (t[i - 1].ohm - t[i].ohm) <= INT_MAX
    {
      assert t[i].tempC - t[i - 1].tempC == 1 && t[i - 1].ohm <= hi;
    }
  }

  /** ncp_XXxh103. */
  function Shipped(): seq<Comp> { TableOf(UpTo7()) }

  /**
   The shipped table is ordered as the lookup needs, no interpolation in it
   overflows, and it spans -40 to 125 degrees: every theorem about tables applies.
   */
  lemma ShippedIsTable()
    ensures IsTable(Shipped()) && Fits32(Shipped()) && |Shipped()| == 166
    ensures Shipped()[0] == Comp(-40, 195652) && Shipped()[165] == Comp(125, 531)
  {
    UpTo7Falls();
    FallingIsTable(UpTo7(), 195652, 531);
    FallingFits32(UpTo7(), 195652, 531);
  }

  /** What the sensor reports with this table lies between -40 and 125 degrees. */
  lemma ShippedRange(pullupUv: nat, pullupOhm: nat, data0: byte, data1: byte)
    ensures IsTable(Shipped())
    ensures var r := Report(pullupUv, pullupOhm, Shipped(), data0, data1);
            r.Some? ==> -40_000 <= r.value <= 125_000
  {
    ShippedIsTable();
    ReportAntitone(pullupUv, pullupOhm, Shipped(), data0, data1, data0, data1);
  }

  /** g_ntc_thermistor_id. */
  function ShippedSensors(): seq<Sensor> {
    [Sensor("murata,ncp15xh103", Some(Shipped())), Sensor("", None)]
  }

  /**
   Against the shipped list, the one name leads to the shipped table, the empty
   name to none, even over a table known before, and any other name changes nothing.
   */
  lemma ShippedNames(name: string, known: Option<seq<Comp>>)
    ensures AreTables(ShippedSensors())
    ensures TableAfter(ShippedSensors(), name, known) ==
            if name == "murata,ncp15xh103" then Some(Shipped()) else if name == "" then None else known
  {
    ShippedIsTable();
    var all := ShippedSensors();
    assert all[1..] == [Sensor("", None)] && all[1..][1..] == [];
  }
}
