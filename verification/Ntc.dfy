/**
 The NTC temperature path: two ADC bytes, a 12-bit value, millivolts,
 thermistor ohms, a bisection in the compensation table and a linear
 interpolation.  Division is C's, which truncates towards zero.
 */
module Ntc {
  import opened Basics

  const INT_MAX := 0x7fffffff
  const UINT_MAX := 0xffffffff
  const TEMPERATURE_COEFF := 1000
  const MICRO_VOLT := 1000
  const HKADC_VREF_1V8 := 1800
  const HKADC_ACCURACY := 0xFFF

  datatype Comp = Comp(tempC: int, ohm: nat)

  /** A compensation table: ohms strictly descending, temperatures strictly ascending. */
  ghost predicate IsTable(t: seq<Comp>) {
    && t != []
    && forall i, j :: 0 <= i < j < |t| ==> t[i].ohm > t[j].ohm && t[i].tempC < t[j].tempC
  }

  // ---- integer division ----

  /** C division for a positive divisor. */
  function TruncDiv(a: int, b: int): (q: int)
    requires b > 0
  {
    if a >= 0 then a / b else -((-a) / b)
  }

  /** The two sides of a floor. */
  lemma FloorBounds(a: int, b: int)
    requires b > 0
    ensures (a / b) * b <= a < (a / b + 1) * b
  {
  }

  lemma FloorAtLeast(a: int, b: int, q: int)
    requires b > 0 && q * b <= a
    ensures q <= a / b
  {
    FloorBounds(a, b);
    if a / b < q {
      MulLe(a / b + 1, q, b);
    }
  }

  lemma FloorAtMost(a: int, b: int, q: int)
    requires b > 0 && a <= q * b
    ensures a / b <= q
  {
    FloorBounds(a, b);
    if q < a / b {
      MulLe(q + 1, a / b, b);
    }
  }

  lemma MulLe(x: int, y: int, z: int)
    requires x <= y && 0 <= z
    ensures x * z <= y * z
  {
  }

  /** A quotient grows with its dividend and shrinks with its divisor. */
  lemma FloorMonotone(a: nat, b: nat, a': nat, b': nat)
    requires a <= a' && 0 < b' <= b
    ensures a / b <= a' / b'
  {
    FloorBounds(a, b);
    assert 0 <= a / b by { FloorAtLeast(a, b, 0); }
    MulLe(b', b, a / b);
    FloorAtLeast(a', b', a / b);
  }

  // ---- ADC ----

  /** The 12-bit value assembled from the two data registers. */
  function Raw(data0: byte, data1: byte): (r: nat)
    ensures r == (data1 * 256 + data0) / 16 && r <= 0xFFF
  {
    data1 * 16 + data0 / 16
  }

  /** The source's shifts and masks compute Raw. */
  lemma RawBits(data0: bv32, data1: bv32)
    requires data0 < 256 && data1 < 256
    ensures ((data1 << 4) & 0x0FF0) | ((data0 >> 4) & 0x000F) == data1 * 16 + data0 / 16
  {
  }

  function MilliVolts(raw: nat): (mv: nat)
    ensures raw <= 0xFFF ==> mv * HKADC_ACCURACY <= raw * HKADC_VREF_1V8 < (mv + 1) * HKADC_ACCURACY
  {
    (raw % 0x1000) * HKADC_VREF_1V8 / HKADC_ACCURACY
  }

  // ---- thermistor ----

  function Div64Safe(dividend: nat, divisor: nat): nat {
    if divisor == 0 && dividend == 0 then 0
    else if divisor == 0 then UINT_MAX
    else dividend / divisor
  }

  /** get_ohm_of_thermistor; INT_MAX means failure. */
  function OhmOf(pullupUv: nat, pullupOhm: nat, mv: nat): (ohm: nat)
    ensures ohm <= INT_MAX
  {
    var pmv := pullupUv / MICRO_VOLT;
    if mv == 0 then 0
    else if mv >= pmv then INT_MAX
    else
      var n := Div64Safe(pullupOhm * mv, pmv - mv);
      if n > INT_MAX then INT_MAX else n
  }

  /** No 64-bit product overflows for 32-bit inputs. */
  lemma OhmFits64(pullupOhm: nat, mv: nat)
    requires pullupOhm <= UINT_MAX && mv <= UINT_MAX
    ensures pullupOhm * mv < 0x1_0000_0000_0000_0000
  {
    MulLe(pullupOhm, UINT_MAX, mv);
  }

  /** R ohms against the pull-up divide pmv down to at most mv. */
  ghost predicate DividesToAtMost(r: nat, pmv: nat, pullupOhm: nat, mv: nat) {
    r * pmv <= mv * (pullupOhm + r)
  }

  /** A reported resistance is the largest one whose divider voltage does not exceed mv. */
  lemma OhmIsTight(pullupUv: nat, pullupOhm: nat, mv: nat, r: nat)
    requires 0 < mv < pullupUv / MICRO_VOLT
    requires OhmOf(pullupUv, pullupOhm, mv) < INT_MAX
    ensures DividesToAtMost(r, pullupUv / MICRO_VOLT, pullupOhm, mv) <==> r <= OhmOf(pullupUv, pullupOhm, mv)
  {
    var pmv, d := pullupUv / MICRO_VOLT, pullupUv / MICRO_VOLT - mv;
    var n := (pullupOhm * mv) / d;
    assert r * pmv == r * d + r * mv;
    assert mv * (pullupOhm + r) == pullupOhm * mv + r * mv;
    FloorBounds(pullupOhm * mv, d);
    if r <= n {
      MulLe(r, n, d);
    } else {
      MulLe(n + 1, r, d);
    }
  }

  /** More voltage is more resistance; a failure stays one. */
  lemma OhmMonotone(pullupUv: nat, pullupOhm: nat, mv: nat, mv': nat)
    requires mv <= mv'
    ensures OhmOf(pullupUv, pullupOhm, mv) <= OhmOf(pullupUv, pullupOhm, mv')
  {
    var pmv := pullupUv / MICRO_VOLT;
    if 0 < mv && mv' < pmv {
      MulLe(mv, mv', pullupOhm);
      FloorMonotone(pullupOhm * mv, pmv - mv, pullupOhm * mv', pmv - mv');
    }
  }

  // ---- table lookup ----

  /** low is the first entry whose resistance does not exceed ohm. */
  ghost predicate IsLow(t: seq<Comp>, ohm: nat, low: nat) {
    low < |t| && t[low].ohm <= ohm && forall i :: 0 <= i < low ==> t[i].ohm > ohm
  }

  /** ohm lies strictly between the extreme entries. */
  ghost predicate Interior(t: seq<Comp>, ohm: nat)
    requires t != []
  {
    t[|t| - 1].ohm < ohm < t[0].ohm
  }

  /** What lookup_comp answers. */
  ghost predicate IsBracket(t: seq<Comp>, ohm: nat, low: nat, high: nat)
    requires t != []
  {
    if ohm >= t[0].ohm then low == high == 0
    else if ohm <= t[|t| - 1].ohm then low == high == |t| - 1
    else IsLow(t, ohm, low) && high == if t[low].ohm == ohm then low else low - 1
  }

  /** The bracket is unique, inside the table, and never leaves a zero divisor. */
  lemma BracketIsUnique(t: seq<Comp>, ohm: nat, low: nat, high: nat, low': nat, high': nat)
    requires IsTable(t) && IsBracket(t, ohm, low, high) && IsBracket(t, ohm, low', high')
    ensures low == low' && high == high' && high <= low < |t|
    ensures low != high ==> high == low - 1 && t[low].ohm < ohm < t[high].ohm
  {
  }

  method LookupComp(t: seq<Comp>, ohm: nat) returns (low: nat, high: nat)
    requires IsTable(t)
    ensures IsBracket(t, ohm, low, high)
  {
    if ohm >= t[0].ohm {
      return 0, 0;
    }
    if ohm <= t[|t| - 1].ohm {
      return |t| - 1, |t| - 1;
    }
    var compStart, compEnd := 0, |t|;
    while compStart < compEnd
      invariant 0 <= compStart <= compEnd <= |t| && compStart < |t|
      invariant forall i :: 0 <= i < compStart ==> t[i].ohm > ohm
      invariant forall i :: compEnd <= i < |t| ==> t[i].ohm <= ohm
    {
      var compMid := compStart + (compEnd - compStart) / 2;
      if ohm >= t[compMid].ohm {
        compEnd := compMid;
      } else {
        compStart := compMid + 1;
        if ohm >= t[compStart].ohm {
          compEnd := compStart;
        }
      }
    }
    low := compEnd;
    high := if ohm == t[compEnd].ohm then compEnd else compEnd - 1;
  }

  // ---- interpolation ----

  /** The straight line between two neighbouring entries, in milli-degrees. */
  function Interpolate(h: Comp, l: Comp, ohm: nat): int
    requires h.ohm > l.ohm
  {
    l.tempC * TEMPERATURE_COEFF +
    TruncDiv((h.tempC - l.tempC) * TEMPERATURE_COEFF * (ohm - l.ohm), h.ohm - l.ohm)
  }

  lemma {:induction false} LowExists(t: seq<Comp>, ohm: nat, n: nat)
    requires n < |t| && t[n].ohm <= ohm
    ensures exists low: nat :: IsLow(t, ohm, low)
  {
    if i: nat :| i < n && t[i].ohm <= ohm {
      LowExists(t, ohm, i);
    } else {
      assert IsLow(t, ohm, n);
    }
  }

  /** The reported temperature as a function of the resistance. */
  ghost function TempOf(t: seq<Comp>, ohm: nat): int
    requires IsTable(t)
  {
    if ohm >= t[0].ohm then t[0].tempC * TEMPERATURE_COEFF
    else if ohm <= t[|t| - 1].ohm then t[|t| - 1].tempC * TEMPERATURE_COEFF
    else
      LowExists(t, ohm, |t| - 1);
      var low: nat :| IsLow(t, ohm, low);
      if t[low].ohm == ohm then t[low].tempC * TEMPERATURE_COEFF
      else Interpolate(t[low - 1], t[low], ohm)
  }

  /** TempOf read off any bracket. */
  lemma TempAtBracket(t: seq<Comp>, ohm: nat, low: nat, high: nat)
    requires IsTable(t) && IsBracket(t, ohm, low, high)
    ensures high <= low < |t|
    ensures low == high ==> TempOf(t, ohm) == t[low].tempC * TEMPERATURE_COEFF
    ensures low != high ==> high == low - 1 && t[low].ohm < ohm < t[high].ohm
                            && TempOf(t, ohm) == Interpolate(t[high], t[low], ohm)
  {
    if Interior(t, ohm) {
      LowExists(t, ohm, |t| - 1);
      var low': nat :| IsLow(t, ohm, low');
      BracketIsUnique(t, ohm, low, high, low', if t[low'].ohm == ohm then low' else low' - 1);
    }
  }

  method GetTempMc(t: seq<Comp>, ohm: nat) returns (temp: int)
    requires IsTable(t)
    ensures temp == TempOf(t, ohm)
  {
    var low, high := LookupComp(t, ohm);
    TempAtBracket(t, ohm, low, high);
    if low == high {
      temp := t[low].tempC * TEMPERATURE_COEFF;
    } else {
      temp := Interpolate(t[high], t[low], ohm);
    }
  }

  /** How far below the warmer end the interpolated temperature lies. */
  function Drop(h: Comp, l: Comp, ohm: nat): int
    requires h.ohm > l.ohm
  {
    (l.tempC - h.tempC) * TEMPERATURE_COEFF * (ohm - l.ohm) / (h.ohm - l.ohm)
  }

  /** Truncation makes the line a floor measured downwards from its warmer end. */
  lemma InterpolateIsDrop(h: Comp, l: Comp, ohm: nat)
    requires l.ohm < ohm < h.ohm && h.tempC < l.tempC
    ensures Interpolate(h, l, ohm) == l.tempC * TEMPERATURE_COEFF - Drop(h, l, ohm)
  {
    var a, x := (h.tempC - l.tempC) * TEMPERATURE_COEFF, ohm - l.ohm;
    assert a * x < 0 && -(a * x) == (l.tempC - h.tempC) * TEMPERATURE_COEFF * x by {
      assert a < 0 && x > 0;
      assert -(a * x) == (-a) * x;
    }
  }

  /** Between its ends, the line stays between its ends. */
  lemma DropBounds(h: Comp, l: Comp, ohm: nat)
    requires l.ohm < ohm < h.ohm && h.tempC < l.tempC
    ensures 0 <= Drop(h, l, ohm) <= (l.tempC - h.tempC) * TEMPERATURE_COEFF
  {
    var c, x, w := (l.tempC - h.tempC) * TEMPERATURE_COEFF, ohm - l.ohm, h.ohm - l.ohm;
    MulLe(0, c, x);
    FloorAtLeast(c * x, w, 0);
    assert c * x <= c * w by { MulLe(x, w, c); }
    FloorAtMost(c * x, w, c);
  }

  /**
   The temperature at a table entry is the entry's, and between two entries it is
   the exact line through them, rounded up by less than a milli-degree.
   */
  lemma TempIsTight(t: seq<Comp>, ohm: nat, low: nat, high: nat)
    requires IsTable(t) && IsBracket(t, ohm, low, high)
    ensures high <= low < |t|
    ensures t[low].ohm == ohm ==> TempOf(t, ohm) == t[low].tempC * TEMPERATURE_COEFF
    ensures low != high ==>
              var below := t[low].tempC * TEMPERATURE_COEFF - TempOf(t, ohm);
              var w := t[high].ohm - t[low].ohm;
              below * w <= (t[low].tempC - t[high].tempC) * TEMPERATURE_COEFF * (ohm - t[low].ohm) < (below + 1) * w
  {
    TempAtBracket(t, ohm, low, high);
    if low != high {
      InterpolateIsDrop(t[high], t[low], ohm);
      FloorBounds((t[low].tempC - t[high].tempC) * TEMPERATURE_COEFF * (ohm - t[low].ohm), t[high].ohm - t[low].ohm);
    }
  }

  lemma DropMonotone(h: Comp, l: Comp, ohm: nat, ohm': nat)
    requires l.ohm < ohm <= ohm' < h.ohm && h.tempC < l.tempC
    ensures Drop(h, l, ohm) <= Drop(h, l, ohm')
  {
    var c, w := (l.tempC - h.tempC) * TEMPERATURE_COEFF, h.ohm - l.ohm;
    assert 0 <= c * (ohm - l.ohm) <= c * (ohm' - l.ohm) by {
      MulLe(ohm - l.ohm, ohm' - l.ohm, c);
      MulLe(0, ohm - l.ohm, c);
    }
    FloorMonotone(c * (ohm - l.ohm), w, c * (ohm' - l.ohm), w);
  }

  /** The temperature lies between the two entries of its bracket. */
  lemma TempWithinBracket(t: seq<Comp>, ohm: nat, low: nat, high: nat)
    requires IsTable(t) && IsBracket(t, ohm, low, high)
    ensures high <= low < |t|
    ensures t[high].tempC * TEMPERATURE_COEFF <= TempOf(t, ohm) <= t[low].tempC * TEMPERATURE_COEFF
  {
    TempAtBracket(t, ohm, low, high);
    if low != high {
      InterpolateIsDrop(t[high], t[low], ohm);
      DropBounds(t[high], t[low], ohm);
    }
  }

  lemma BracketExists(t: seq<Comp>, ohm: nat) returns (low: nat, high: nat)
    requires IsTable(t)
    ensures IsBracket(t, ohm, low, high)
  {
    if ohm >= t[0].ohm {
      low, high := 0, 0;
    } else if ohm <= t[|t| - 1].ohm {
      low, high := |t| - 1, |t| - 1;
    } else {
      LowExists(t, ohm, |t| - 1);
      low :| IsLow(t, ohm, low);
      high := if t[low].ohm == ohm then low else low - 1;
    }
  }

  /** Every reported temperature lies between the first and the last of the table. */
  lemma TempBounded(t: seq<Comp>, ohm: nat)
    requires IsTable(t)
    ensures t[0].tempC * TEMPERATURE_COEFF <= TempOf(t, ohm) <= t[|t| - 1].tempC * TEMPERATURE_COEFF
  {
    var low, high := BracketExists(t, ohm);
    TempWithinBracket(t, ohm, low, high);
    assert high > 0 ==> t[0].tempC < t[high].tempC;
    assert low < |t| - 1 ==> t[low].tempC < t[|t| - 1].tempC;
  }

  /** More resistance never means a higher temperature, within one bracket or across several. */
  lemma TempAntitone(t: seq<Comp>, ohm: nat, ohm': nat)
    requires IsTable(t) && ohm <= ohm'
    ensures TempOf(t, ohm) >= TempOf(t, ohm')
  {
    var low, high := BracketExists(t, ohm);
    var low', high' := BracketExists(t, ohm');
    TempWithinBracket(t, ohm, low, high);
    TempWithinBracket(t, ohm', low', high');
    LowAntitone(t, ohm, low, high, ohm', low', high');
    if high < low' {
      // both in the bracket between entries high and low
      assert low == low';
      TempAtBracket(t, ohm, low, high);
      TempAtBracket(t, ohm', low', high');
      if high' < low' {
        InterpolateIsDrop(t[high], t[low], ohm);
        InterpolateIsDrop(t[high], t[low], ohm');
        DropMonotone(t[high], t[low], ohm, ohm');
      }
    } else if low' < high {
      assert t[low'].tempC < t[high].tempC;
    }
  }

  lemma LowAntitone(t: seq<Comp>, ohm: nat, low: nat, high: nat, ohm': nat, low': nat, high': nat)
    requires IsTable(t) && ohm <= ohm'
    requires IsBracket(t, ohm, low, high) && IsBracket(t, ohm', low', high')
    ensures low' <= low < |t|
    ensures high < low' ==> low' == low && high == low - 1 && Interior(t, ohm) && Interior(t, ohm')
  {
  }

  // ---- 32-bit arithmetic ----

  /** Every interpolation product of the table fits an int. */
  ghost predicate Fits32(t: seq<Comp>) {
    && (forall i :: 0 <= i < |t| ==> t[i].ohm <= INT_MAX && -INT_MAX <= t[i].tempC * TEMPERATURE_COEFF <= INT_MAX)
    && (forall i :: 0 < i < |t| ==>
          (t[i].tempC - t[i - 1].tempC) * TEMPERATURE_COEFF * (t[i - 1].ohm - t[i].ohm) <= INT_MAX)
  }

  /** Then no intermediate value of get_temp_mc overflows, for any resistance. */
  lemma InterpolationFits32(t: seq<Comp>, ohm: nat, low: nat, high: nat)
    requires IsTable(t) && Fits32(t) && IsBracket(t, ohm, low, high) && low != high
    ensures high == low - 1 && low < |t|
    ensures -INT_MAX <= (t[high].tempC - t[low].tempC) * TEMPERATURE_COEFF * (ohm - t[low].ohm) <= 0
    ensures -INT_MAX <= TempOf(t, ohm) <= INT_MAX
  {
    TempAtBracket(t, ohm, low, high);
    TempWithinBracket(t, ohm, low, high);
    var c := (t[low].tempC - t[high].tempC) * TEMPERATURE_COEFF;
    assert (t[high].tempC - t[low].tempC) * TEMPERATURE_COEFF == -c;
    NegatedProduct(c, ohm - t[low].ohm, t[high].ohm - t[low].ohm);
  }

  lemma NegatedProduct(c: int, x: nat, w: nat)
    requires 0 <= c && x <= w
    ensures -(c * w) <= (-c) * x <= 0
  {
    MulLe(x, w, c);
    MulLe(0, x, c);
    assert (-c) * x == -(c * x);
  }

  // ---- the whole path ----

  /** What a reading of the two data bytes leads to: a temperature, or a failure. */
  ghost function Report(pullupUv: nat, pullupOhm: nat, t: seq<Comp>, data0: byte, data1: byte): Option<int>
    requires IsTable(t)
  {
    var ohm := OhmOf(pullupUv, pullupOhm, MilliVolts(Raw(data0, data1)));
    if ohm == INT_MAX then None else Some(TempOf(t, ohm))
  }

  lemma MilliVoltsMonotone(raw: nat, raw': nat)
    requires raw <= raw' <= 0xFFF
    ensures MilliVolts(raw) <= MilliVolts(raw')
  {
    FloorMonotone(raw * HKADC_VREF_1V8, HKADC_ACCURACY, raw' * HKADC_VREF_1V8, HKADC_ACCURACY);
  }

  /**
   End to end: a larger raw value never reports a higher temperature, whatever
   reads successfully still does with a smaller raw value, and every reported
   temperature lies within the table.
   */
  lemma ReportAntitone(pullupUv: nat, pullupOhm: nat, t: seq<Comp>,
                       data0: byte, data1: byte, data0': byte, data1': byte)
    requires IsTable(t) && Raw(data0, data1) <= Raw(data0', data1')
    ensures var r := Report(pullupUv, pullupOhm, t, data0, data1);
            var r' := Report(pullupUv, pullupOhm, t, data0', data1');
            && (r'.Some? ==> r.Some? && r.value >= r'.value)
            && (r.Some? ==> t[0].tempC * TEMPERATURE_COEFF <= r.value <= t[|t| - 1].tempC * TEMPERATURE_COEFF)
  {
    var mv, mv' := MilliVolts(Raw(data0, data1)), MilliVolts(Raw(data0', data1'));
    MilliVoltsMonotone(Raw(data0, data1), Raw(data0', data1'));
    OhmMonotone(pullupUv, pullupOhm, mv, mv');
    TempAntitone(t, OhmOf(pullupUv, pullupOhm, mv), OhmOf(pullupUv, pullupOhm, mv'));
    TempBounded(t, OhmOf(pullupUv, pullupOhm, mv));
  }

  // ---- what a report means ----

  /**
   r is the resistance a voltage stands for: 0 without voltage, otherwise the
   largest whole number whose divider voltage does not exceed mv.
   */
  ghost predicate Resistance(pmv: nat, pullupOhm: nat, mv: nat, r: nat) {
    if mv == 0 then r == 0
    else mv < pmv && r * pmv <= mv * (pullupOhm + r) && (r + 1) * pmv > mv * (pullupOhm + r + 1)
  }

  lemma ResistanceIsFloor(pmv: nat, pullupOhm: nat, mv: nat, r: nat)
    requires 0 < mv < pmv
    ensures Resistance(pmv, pullupOhm, mv, r) <==> r == (pullupOhm * mv) / (pmv - mv)
  {
    var a, d := pullupOhm * mv, pmv - mv;
    FloorBounds(a, d);
    assert r * pmv == r * d + r * mv && mv * (pullupOhm + r) == a + r * mv;
    assert (r + 1) * pmv == (r + 1) * d + (r + 1) * mv && mv * (pullupOhm + r + 1) == a + (r + 1) * mv;
    if r * d <= a < (r + 1) * d {
      FloorAtLeast(a, d, r);
      if a / d > r {
        MulLe(r + 1, a / d, d);
      }
    }
  }

  /** v is the temperature a table gives for a resistance, clamped at its ends and rounded up between entries. */
  ghost predicate IsTemp(t: seq<Comp>, ohm: nat, v: int)
    requires t != []
  {
    && (ohm >= t[0].ohm ==> v == 1000 * t[0].tempC)
    && (ohm <= t[|t| - 1].ohm ==> v == 1000 * t[|t| - 1].tempC)
    && (forall i :: 0 <= i < |t| && t[i].ohm == ohm ==> v == 1000 * t[i].tempC)
    && (forall i: nat :: IsGap(t, i, ohm) ==> OnLine(t[i], t[i + 1], ohm, v))
  }

  /** ohm lies strictly between entries i and i + 1. */
  ghost predicate IsGap(t: seq<Comp>, i: nat, ohm: nat) {
    i + 1 < |t| && t[i + 1].ohm < ohm < t[i].ohm
  }

  /** v is the point of the line through both entries, rounded up by less than 1. */
  ghost predicate OnLine(h: Comp, l: Comp, ohm: nat, v: int) {
    var below, w := 1000 * l.tempC - v, h.ohm - l.ohm;
    below * w <= (l.tempC - h.tempC) * 1000 * (ohm - l.ohm) < (below + 1) * w
  }

  lemma TempIsTemp(t: seq<Comp>, ohm: nat)
    requires IsTable(t)
    ensures IsTemp(t, ohm, TempOf(t, ohm))
  {
    forall i | 0 <= i < |t| && t[i].ohm == ohm
      ensures TempOf(t, ohm) == 1000 * t[i].tempC
    {
      var low := if ohm >= t[0].ohm then 0 else if ohm <= t[|t| - 1].ohm then |t| - 1 else i;
      assert IsBracket(t, ohm, low, low);
      TempIsTight(t, ohm, low, low);
    }
    forall i: nat | IsGap(t, i, ohm)
      ensures OnLine(t[i], t[i + 1], ohm, TempOf(t, ohm))
    {
      assert IsBracket(t, ohm, i + 1, i);
      TempIsTight(t, ohm, i + 1, i);
    }
  }

  /**
   A report in physical terms.  mv is the whole millivolts of the 12 upper bits of
   the two bytes, r the resistance it stands for.  There is none exactly if the
   voltage reaches the pull-up voltage or the resistance is out of range;
   otherwise it is the table's temperature for r.
   */
  lemma ReportMeaning(pullupUv: nat, pullupOhm: nat, t: seq<Comp>, data0: byte, data1: byte, mv: nat, r: nat)
    requires IsTable(t)
    requires mv * 4095 <= (data1 * 256 + data0) / 16 * 1800 < (mv + 1) * 4095
    requires mv < pullupUv / 1000 || mv == 0 ==> Resistance(pullupUv / 1000, pullupOhm, mv, r)
    ensures var report := Report(pullupUv, pullupOhm, t, data0, data1);
            && (report == None <==> 0 < mv && (mv >= pullupUv / 1000 || r >= 0x7fff_ffff))
            && (report.Some? ==> IsTemp(t, r, report.value))
  {
    assert MilliVolts(Raw(data0, data1)) == mv;
    if 0 < mv < pullupUv / 1000 {
      ResistanceIsFloor(pullupUv / 1000, pullupOhm, mv, r);
    }
    TempIsTemp(t, r);
  }

  /** Such a resistance always exists, and there is only one. */
  lemma ResistanceExists(pmv: nat, pullupOhm: nat, mv: nat) returns (r: nat)
    requires mv < pmv || mv == 0
    ensures Resistance(pmv, pullupOhm, mv, r)
    ensures forall r': nat :: Resistance(pmv, pullupOhm, mv, r') ==> r' == r
  {
    if mv == 0 {
      r := 0;
    } else {
      FloorAtLeast(pullupOhm * mv, pmv - mv, 0);
      r := (pullupOhm * mv) / (pmv - mv);
      forall r': nat
        ensures Resistance(pmv, pullupOhm, mv, r') <==> r' == r
      {
        ResistanceIsFloor(pmv, pullupOhm, mv, r');
      }
    }
  }

  // ---- the driver ----

  /** Outcomes of the register accesses of one conversion. */
  datatype AdcAccess = AdcAccess(config: bool, start: bool, data0: Option<byte>, data1: Option<byte>, close: bool)

  /** hisi_pmic_get_adc and hisi_adc_get_value; None is a negative return. */
  function AdcValue(channel: int, adc: AdcAccess): Option<nat> {
    if channel < 0 || channel > 15 then None
    else if !adc.config || !adc.start || adc.data0.None? || adc.data1.None? || !adc.close then None
    else Some(MilliVolts(Raw(adc.data0.value, adc.data1.value)))
  }

  // ---- the sensor list ----

  /** An entry of g_ntc_thermistor_id; the closing entry has an empty name and no table. */
  datatype Sensor = Sensor(name: string, table: Option<seq<Comp>>)

  /** The first entry with this name. */
  function Lookup(sensors: seq<Sensor>, name: string): (r: Option<Sensor>)
    ensures r.Some? ==> exists i :: 0 <= i < |sensors| && sensors[i] == r.value && sensors[i].name == name
                                    && forall j :: 0 <= j < i ==> sensors[j].name != name
    ensures r.None? ==> forall x :: x in sensors ==> x.name != name
  {
    if sensors == [] then None
    else if sensors[0].name == name then Some(sensors[0])
    else Lookup(sensors[1..], name)
  }

  /** The table in use after a name was looked up: an unknown name keeps the one known before. */
  function TableAfter(sensors: seq<Sensor>, name: string, known: Option<seq<Comp>>): Option<seq<Comp>> {
    var found := Lookup(sensors, name);
    if found.Some? then found.value.table else known
  }

  ghost predicate AreTables(sensors: seq<Sensor>) {
    forall x :: x in sensors && x.table.Some? ==> IsTable(x.table.value)
  }

  /** The device-tree properties, each present or not. */
  datatype DeviceTree = DeviceTree(name: Option<string>,
                                   pullupUv: Option<nat>, pullupOhm: Option<nat>, pulldownOhm: Option<nat>)

  /** The name leads to a table. */
  predicate Named(sensors: seq<Sensor>, dts: Option<DeviceTree>, known: Option<seq<Comp>>) {
    dts.Some? && dts.value.name.Some? && TableAfter(sensors, dts.value.name.value, known).Some?
  }

  /** Every property is there as well. */
  predicate Complete(sensors: seq<Sensor>, dts: Option<DeviceTree>, known: Option<seq<Comp>>) {
    && Named(sensors, dts, known)
    && dts.value.pullupUv.Some? && dts.value.pullupOhm.Some? && dts.value.pulldownOhm.Some?
  }

  /** g_ntc_dev. */
  class NtcDevice {
    const sensors: seq<Sensor>
    var pullupUv: nat
    var pullupOhm: nat
    var pulldownOhm: nat
    var comp: Option<seq<Comp>>
    var initialised: bool

    /** Every table around is a proper one. */
    ghost predicate Tabled()
      reads this
    {
      AreTables(sensors) && (comp.Some? ==> IsTable(comp.value))
    }

    /** Once initialised, the device has a table. */
    ghost predicate Valid()
      reads this
    {
      Tabled() && (initialised ==> comp.Some?)
    }

    constructor (sensors: seq<Sensor>)
      requires AreTables(sensors)
      ensures Valid() && !initialised && this.sensors == sensors && comp == None
    {
      this.sensors := sensors;
      pullupUv, pullupOhm, pulldownOhm := 0, 0, 0;
      comp, initialised := None, false;
    }

    /** The matching loop: names are compared over the longer of their lengths. */
    method MatchSensor(name: string)
      modifies `comp
      ensures comp == TableAfter(sensors, name, old(comp))
    {
      var tsensorId := 0;
      while tsensorId < |sensors|
        invariant 0 <= tsensorId <= |sensors| && comp == old(comp)
        invariant Lookup(sensors, name) == Lookup(sensors[tsensorId..], name)
      {
        if sensors[tsensorId].name == name {
          comp := sensors[tsensorId].table;
          return;
        }
        tsensorId := tsensorId + 1;
      }
    }

    /** get_device_tree_data: stops at the first missing property, keeping what it has stored. */
    method GetDeviceTreeData(dts: Option<DeviceTree>) returns (ok: bool)
      requires Tabled()
      modifies this
      ensures Tabled() && initialised == old(initialised)
      ensures ok <==> Complete(sensors, dts, old(comp))
      ensures comp == if dts.Some? && dts.value.name.Some?
                      then TableAfter(sensors, dts.value.name.value, old(comp)) else old(comp)
      ensures var found := Named(sensors, dts, old(comp));
              && pullupUv == (if found && dts.value.pullupUv.Some? then dts.value.pullupUv.value else old(pullupUv))
              && pullupOhm == (if found && dts.value.pullupUv.Some? && dts.value.pullupOhm.Some?
                               then dts.value.pullupOhm.value else old(pullupOhm))
              && pulldownOhm == (if ok then dts.value.pulldownOhm.value else old(pulldownOhm))
    {
      if dts.None? || dts.value.name.None? {
        return false;
      }
      MatchSensor(dts.value.name.value);
      if comp.None? {
        return false;
      }
      if dts.value.pullupUv.None? {
        return false;
      }
      pullupUv := dts.value.pullupUv.value;
      if dts.value.pullupOhm.None? {
        return false;
      }
      pullupOhm := dts.value.pullupOhm.value;
      if dts.value.pulldownOhm.None? {
        return false;
      }
      pulldownOhm := dts.value.pulldownOhm.value;
      return true;
    }

    /** ntc_read_temp; None is RET_FAIL. */
    method ReadTemp(channel: int, hasOut: bool, dts: Option<DeviceTree>, adc: AdcAccess)
      returns (temp: Option<int>)
      requires Valid()
      modifies this
      ensures Valid()
      ensures initialised <==> old(initialised) || (3 <= channel <= 6 && hasOut && Complete(sensors, dts, old(comp)))
      ensures old(initialised) ==> comp == old(comp) && pullupUv == old(pullupUv) && pullupOhm == old(pullupOhm)
      ensures initialised && !old(initialised) ==>
                && comp == TableAfter(sensors, dts.value.name.value, old(comp))
                && pullupUv == dts.value.pullupUv.value && pullupOhm == dts.value.pullupOhm.value
      ensures var read := && 3 <= channel <= 6 && hasOut && initialised && adc.config && adc.start
                          && adc.data0.Some? && adc.data1.Some? && adc.close;
              temp == if read then Report(pullupUv, pullupOhm, comp.value, adc.data0.value, adc.data1.value) else None
    {
      if channel < 3 || channel > 6 || !hasOut {
        return None;
      }
      if !initialised {
        var ok := GetDeviceTreeData(dts);
        if !ok {
          return None;
        }
        initialised := true;
      }
      var mv := AdcValue(channel, adc);
      if mv.None? {
        return None;
      }
      var ohm := OhmOf(pullupUv, pullupOhm, mv.value);
      if ohm == INT_MAX {
        return None;
      }
      var mc := GetTempMc(comp.value, ohm);
      return Some(mc);
    }
  }
}
