/**
 SecSkipKnownFlags and SecFormatContainN: the scan that refuses a format with
 an `%n` conversion.  A format is an array of characters ended by '\0'.
 */
module FormatScan {
  /** Row r of flagTable, sixteen entries. */
  function FlagRow(r: nat): (row: seq<int>)
    requires r < 8
    ensures |row| == 16
  {
    if r == 0 then [0, 0, 0, 0, 0, 0, 0, 0, 0, 0, 0, 0, 0, 0, 0, 0]
    else if r == 1 then [0, 0, 0, 0, 0, 0, 0, 0, 0, 0, 0, 0, 0, 0, 0, 0]
    else if r == 2 then [1, 0, 0, 1, 1, 0, 0, 0, 0, 0, 1, 1, 0, 1, 0, 0]
    else if r == 3 then [1, 1, 1, 1, 1, 1, 1, 1, 1, 1, 0, 0, 0, 0, 0, 0]
    else if r == 4 then [0, 0, 0, 0, 0, 0, 0, 0, 0, 1, 0, 0, 1, 0, 0, 0]
    else if r == 5 then [0, 0, 0, 0, 0, 0, 0, 0, 0, 0, 1, 0, 0, 0, 0, 0]
    else if r == 6 then [0, 0, 0, 0, 0, 0, 0, 0, 1, 0, 1, 0, 1, 0, 0, 0]
    else [0, 1, 0, 0, 1, 0, 0, 1, 0, 0, 1, 0, 0, 0, 0, 0]
  }

  /** The flagTable entry of a character below 0x80. */
  function FlagEntry(c: int): int
    requires 0 <= c < 0x80
  {
    FlagRow(c / 16)[c % 16]
  }

  /** The known flags. */
  predicate IsFlag(c: char) {
    || '0' <= c <= '9' || c == ' ' || c == '+' || c == '-' || c == '#' || c == 'h' || c == 'l' || c == 'L'
    || c == 'w' || c == 'Z' || c == 'z' || c == 'j' || c == 'q' || c == 't' || c == '*' || c == 'I' || c == '$'
  }

  lemma FlagRowIs(r: nat, i: nat)
    requires r < 8 && i < 16
    ensures FlagRow(r)[i] != 0 <==> IsFlag((16 * r + i) as char)
  {
  }

  /** The table's entry is not zero exactly for the known flags. */
  lemma FlagTableIs(c: int)
    requires 0 <= c < 0x80
    ensures FlagEntry(c) != 0 <==> IsFlag(c as char)
  {
    FlagRowIs(c / 16, c % 16);
    assert 16 * (c / 16) + c % 16 == c;
  }

  /** And these are the documented ones. */
  lemma FlagsAre(c: char)
    ensures IsFlag(c) <==> c in "0123456789 +-#hlLwZzjqt*I$"
  {
    var flags := "0123456789 +-#hlLwZzjqt*I$";
    if IsFlag(c) {
      if '0' <= c <= '9' {
        assert flags[c as int - '0' as int] == c;
      } else {
        assert flags[10..] == " +-#hlLwZzjqt*I$";
        OtherFlags(c);
      }
    }
  }

  lemma OtherFlags(c: char)
    requires IsFlag(c) && !('0' <= c <= '9')
    ensures c in " +-#hlLwZzjqt*I$"
  {
    var f := " +-#hlLwZzjqt*I$";
    assert f[0] == ' ' && f[1] == '+' && f[2] == '-' && f[3] == '#' && f[4] == 'h' && f[5] == 'l' && f[6] == 'L';
    assert f[7] == 'w' && f[8] == 'Z' && f[9] == 'z' && f[10] == 'j' && f[11] == 'q' && f[12] == 't' && f[13] == '*';
    assert f[14] == 'I' && f[15] == '$';
  }

  // ---- what the scan looks for ----

  /** f[i..j] is a maximal run of '%'. */
  ghost predicate PercentRun(f: seq<char>, i: nat, j: nat) {
    && i < j <= |f|
    && (forall x :: i <= x < j ==> f[x] == '%')
    && (i == 0 || f[i - 1] != '%')
    && (j == |f| || f[j] != '%')
  }

  /** f[j..k] is the longest run of flags from j on. */
  ghost predicate FlagRun(f: seq<char>, j: nat, k: nat) {
    && j <= k <= |f|
    && (forall x :: j <= x < k ==> IsFlag(f[x]))
    && (k == |f| || !IsFlag(f[k]))
  }

  /** An odd maximal run of '%', then the longest run of flags, then 'n'. */
  ghost predicate ConversionAt(f: seq<char>, i: nat, j: nat, k: nat) {
    PercentRun(f, i, j) && (j - i) % 2 == 1 && FlagRun(f, j, k) && k < |f| && f[k] == 'n'
  }

  ghost predicate HasN(f: seq<char>) {
    exists i: nat, j: nat, k: nat :: ConversionAt(f, i, j, k)
  }

  /** fmt holds the string f and its terminator. */
  ghost predicate IsString(fmt: array<char>, f: seq<char>)
    reads fmt
  {
    |f| < fmt.Length && fmt[..|f|] == f && fmt[|f|] == '\0' && '\0' !in f
  }

  // ---- the scan ----

  method SkipKnownFlags(fmt: array<char>, start: nat, ghost f: seq<char>) returns (k: nat)
    requires IsString(fmt, f) && start <= |f|
    ensures FlagRun(f, start, k)
  {
    k := start;
    while fmt[k] != '\0'
      invariant start <= k <= |f|
      invariant forall x :: start <= x < k ==> IsFlag(f[x])
      decreases |f| - k
    {
      if fmt[k] as int > 0x7f {
        break;
      }
      FlagTableIs(fmt[k] as int);
      if FlagEntry(fmt[k] as int) == 0 {
        break;
      }
      k := k + 1;
    }
  }

  /** No conversion to be refused starts before position i. */
  ghost predicate ClearBefore(f: seq<char>, i: nat) {
    forall a: nat, b: nat, c: nat :: ConversionAt(f, a, b, c) ==> i <= a
  }

  /** An even run of '%' is no conversion, nor is an ordinary character. */
  lemma SkipEven(f: seq<char>, i: nat, p: nat)
    requires i <= p <= |f| && (p - i) % 2 == 0 && ClearBefore(f, i)
    requires forall x :: i <= x < p ==> f[x] == '%'
    requires p == |f| || f[p] != '%'
    ensures ClearBefore(f, p) && (p < |f| ==> ClearBefore(f, p + 1))
  {
    forall a: nat, b: nat, c: nat | ConversionAt(f, a, b, c)
      ensures p <= a && (p < |f| ==> p + 1 <= a)
    {
    }
  }

  lemma RunEndsAreUnique(f: seq<char>, i: nat, j: nat, j': nat)
    ensures PercentRun(f, i, j) && PercentRun(f, i, j') ==> j == j'
    ensures FlagRun(f, i, j) && FlagRun(f, i, j') ==> j == j'
  {
  }

  /** An odd run whose flags are not followed by 'n' is no conversion either. */
  lemma SkipOdd(f: seq<char>, i: nat, p: nat, k: nat)
    requires i < p <= |f| && (p - i) % 2 == 1 && ClearBefore(f, i)
    requires forall x :: i <= x < p ==> f[x] == '%'
    requires p == |f| || f[p] != '%'
    requires FlagRun(f, p, k) && (k == |f| || f[k] != 'n')
    ensures ClearBefore(f, k)
  {
    forall a: nat, b: nat, c: nat | ConversionAt(f, a, b, c)
      ensures k <= a
    {
      assert f[a] == '%';
      RunEndsAreUnique(f, i, p, b);
      RunEndsAreUnique(f, p, k, c);
    }
  }

  /** SecFormatContainN finds exactly such a conversion, without leaving the string. */
  method ContainsN(fmt: array<char>, ghost f: seq<char>) returns (found: bool)
    requires IsString(fmt, f)
    ensures found <==> HasN(f)
  {
    var p := 0;
    ghost var i: nat := 0;  // where the '%' run that p is in began
    while fmt[p] != '\0'
      invariant 0 <= i <= p <= |f| && (p - i) % 2 == 0
      invariant forall x :: i <= x < p ==> f[x] == '%'
      invariant i == 0 || f[i - 1] != '%' || i == |f| || f[i] != '%'
      invariant ClearBefore(f, i)
      decreases |f| - p
    {
      p := p + 1;
      if fmt[p - 1] != '%' {
        SkipEven(f, i, p - 1);
        i := p;
        continue;
      }
      assert f[p - 1] == '%';
      if fmt[p] == '%' {
        p := p + 1;
        continue;
      }
      ghost var runEnd := p;
      p := SkipKnownFlags(fmt, p, f);
      if fmt[p] == 'n' {
        assert ConversionAt(f, i, runEnd, p);
        return true;
      }
      SkipOdd(f, i, runEnd, p);
      i := p;
    }
    SkipEven(f, i, p);
    return false;
  }
}
