/** The duration formatter: writeTimeUnit and writeDuration, which render a
    nanosecond count as "<h>h<m>m<s>s" in a reused 32-byte buffer. */
module DurationFormat {
  import opened Bytes
  import opened Decimal

  const Second: int := 1_000_000_000
  const Minute: int := 60 * Second
  const Hour: int := 60 * Minute

  /** The range of a Go time.Duration (an int64 count of nanoseconds). */
  const MinDuration: int := MinInt64
  const MaxDuration: int := MaxInt64

  /** The length the global buffer is created with, and the longest text the
      formatter is meant to produce. */
  const Capacity: nat := 32

  const HourLabel: byte := 'h' as byte
  const MinuteLabel: byte := 'm' as byte
  const SecondLabel: byte := 's' as byte
  const Dot: byte := '.' as byte
  const Minus: byte := '-' as byte

  /** The text writeTimeUnit appends for one unit: the whole count of units
      in rem and the unit's letter, or nothing when that count is below one. */
  function UnitTerm(rem: int, unit: int, letter: byte): (t: seq<byte>)
    requires unit > 0
    ensures (t != []) == (rem >= unit)
  {
    var u := Quot(rem, unit);
    QuotAtLeastOne(rem, unit);
    if u >= 1 then Digits(u) + [letter] else []
  }

  /** A unit term holds the count of whole units in rem, then the letter. */
  lemma UnitTermCount(rem: int, unit: int, letter: byte)
    requires unit > 0 && rem >= unit
    ensures UnitTerm(rem, unit, letter) == Digits(rem / unit) + [letter]
  {
  }

  /** The remainder writeTimeUnit leaves behind. */
  function UnitRest(rem: int, unit: int): (r: int)
    requires unit > 0
    ensures rem >= 0 ==> r == rem % unit
    ensures rem < unit ==> r == rem
  {
    var u := Quot(rem, unit);
    QuotAtLeastOne(rem, unit);
    RestIsMod(rem, unit);
    if u >= 1 then rem - u * unit else rem
  }

  lemma RestIsMod(rem: int, unit: int)
    requires unit > 0
    ensures rem >= unit ==> rem - Quot(rem, unit) * unit == rem % unit
    ensures 0 <= rem < unit ==> rem % unit == rem
  {
    if rem < 0 {
    } else if rem < unit {
      ModUnique(rem, unit, 0, rem);
    } else {
      assert Quot(rem, unit) == rem / unit;
      assert rem == (rem / unit) * unit + rem % unit;
    }
  }

  lemma QuotAtLeastOne(rem: int, unit: int)
    requires unit > 0
    ensures (Quot(rem, unit) >= 1) == (rem >= unit)
  {
    if 0 <= rem < unit {
      ModUnique(rem, unit, 0, rem);
    } else if rem >= unit {
      assert rem == (rem / unit) * unit + rem % unit;
    }
  }

  /** Exact decimal text of n nanoseconds in seconds: the whole seconds, then,
      if n is not whole, a point and the nine-digit fraction without its
      trailing zeros. */
  function DecimalSeconds(n: nat): (s: seq<byte>)
    ensures |s| >= 1 && IsDigit(s[0])
    ensures AllDigits(s) <==> n % Second == 0
  {
    var whole := Digits(n / Second);
    var fraction := if n % Second == 0 then [] else [Dot] + StripZeros(Pad(n % Second, 9));
    assert n % Second != 0 ==> (whole + fraction)[|whole|] == Dot;
    whole + fraction
  }

  /** The seconds text of a remainder, standing for strconv.AppendFloat of
      remainder / 1e9 with format 'f' and shortest precision. */
  function SecondsText(r: int): (t: seq<byte>)
    ensures |t| >= 1 && (t[0] == Minus <==> r < 0)
  {
    if r < 0 then [Minus] + DecimalSeconds(-r) else DecimalSeconds(r)
  }

  /** The seconds term: written when nothing was written before it or the
      remainder is not zero. */
  function SecondsTerm(alone: bool, r: int): (t: seq<byte>)
    ensures t != [] <==> alone || r != 0
    ensures t != [] ==> t[|t| - 1] == SecondLabel
  {
    if alone || r != 0 then SecondsText(r) + [SecondLabel] else []
  }

  /** What writeDuration leaves in the buffer for the duration d. */
  function Format(d: int): (s: seq<byte>)
    ensures |s| >= 2
  {
    var r1 := UnitRest(d, Hour);
    var prefix := UnitTerm(d, Hour, HourLabel) + UnitTerm(r1, Minute, MinuteLabel);
    prefix + SecondsTerm(|prefix| == 0, UnitRest(r1, Minute))
  }

  /** The global durationBuffer together with the two functions that fill it. */
  class DurationBuffer {
    var buf: seq<byte>

    /** make([]byte, 32): 32 zero bytes. */
    constructor ()
      ensures buf == seq(Capacity, _ => 0)
    {
      buf := seq(Capacity, _ => 0);
    }

    /** writeTimeUnit: appends the count of whole units and the letter, and
        returns the remainder (the Go code updates it through a pointer). */
    method WriteTimeUnit(remainingNanos: int, unit: int, letter: byte) returns (rest: int)
      requires unit > 0
      modifies this
      ensures buf == old(buf) + UnitTerm(remainingNanos, unit, letter)
      ensures rest == UnitRest(remainingNanos, unit)
    {
      rest := remainingNanos;
      var u := Quot(rest, unit);
      if u >= 1 {
        buf := buf + Digits(u);
        buf := buf + [letter];
        rest := rest - u * unit;
        assert buf == old(buf) + (Digits(u) + [letter]);
      }
    }

    /** writeDuration: clears the buffer, formats d into it and copies it to
        out. The result depends on d alone, and fits the buffer's capacity
        for every time.Duration. */
    method WriteDuration(out: Buffer, d: int)
      modifies this, out
      ensures buf == Format(d)
      ensures MinDuration <= d <= MaxDuration ==> |buf| <= Capacity
      ensures out.bytes == old(out.bytes) + Format(d)
    {
      buf := [];
      var remainingNanos := d;
      remainingNanos := WriteTimeUnit(remainingNanos, Hour, HourLabel);
      assert buf == HoursTerm(d);
      remainingNanos := WriteTimeUnit(remainingNanos, Minute, MinuteLabel);
      assert buf == HoursTerm(d) + MinutesTerm(d) && remainingNanos == NanosPart(d);
      ghost var prefix := buf;
      if |buf| == 0 || remainingNanos != 0 {
        buf := buf + SecondsText(remainingNanos);
        buf := buf + [SecondLabel];
        assert buf == prefix + (SecondsText(remainingNanos) + [SecondLabel]);
      }
      assert buf == prefix + SecondsPart(d);
      out.Write(buf);
      if MinDuration <= d <= MaxDuration {
        FormatFitsBuffer(d);
      }
    }
  }

  // ---------------------------------------------------------------------
  // Properties of the format

  /** The hours, minutes and seconds remainder add back up to d. */
  lemma SplitAddsUp(d: int)
    requires d >= 0
    ensures var minutes := UnitRest(d, Hour) / Minute;
            var nanos := UnitRest(UnitRest(d, Hour), Minute);
            (d / Hour) * Hour + minutes * Minute + nanos == d &&
            0 <= minutes < 60 && 0 <= nanos < Minute
  {
    var r1 := d % Hour;
    assert d == (d / Hour) * Hour + r1;
    assert r1 == (r1 / Minute) * Minute + r1 % Minute;
    ModOfMod(d);
  }

  lemma ModOfMod(d: int)
    requires d >= 0
    ensures (d % Hour) % Minute == d % Minute
  {
    var q := d / Hour;
    var r := d % Hour;
    assert d == (q * 60) * Minute + r;
    ModUnique(d, Minute, q * 60 + r / Minute, r % Minute);
  }

  /** Which unit the text ends with: a seconds term is written exactly when d
      is below a minute or not a whole number of minutes, so "0s" but "1h"
      and "1m", never "1h0s". */
  lemma FormatLastUnit(d: int)
    requires d >= 0
    ensures var s := Format(d);
            (s[|s| - 1] == SecondLabel <==> d < Minute || d % Minute != 0) &&
            (s[|s| - 1] == MinuteLabel <==> d >= Minute && d % Minute == 0 && d % Hour != 0) &&
            (s[|s| - 1] == HourLabel <==> d >= Hour && d % Hour == 0)
  {
    var r1 := UnitRest(d, Hour);
    var r2 := UnitRest(r1, Minute);
    ModOfMod(d);
    assert r2 == d % Minute;
    if d >= Hour {
      assert r1 == d % Hour;
      if r1 == 0 {
        assert d % Minute == 0;
      }
    }
  }

  /** Four sample durations and their text: zero is "0s", one hour is "1h",
      ninety seconds "1m30s" and 3661.5 seconds "1h1m1.5s". */
  lemma FormatZero()
    ensures Format(0) == ['0' as byte, 's' as byte]
  {
    assert UnitTerm(0, Hour, HourLabel) == [];
    assert UnitTerm(0, Minute, MinuteLabel) == [];
    assert DecimalSeconds(0) == Digits(0);
  }

  lemma FormatOneHour()
    ensures Format(Hour) == ['1' as byte, 'h' as byte]
  {
    assert UnitTerm(Hour, Hour, HourLabel) == Digits(1) + [HourLabel];
    assert UnitRest(Hour, Hour) == 0;
    assert UnitTerm(0, Minute, MinuteLabel) == [];
  }

  lemma FormatNinetySeconds()
    ensures Format(90 * Second) == ['1' as byte, 'm' as byte, '3' as byte, '0' as byte, 's' as byte]
  {
    assert UnitTerm(90 * Second, Hour, HourLabel) == [];
    assert UnitRest(90 * Second, Hour) == 90 * Second;
    assert UnitTerm(90 * Second, Minute, MinuteLabel) == Digits(1) + [MinuteLabel];
    assert UnitRest(90 * Second, Minute) == 30 * Second;
    assert DecimalSeconds(30 * Second) == Digits(30);
    assert Digits(30) == Digits(3) + [DigitChar(0)];
  }

  lemma FormatHourMinuteAndAHalf()
    ensures Format(3661 * Second + Second / 2) ==
            ['1' as byte, 'h' as byte, '1' as byte, 'm' as byte, '1' as byte, '.' as byte, '5' as byte, 's' as byte]
  {
    var d := 3661 * Second + Second / 2;
    assert UnitTerm(d, Hour, HourLabel) == Digits(1) + [HourLabel];
    assert UnitRest(d, Hour) == 61 * Second + Second / 2;
    assert UnitTerm(61 * Second + Second / 2, Minute, MinuteLabel) == Digits(1) + [MinuteLabel];
    assert UnitRest(61 * Second + Second / 2, Minute) == Second + Second / 2;
    OneAndAHalfSeconds();
  }

  lemma OneAndAHalfSeconds()
    ensures DecimalSeconds(Second + Second / 2) == ['1' as byte, '.' as byte, '5' as byte]
  {
    assert Pow10(8) == 100_000_000;
    PadOfDigitTimesPower(5, 8);
    StripZerosAfterDigit(DigitChar(5), 8);
  }

  lemma {:induction false} PadOfDigitTimesPower(b: nat, j: nat)
    requires b < 10
    ensures Pad(b * Pow10(j), j + 1) == [DigitChar(b)] + seq(j, _ => Zero)
  {
    if j > 0 {
      var m := b * Pow10(j - 1);
      assert b * Pow10(j) == 10 * m;
      PadOfDigitTimesPower(b, j - 1);
      assert (10 * m) / 10 == m && (10 * m) % 10 == 0;
      assert Pad(10 * m, j + 1) == Pad(m, j) + [Zero];
      assert seq(j, _ => Zero) == seq(j - 1, _ => Zero) + [Zero];
    }
  }

  lemma {:induction false} StripZerosAfterDigit(b: byte, k: nat)
    requires b != Zero
    ensures StripZeros([b] + seq(k, _ => Zero)) == [b]
  {
    if k > 0 {
      var s := [b] + seq(k, _ => Zero);
      assert s[..|s| - 1] == [b] + seq(k - 1, _ => Zero);
      StripZerosAfterDigit(b, k - 1);
    }
  }

  /** The text fits the 32-byte buffer for every time.Duration. */
  lemma FormatFitsBuffer(d: int)
    requires MinDuration <= d <= MaxDuration
    ensures |Format(d)| <= Capacity
  {
    if d < 0 {
      NegativeFits(d);
    } else {
      NonNegativeFits(d);
    }
  }

  lemma NegativeFits(d: int)
    requires MinDuration <= d < 0
    ensures |Format(d)| <= 22
  {
    assert UnitTerm(d, Hour, HourLabel) == [] && UnitRest(d, Hour) == d;
    assert UnitTerm(d, Minute, MinuteLabel) == [] && UnitRest(d, Minute) == d;
    assert Format(d) == SecondsText(d) + [SecondLabel];
    assert -d / Second < 10_000_000_000 == Pow10(10);
    DecimalSecondsLength(-d, 10);
  }

  lemma NonNegativeFits(d: int)
    requires 0 <= d <= MaxDuration
    ensures |Format(d)| <= 24
  {
    FormatTerms(d);
    HoursTermFits(d);
    MinutesTermFits(d);
    SecondsPartFits(d);
  }

  lemma HoursTermFits(d: int)
    requires 0 <= d <= MaxDuration
    ensures |HoursTerm(d)| <= 8
  {
    if d >= Hour {
      assert d / Hour < 10_000_000 == Pow10(7);
      DigitsLength(d / Hour, 7);
    }
  }

  lemma MinutesTermFits(d: int)
    requires d >= 0
    ensures |MinutesTerm(d)| <= 3
  {
    var r1 := UnitRest(d, Hour);
    if r1 >= Minute {
      assert r1 / Minute < 60;
      assert Pow10(2) == 100;
      DigitsLength(r1 / Minute, 2);
    }
  }

  lemma SecondsPartFits(d: int)
    requires d >= 0
    ensures |SecondsPart(d)| <= 13
  {
    var r2 := NanosPart(d);
    assert 0 <= r2 < Minute;
    assert Pow10(2) == 100;
    DecimalSecondsLength(r2, 2);
  }

  lemma DecimalSecondsLength(n: nat, k: nat)
    requires 1 <= k && n / Second < Pow10(k)
    ensures |DecimalSeconds(n)| <= k + 10
  {
    DigitsLength(n / Second, k);
  }

  /** The three terms Format(d) is made of. */
  function HoursTerm(d: int): seq<byte> { UnitTerm(d, Hour, HourLabel) }
  function MinutesTerm(d: int): seq<byte> { UnitTerm(UnitRest(d, Hour), Minute, MinuteLabel) }
  function NanosPart(d: int): int { UnitRest(UnitRest(d, Hour), Minute) }
  function SecondsPart(d: int): seq<byte> { SecondsTerm(|HoursTerm(d) + MinutesTerm(d)| == 0, NanosPart(d)) }

  lemma {:induction false} FormatTerms(d: int)
    ensures Format(d) == HoursTerm(d) + (MinutesTerm(d) + SecondsPart(d)) && Format(d) != []
  {
    assert HoursTerm(d) + MinutesTerm(d) + SecondsPart(d) == HoursTerm(d) + (MinutesTerm(d) + SecondsPart(d));
  }
}
