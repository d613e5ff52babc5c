/** Reads the formatter's text back into nanoseconds: a left inverse of
    Format, which shows the format loses nothing:
    ReadDuration(Format(d)) == Some(d). */
module DurationReader {
  import opened Bytes
  import opened Decimal
  import opened DurationFormat

  /** Length of the run of digits s starts with. */
  function DigitSpan(s: seq<byte>): (k: nat)
    ensures k <= |s| && AllDigits(s[..k])
    ensures k < |s| ==> !IsDigit(s[k])
  {
    if s == [] || !IsDigit(s[0]) then 0 else 1 + DigitSpan(s[1..])
  }

  predicate IsUnitLetter(b: byte) {
    b == HourLabel || b == MinuteLabel || b == SecondLabel
  }

  /** The value in nanoseconds of one unit letter. */
  function UnitOf(letter: byte): int
  {
    if letter == HourLabel then Hour
    else if letter == MinuteLabel then Minute
    else Second
  }

  /** Reads one term "<n>h", "<n>m", "<n>s" or "<n>.<f>s" (f of at most nine
      digits) and returns its value in nanoseconds with the rest of the text. */
  function ReadTerm(s: seq<byte>): (r: Option<(int, seq<byte>)>)
    ensures r.Some? ==> |r.value.1| < |s|
  {
    var k := DigitSpan(s);
    if k == 0 || k == |s| then None else ReadAfterNumber(Value(s[..k]), s[k..])
  }

  /** What follows the whole number n of a term: a unit letter, or a point
      and the fraction of a second. */
  function ReadAfterNumber(n: nat, t: seq<byte>): (r: Option<(int, seq<byte>)>)
    requires t != []
    ensures r.Some? ==> |r.value.1| < |t|
  {
    if IsUnitLetter(t[0]) then Some((n * UnitOf(t[0]), t[1..]))
    else if t[0] == Dot then ReadFraction(n, t[1..])
    else None
  }

  function ReadFraction(n: nat, f: seq<byte>): (r: Option<(int, seq<byte>)>)
    ensures r.Some? ==> |r.value.1| < |f|
  {
    var j := DigitSpan(f);
    if j == 0 || j > 9 || j == |f| || f[j] != SecondLabel then None
    else Some((n * Second + Value(f[..j]) * Pow10(9 - j), f[j + 1..]))
  }

  /** The sum of the terms that make up s. */
  function ReadTerms(s: seq<byte>): Option<int>
    decreases |s|
  {
    if s == [] then Some(0)
    else
      var term := ReadTerm(s);
      if term.None? then None else Plus(ReadTerms(term.value.1), term.value.0)
  }

  /** Reads a duration in the notation the formatter writes; the empty text
      is not a duration. Unlike time.ParseDuration it has no int64 range
      check, so it also reads texts whose value is out of that range. */
  function ReadDuration(s: seq<byte>): Option<int>
  {
    if s == [] then None else ReadTerms(s)
  }

  function Plus(o: Option<int>, v: int): Option<int>
  {
    if o.Some? then Some(o.value + v) else None
  }

  lemma PlusSome(o: Option<int>, p: Option<int>, v: int, w: int)
    requires o == Some(w) && p == Plus(o, v)
    ensures p == Some(v + w)
  {
  }

  lemma {:induction false} DigitSpanOf(digits: seq<byte>, rest: seq<byte>)
    requires AllDigits(digits)
    requires rest == [] || !IsDigit(rest[0])
    ensures DigitSpan(digits + rest) == |digits|
  {
    if digits != [] {
      assert (digits + rest)[1..] == digits[1..] + rest;
      DigitSpanOf(digits[1..], rest);
    }
  }

  lemma ReadUnitTerm(n: nat, letter: byte, rest: seq<byte>)
    requires IsUnitLetter(letter)
    ensures ReadTerm(Digits(n) + [letter] + rest) == Some((n * UnitOf(letter), rest))
  {
    var s := Digits(n) + ([letter] + rest);
    var k := |Digits(n)|;
    DigitSpanOf(Digits(n), [letter] + rest);
    assert s[..k] == Digits(n);
    assert s[k..] == [letter] + rest;
    DigitsValue(n);
    assert ReadAfterNumber(n, [letter] + rest) == Some((n * UnitOf(letter), rest));
    assert ReadTerm(s) == ReadAfterNumber(Value(s[..k]), s[k..]);
    assert s == Digits(n) + [letter] + rest;
  }

  lemma ReadUnit(n: nat, letter: byte, rest: seq<byte>)
    requires IsUnitLetter(letter)
    ensures ReadTerms(Digits(n) + [letter] + rest) == Plus(ReadTerms(rest), n * UnitOf(letter))
  {
    ReadUnitTerm(n, letter, rest);
  }

  /** The nanoseconds of "<q>.<frac>s". */
  function FractionValue(q: nat, frac: seq<byte>): int
    requires AllDigits(frac) && |frac| <= 9
  {
    q * Second + Value(frac) * Pow10(9 - |frac|)
  }

  lemma ReadFractionOf(q: nat, frac: seq<byte>, rest: seq<byte>)
    requires AllDigits(frac) && 1 <= |frac| <= 9
    ensures ReadFraction(q, frac + [SecondLabel] + rest) == Some((FractionValue(q, frac), rest))
  {
    var f := frac + ([SecondLabel] + rest);
    DigitSpanOf(frac, [SecondLabel] + rest);
    assert f[..|frac|] == frac;
    assert f[|frac|] == SecondLabel;
    assert f[|frac| + 1..] == rest;
    assert f == frac + [SecondLabel] + rest;
  }

  lemma ReadFractionTerm(q: nat, frac: seq<byte>, rest: seq<byte>)
    requires AllDigits(frac) && 1 <= |frac| <= 9
    ensures ReadTerm(Digits(q) + [Dot] + frac + [SecondLabel] + rest) == Some((FractionValue(q, frac), rest))
  {
    var s := Digits(q) + [Dot] + frac + [SecondLabel] + rest;
    assert s == Digits(q) + ([Dot] + (frac + [SecondLabel] + rest)) by {
      assert [Dot] + frac + [SecondLabel] + rest == [Dot] + (frac + [SecondLabel] + rest);
    }
    ReadDotFraction(s, q, frac, rest);
  }

  lemma ReadDotFraction(s: seq<byte>, q: nat, frac: seq<byte>, rest: seq<byte>)
    requires AllDigits(frac) && 1 <= |frac| <= 9
    requires s == Digits(q) + ([Dot] + (frac + [SecondLabel] + rest))
    ensures ReadTerm(s) == Some((FractionValue(q, frac), rest))
  {
    var u := frac + [SecondLabel] + rest;
    var t := [Dot] + u;
    ReadNumberThen(Digits(q), t);
    DigitsValue(q);
    assert t[1..] == u;
    ReadFractionOf(q, frac, rest);
  }

  /** A term starts with its whole number, then what follows it. */
  lemma ReadNumberThen(digits: seq<byte>, t: seq<byte>)
    requires AllDigits(digits) && digits != []
    requires t != [] && !IsDigit(t[0])
    ensures ReadTerm(digits + t) == ReadAfterNumber(Value(digits), t)
  {
    var s := digits + t;
    DigitSpanOf(digits, t);
    assert s[..|digits|] == digits;
    assert s[|digits|..] == t;
  }

  lemma ReadTermsStep(s: seq<byte>, v: int, rest: seq<byte>)
    requires s != [] && ReadTerm(s) == Some((v, rest))
    ensures ReadTerms(s) == Plus(ReadTerms(rest), v)
  {
  }

  /** The fraction digits of a remainder that is not a whole second. */
  lemma FractionDigits(n: nat)
    requires n % Second != 0
    ensures var frac := StripZeros(Pad(n % Second, 9));
            AllDigits(frac) && 1 <= |frac| <= 9 && FractionValue(n / Second, frac) == n
  {
    var fr := n % Second;
    var padded := Pad(fr, 9);
    var frac := StripZeros(padded);
    PaddedFraction(fr);
    assert AllDigits(frac) by {
      assert frac == padded[..|frac|];
    }
    StripZerosValue(padded);
    var v, p := Value(frac), Pow10(9 - |frac|);
    assert v * p == fr;
    assert frac != [];
    assert FractionValue(n / Second, frac) == (n / Second) * Second + v * p;
  }

  /** The seconds text is the shortest one: a fraction, when there is one,
      never ends in a zero digit (and the whole seconds have no leading
      zero, by Digits). */
  lemma NoTrailingZero(n: nat)
    requires n % Second != 0
    ensures DecimalSeconds(n)[|DecimalSeconds(n)| - 1] != Zero
  {
    FractionDigits(n);
  }

  lemma PaddedFraction(fr: nat)
    requires fr < Second
    ensures Value(Pad(fr, 9)) == fr
  {
    PadValue(fr, 9);
    assert Pow10(9) == Second;
    ModUnique(fr, Second, 0, fr);
  }

  lemma ReadSecondsTerm(n: nat, rest: seq<byte>)
    ensures ReadTerm(DecimalSeconds(n) + [SecondLabel] + rest) == Some((n, rest))
  {
    if n % Second == 0 {
      ReadWholeSeconds(n, rest);
    } else {
      ReadFractionalSeconds(n, rest);
    }
  }

  lemma ReadWholeSeconds(n: nat, rest: seq<byte>)
    requires n % Second == 0
    ensures ReadTerm(DecimalSeconds(n) + [SecondLabel] + rest) == Some((n, rest))
  {
    var q := n / Second;
    assert DecimalSeconds(n) == Digits(q);
    ReadUnitTerm(q, SecondLabel, rest);
  }

  lemma ReadFractionalSeconds(n: nat, rest: seq<byte>)
    requires n % Second != 0
    ensures ReadTerm(DecimalSeconds(n) + [SecondLabel] + rest) == Some((n, rest))
  {
    var q := n / Second;
    var frac := StripZeros(Pad(n % Second, 9));
    FractionDigits(n);
    ReadFractionTerm(q, frac, rest);
    assert DecimalSeconds(n) == Digits(q) + [Dot] + frac;
  }

  /** s reads as the terms worth v nanoseconds in all. */
  predicate ReadsAs(s: seq<byte>, v: int) {
    Reading(s) == Some(v)
  }

  /** ReadTerms under another name, so that ReadsAs does not unfold into
      ReadTerms in every proof that mentions it. */
  function Reading(s: seq<byte>): Option<int> {
    ReadTerms(s)
  }

  lemma ReadSeconds(alone: bool, r: int)
    requires r >= 0
    ensures ReadsAs(SecondsTerm(alone, r), r)
  {
    if alone || r != 0 {
      assert SecondsTerm(alone, r) == DecimalSeconds(r) + [SecondLabel];
      ReadWrittenSeconds(r);
    }
  }

  lemma ReadWrittenSeconds(r: nat)
    ensures ReadsAs(DecimalSeconds(r) + [SecondLabel], r)
  {
    var t := DecimalSeconds(r) + [SecondLabel];
    ReadSecondsTerm(r, []);
    assert t == t + [];
    ReadTermsStep(t, r, []);
  }

  /** A unit term t for rem, in front of text worth v, adds the whole units
      q of rem to v; an absent term adds nothing. */
  lemma ReadUnitTerms(rem: int, unit: int, letter: byte, t: seq<byte>, q: int, rest: seq<byte>, v: int)
    requires rem >= 0 && IsUnitLetter(letter) && unit == UnitOf(letter)
    requires t == UnitTerm(rem, unit, letter) && q == (rem / unit) * unit
    requires ReadsAs(rest, v)
    ensures ReadsAs(t + rest, q + v)
  {
    if t != [] {
      UnitTermCount(rem, unit, letter);
      ReadPresentUnit(rem / unit, letter, t, q, rest, v);
    } else {
      AbsentUnit(rem, unit, letter, t, q, rest);
    }
  }

  lemma ReadPresentUnit(n: nat, letter: byte, t: seq<byte>, q: int, rest: seq<byte>, v: int)
    requires IsUnitLetter(letter) && t == Digits(n) + [letter] && q == n * UnitOf(letter)
    requires ReadsAs(rest, v)
    ensures ReadsAs(t + rest, q + v)
  {
    ReadUnit(n, letter, rest);
    PlusSome(ReadTerms(rest), ReadTerms(t + rest), q, v);
  }

  lemma AbsentUnit(rem: int, unit: int, letter: byte, t: seq<byte>, q: int, rest: seq<byte>)
    requires rem >= 0 && unit > 0
    requires t == UnitTerm(rem, unit, letter) && q == (rem / unit) * unit && t == []
    ensures q == 0 && t + rest == rest
  {
    assert rem < unit;
    ModUnique(rem, unit, 0, rem);
  }

  /** Reading the formatted text back gives the duration again. */
  lemma {:induction false} ReadFormat(d: int)
    requires d >= 0
    ensures ReadDuration(Format(d)) == Some(d)
  {
    var r1 := UnitRest(d, Hour);
    FormatTerms(d);
    TermsOf(d);
    ReadSeconds(|HoursTerm(d) + MinutesTerm(d)| == 0, NanosPart(d));
    var hq, mq := (d / Hour) * Hour, (r1 / Minute) * Minute;
    assert hq + (mq + NanosPart(d)) == d by {
      SplitAddsUp(d);
    }
    ReadThreeTerms(Format(d), HoursTerm(d), MinutesTerm(d), SecondsPart(d), d, r1, NanosPart(d), hq, mq, d);
  }

  /** An hours term and a minutes term in front of a text worth nanos read
      back as their sum. */
  lemma ReadThreeTerms(f: seq<byte>, h: seq<byte>, m: seq<byte>, sec: seq<byte>,
                       hr: int, mr: int, nanos: int, hq: int, mq: int, total: int)
    requires f == h + (m + sec) && f != []
    requires hr >= 0 && h == UnitTerm(hr, Hour, HourLabel) && hq == (hr / Hour) * Hour
    requires mr >= 0 && m == UnitTerm(mr, Minute, MinuteLabel) && mq == (mr / Minute) * Minute
    requires ReadsAs(sec, nanos) && total == hq + (mq + nanos)
    ensures ReadDuration(f) == Some(total)
  {
    assert IsUnitLetter(MinuteLabel) && Minute == UnitOf(MinuteLabel);
    assert IsUnitLetter(HourLabel) && Hour == UnitOf(HourLabel);
    ReadUnitTerms(mr, Minute, MinuteLabel, m, mq, sec, nanos);
    ReadUnitTerms(hr, Hour, HourLabel, h, hq, m + sec, mq + nanos);
  }

  /** The definitions of the three terms of Format(d), as plain facts. */
  lemma TermsOf(d: int)
    requires d >= 0
    ensures HoursTerm(d) == UnitTerm(d, Hour, HourLabel)
    ensures UnitRest(d, Hour) >= 0
    ensures MinutesTerm(d) == UnitTerm(UnitRest(d, Hour), Minute, MinuteLabel)
    ensures SecondsPart(d) == SecondsTerm(|HoursTerm(d) + MinutesTerm(d)| == 0, NanosPart(d))
    ensures NanosPart(d) == UnitRest(UnitRest(d, Hour), Minute) && NanosPart(d) >= 0
  {
  }

  /** Distinct durations are formatted differently. */
  lemma FormatInjective(d1: int, d2: int)
    requires d1 >= 0 && d2 >= 0 && Format(d1) == Format(d2)
    ensures d1 == d2
  {
    ReadFormat(d1);
    ReadFormat(d2);
  }
}
