/** The decision rules of main: argument and style validation with their
    exit codes, the sleep between redraws, the elapsed time shown on the
    status line, and the redraw loop itself, run against a clock given as
    the successive values time.Since(start) returns. */
module WaitLoop {
  import opened Bytes
  import opened Decimal
  import opened DurationFormat
  import opened ProgressBar

  /** The command-line flags --step, --style and --length. */
  datatype Flags = Flags(step: int, style: seq<byte>, barLen: int)

  const DefaultFlags: Flags :=
    Flags(Second, ['[' as byte, '=' as byte, '-' as byte, ']' as byte], 40)

  /** ESC[K, the ECMA-48 "erase line" control sequence. */
  const ClearLine: seq<byte> := [Escape, '[' as byte, 'K' as byte]

  /** What main decides before it starts to wait. */
  datatype Validation = NoDuration | BadDuration | BadStyle | Valid(sleeptime: int)

  /** The checks of main in their order: an argument must be given, it must
      parse as a duration (parsed is what time.ParseDuration made of the
      first argument, None for a parse error), and the style must have
      exactly four characters. */
  function Validate(argCount: nat, parsed: Option<int>, style: seq<byte>): (v: Validation)
    ensures v.Valid? <==> argCount > 0 && parsed.Some? && |style| == 4
    ensures v.Valid? ==> v.sleeptime == parsed.value
    ensures v == NoDuration <==> argCount == 0
    ensures v == BadStyle <==> argCount > 0 && parsed.Some? && |style| != 4
  {
    if argCount == 0 then NoDuration
    else if parsed.None? then BadDuration
    else if |style| != 4 then BadStyle
    else Valid(parsed.value)
  }

  /** The status main exits with before waiting, or None when it waits. */
  function ExitCode(v: Validation): (c: Option<int>)
    ensures c.None? <==> v.Valid?
    ensures c == Some(127) <==> v == NoDuration
  {
    match v
    case NoDuration => Some(127)
    case BadDuration => Some(1)
    case BadStyle => Some(1)
    case Valid(_) => None
  }

  /** 127 exactly when the duration is missing, 1 exactly for a bad duration
      or a style whose length is not 4, and no early exit otherwise. */
  lemma ExitCodes(argCount: nat, parsed: Option<int>, style: seq<byte>)
    ensures var code := ExitCode(Validate(argCount, parsed, style));
            (code == Some(127) <==> argCount == 0) &&
            (code == Some(1) <==> argCount > 0 && (parsed.None? || |style| != 4)) &&
            (code == None <==> argCount > 0 && parsed.Some? && |style| == 4)
  {
  }

  /** Go's % on durations: the remainder takes the sign of d, lies within
      one step of 0, and what is left of d after it is a whole number of
      steps. */
  function Rem(d: int, m: int): (r: int)
    requires m > 0
    ensures d >= 0 ==> 0 <= r <= d && r < m
    ensures d < 0 ==> d <= r <= 0 && -m < r
    ensures (d - r) % m == 0
  {
    if d >= 0 then
      WholeSteps(d, m);
      d % m
    else
      WholeSteps(-d, m);
      MultipleMod(-((-d) / m), m);
      assert d + (-d) % m == -((-d) / m) * m;
      -((-d) % m)
  }

  /** Duration.Truncate: d rounded toward zero to a multiple of m, and d
      itself when m is not positive. */
  function Truncate(d: int, m: int): (r: int)
    ensures m <= 0 ==> r == d
    ensures m > 0 ==> r % m == 0
    ensures m > 0 && d >= 0 ==> 0 <= r <= d < r + m
    ensures m > 0 && d < 0 ==> r - m < d <= r <= 0
  {
    if m <= 0 then d else d - Rem(d, m)
  }

  /** For n >= 0: n % m is at most n, and n - n % m is (n / m) steps. */
  lemma WholeSteps(n: int, m: int)
    requires n >= 0 && m > 0
    ensures n % m <= n && n - n % m == (n / m) * m && (n - n % m) % m == 0
  {
    var q := n / m;
    assert q * m >= 0;
    MultipleMod(q, m);
  }

  lemma MultipleMod(q: int, m: int)
    requires m > 0
    ensures (q * m) % m == 0
  {
    ModUnique(q * m, m, q, 0);
  }

  /** A later time never shows an earlier value. */
  lemma TruncateMonotone(d1: int, d2: int, m: int)
    requires 0 <= d1 <= d2
    ensures Truncate(d1, m) <= Truncate(d2, m)
  {
    if m > 0 {
      DivMonotone(d1, d2, m);
      MulMonotone(m, d1 / m, d2 / m);
      assert Truncate(d1, m) == d1 - d1 % m == m * (d1 / m);
      assert Truncate(d2, m) == d2 - d2 % m == m * (d2 / m);
    }
  }

  /** The sleep before the next redraw: the time still to wait, but no more
      than one step. */
  function SleepFor(target: int, elapsed: int, step: int): (s: int)
    ensures s <= step && s <= target - elapsed
    ensures s == step || s == target - elapsed
  {
    var remaining := target - elapsed;
    if remaining < step then remaining else step
  }

  /** The clock: each reading, taken after a sleep, is at least the previous
      one plus the time slept. time.Sleep pauses for at least a positive
      argument and returns at once for zero or a negative one. Readings
      after the target is reached are never looked at. */
  predicate SleepsAtLeast(target: int, step: int, elapsed: int, readings: seq<int>)
    decreases |readings|
  {
    readings == [] || elapsed >= target ||
    (var s := SleepFor(target, elapsed, step);
     readings[0] >= elapsed + (if s < 0 then 0 else s) &&
     SleepsAtLeast(target, step, readings[0], readings[1..]))
  }

  /** The elapsed values the loop draws a status line for, starting from
      elapsed and continuing with the readings until one reaches target. */
  function Ticks(target: int, elapsed: int, readings: seq<int>): seq<int>
    decreases |readings|
  {
    if elapsed >= target then []
    else if readings == [] then [elapsed]
    else [elapsed] + Ticks(target, readings[0], readings[1..])
  }

  /** Some reading reaches the target: the wait ends. */
  predicate Reaches(target: int, readings: seq<int>) {
    ReachedFrom(target, readings, 0)
  }

  /** Some reading at index k or later reaches the target. */
  predicate ReachedFrom(target: int, readings: seq<int>, k: nat) {
    exists j :: k <= j < |readings| && readings[j] >= target
  }

  /** The number of redraws a wait of target with the given step needs at
      most: target / step rounded up. */
  function MaxTicks(target: int, step: int): int
    requires step > 0
  {
    if target <= 0 then 0 else (target + step - 1) / step
  }

  /** One status line: "\r", the bar, the shown elapsed time, "/", the
      total and the erase-line sequence. */
  function StatusLine(flags: Flags, target: int, elapsed: int): seq<byte>
    requires |flags.style| == 4 && target > 0
  {
    [CarriageReturn] + Bar(flags.barLen, flags.style, elapsed, target) +
    Format(Truncate(elapsed, flags.step)) + [Slash] + Format(target) + ClearLine
  }

  function Lines(flags: Flags, target: int, ticks: seq<int>): seq<byte>
    requires |flags.style| == 4 && (ticks == [] || target > 0)
  {
    if ticks == [] then []
    else Lines(flags, target, ticks[..|ticks| - 1]) + StatusLine(flags, target, ticks[|ticks| - 1])
  }

  /** Everything written to standard error: a line per tick, then "\r"
      and the erase-line sequence that clear the bar. */
  function Transcript(flags: Flags, target: int, ticks: seq<int>): seq<byte>
    requires |flags.style| == 4 && (ticks == [] || target > 0)
  {
    Lines(flags, target, ticks) + [CarriageReturn] + ClearLine
  }

  /** The sleep after each tick. */
  function Sleeps(target: int, step: int, ticks: seq<int>): (s: seq<int>)
    ensures |s| == |ticks|
  {
    if ticks == [] then []
    else Sleeps(target, step, ticks[..|ticks| - 1]) + [SleepFor(target, ticks[|ticks| - 1], step)]
  }

  /** The wait loop of main for a validated sleeptime target: redraws the
      status line from the start until the clock reaches target, sleeping
      SleepFor between lines, then clears the line. Returns what was
      written to standard error, the sleeps, and the reading that ended
      the loop. The clock must reach target at some reading, as the real
      one does (ClockReachesTarget gives enough readings for a positive
      step). */
  method Run(flags: Flags, target: int, readings: seq<int>)
    returns (stderr: seq<byte>, sleeps: seq<int>, stopped: int)
    requires |flags.style| == 4
    requires target <= 0 || Reaches(target, readings)
    ensures var ticks := Ticks(target, 0, readings);
            (ticks == [] || target > 0) &&
            stderr == Transcript(flags, target, ticks) &&
            sleeps == Sleeps(target, flags.step, ticks) &&
            stopped >= target &&
            (ticks == [] ==> stopped == 0) &&
            (ticks != [] ==> |ticks| <= |readings| && stopped == readings[|ticks| - 1])
  {
    var step := flags.step;
    var out := new Buffer();
    var durations := new DurationBuffer();
    stderr, sleeps := [], [];
    var elapsed, k := 0, 0;
    ghost var drawn: seq<int> := [];
    while elapsed < target
      invariant 0 <= k <= |readings| && |drawn| == k
      invariant elapsed < target ==> ReachedFrom(target, readings, k)
      invariant elapsed == if k == 0 then 0 else readings[k - 1]
      invariant drawn == [] || target > 0
      invariant out.bytes == []
      invariant Ticks(target, 0, readings) == drawn + Ticks(target, elapsed, readings[k..])
      invariant stderr == Lines(flags, target, drawn)
      invariant sleeps == Sleeps(target, step, drawn)
      decreases |readings| - k
    {
      NextTick(target, elapsed, readings, k, drawn);
      stderr, sleeps := Redraw(out, durations, flags, target, elapsed, stderr, sleeps, drawn);
      drawn := drawn + [elapsed];
      elapsed := readings[k];
      k := k + 1;
    }
    stderr := stderr + [CarriageReturn] + ClearLine;
    stopped := elapsed;
    assert drawn == Ticks(target, 0, readings);
  }

  /** main as a whole: the checks, then, only when they pass, the wait.
      On an early exit no status line is drawn and nothing is slept; error
      and usage texts are not part of status. */
  method Execute(argCount: nat, parsed: Option<int>, flags: Flags, readings: seq<int>)
    returns (exit: Option<int>, status: seq<byte>, sleeps: seq<int>)
    requires Validate(argCount, parsed, flags.style).Valid? ==>
               parsed.value <= 0 || Reaches(parsed.value, readings)
    ensures exit == ExitCode(Validate(argCount, parsed, flags.style))
    ensures exit.Some? ==> status == [] && sleeps == []
    ensures exit.None? ==>
              var target := parsed.value;
              var ticks := Ticks(target, 0, readings);
              |flags.style| == 4 && (ticks == [] || target > 0) &&
              status == Transcript(flags, target, ticks) &&
              sleeps == Sleeps(target, flags.step, ticks)
  {
    var v := Validate(argCount, parsed, flags.style);
    exit := ExitCode(v);
    if exit.Some? {
      status, sleeps := [], [];
    } else {
      var stopped;
      status, sleeps, stopped := Run(flags, v.sleeptime, readings);
    }
  }

  /** One turn of the loop body: draws the status line for elapsed, writes
      it out, empties the buffer and sleeps. */
  method Redraw(out: Buffer, durations: DurationBuffer, flags: Flags, target: int, elapsed: int,
                stderr: seq<byte>, sleeps: seq<int>, ghost drawn: seq<int>)
    returns (stderr': seq<byte>, sleeps': seq<int>)
    requires |flags.style| == 4 && target > 0 && out.bytes == []
    requires stderr == Lines(flags, target, drawn) && sleeps == Sleeps(target, flags.step, drawn)
    modifies out, durations
    ensures out.bytes == []
    ensures stderr' == Lines(flags, target, drawn + [elapsed])
    ensures sleeps' == Sleeps(target, flags.step, drawn + [elapsed])
  {
    WriteStatus(out, durations, flags, target, elapsed);
    assert [] + StatusLine(flags, target, elapsed) == StatusLine(flags, target, elapsed);
    stderr' := stderr + out.bytes;
    out.Reset();
    var sleep := SleepFor(target, elapsed, flags.step);
    sleeps' := sleeps + [sleep];
    AppendTick(flags, target, drawn, elapsed);
  }

  /** Builds one status line in out. */
  method WriteStatus(out: Buffer, durations: DurationBuffer, flags: Flags, target: int, elapsed: int)
    requires |flags.style| == 4 && target > 0
    modifies out, durations
    ensures out.bytes == old(out.bytes) + StatusLine(flags, target, elapsed)
  {
    out.WriteByte(CarriageReturn);
    WriteProgressbar(out, flags.barLen, flags.style, elapsed, target);
    durations.WriteDuration(out, Truncate(elapsed, flags.step));
    out.WriteByte(Slash);
    durations.WriteDuration(out, target);
    out.Write(ClearLine);
    Regroup6(old(out.bytes), [CarriageReturn], Bar(flags.barLen, flags.style, elapsed, target),
      Format(Truncate(elapsed, flags.step)), [Slash], Format(target), ClearLine);
  }

  lemma Regroup6(o: seq<byte>, a: seq<byte>, b: seq<byte>, c: seq<byte>, d: seq<byte>, e: seq<byte>, f: seq<byte>)
    ensures o + a + b + c + d + e + f == o + (a + b + c + d + e + f)
  {
  }

  /** While the loop runs there is a reading left for it. */
  lemma EnoughReadings(k: int, step: int, elapsed: int, target: int, count: int)
    requires 0 <= k && step > 0 && k * step <= elapsed < target
    requires count >= MaxTicks(target, step)
    ensures k < count
  {
    var c := (target + step - 1) / step;
    assert c * step > target - 1 by {
      assert target + step - 1 == c * step + (target + step - 1) % step;
    }
    if k >= c {
      MulMonotone(step, c, k);
    }
  }

  /** One turn of the loop: the tick drawn moves from the pending ticks to
      the drawn ones, and the reading that ends the wait is still ahead. */
  lemma NextTick(target: int, elapsed: int, readings: seq<int>, k: int, drawn: seq<int>)
    requires elapsed < target && 0 <= k && ReachedFrom(target, readings, k)
    requires k <= |readings| && Ticks(target, 0, readings) == drawn + Ticks(target, elapsed, readings[k..])
    ensures k < |readings|
    ensures readings[k] < target ==> ReachedFrom(target, readings, k + 1)
    ensures Ticks(target, 0, readings) == (drawn + [elapsed]) + Ticks(target, readings[k], readings[k + 1..])
  {
    assert readings[k..][0] == readings[k] && readings[k..][1..] == readings[k + 1..];
    var rest := Ticks(target, readings[k], readings[k + 1..]);
    assert drawn + ([elapsed] + rest) == (drawn + [elapsed]) + rest;
  }

  lemma AppendTick(flags: Flags, target: int, drawn: seq<int>, elapsed: int)
    requires |flags.style| == 4 && target > 0
    ensures Lines(flags, target, drawn + [elapsed]) == Lines(flags, target, drawn) + StatusLine(flags, target, elapsed)
    ensures Sleeps(target, flags.step, drawn + [elapsed]) == Sleeps(target, flags.step, drawn) + [SleepFor(target, elapsed, flags.step)]
  {
    assert (drawn + [elapsed])[..|drawn|] == drawn;
  }

  /** The loop stops: with a positive step, a clock that advances at least
      as far as each sleep reaches the target within MaxTicks readings. */
  lemma ClockReachesTarget(target: int, step: int, readings: seq<int>)
    requires step > 0 && target > 0 && SleepsAtLeast(target, step, 0, readings)
    requires |readings| >= MaxTicks(target, step)
    ensures Reaches(target, readings)
  {
    ReachesFrom(target, step, 0, 0, readings);
  }

  /** After k full steps the clock is at least k * step, so the readings
      left reach the target before MaxTicks readings have been taken. */
  lemma {:induction false} ReachesFrom(target: int, step: int, k: nat, elapsed: int, readings: seq<int>)
    requires step > 0 && k * step <= elapsed < target
    requires SleepsAtLeast(target, step, elapsed, readings)
    requires k + |readings| >= MaxTicks(target, step)
    ensures Reaches(target, readings)
    decreases |readings|
  {
    EnoughReadings(k, step, elapsed, target, k + |readings|);
    if readings[0] < target {
      assert (k + 1) * step == k * step + step;
      ReachesFrom(target, step, k + 1, readings[0], readings[1..]);
      var j :| 0 <= j < |readings[1..]| && readings[1..][j] >= target;
      assert readings[j + 1] >= target;
    } else {
      assert readings[0] >= target;
    }
  }

  /** Every drawn tick is before the target: the loop stops once elapsed
      reaches it. */
  lemma {:induction false} TicksBelowTarget(target: int, elapsed: int, readings: seq<int>)
    ensures forall i :: 0 <= i < |Ticks(target, elapsed, readings)| ==> Ticks(target, elapsed, readings)[i] < target
    decreases |readings|
  {
    if elapsed < target && readings != [] {
      TicksBelowTarget(target, readings[0], readings[1..]);
    }
  }

  /** Ticks are at least a step apart: a sleep shorter than the step only
      happens right before the target is reached. */
  lemma {:induction false} TicksSpaced(target: int, step: int, elapsed: int, readings: seq<int>)
    requires step > 0 && SleepsAtLeast(target, step, elapsed, readings)
    ensures var t := Ticks(target, elapsed, readings);
            t != [] ==> t[0] == elapsed
    ensures var t := Ticks(target, elapsed, readings);
            forall i, j :: 0 <= i < j < |t| ==> t[i] + step <= t[j]
    decreases |readings|
  {
    if elapsed < target && readings != [] {
      var rest := Ticks(target, readings[0], readings[1..]);
      TicksSpaced(target, step, readings[0], readings[1..]);
      var t := Ticks(target, elapsed, readings);
      assert t == [elapsed] + rest;
      if rest != [] {
        assert readings[0] < target;
        forall j | 1 <= j < |t|
          ensures elapsed + step <= t[j]
        {
          assert t[j] == rest[j - 1];
          if j > 1 {
            assert rest[0] + step <= rest[j - 1];
          }
        }
      }
    }
  }

  /** Whatever the step, the clock never goes back: the ticks start at
      elapsed and never decrease. */
  lemma {:induction false} TicksNondecreasing(target: int, step: int, elapsed: int, readings: seq<int>)
    requires SleepsAtLeast(target, step, elapsed, readings)
    ensures var t := Ticks(target, elapsed, readings);
            t != [] ==> t[0] == elapsed
    ensures var t := Ticks(target, elapsed, readings);
            forall i, j :: 0 <= i <= j < |t| ==> t[i] <= t[j]
    decreases |readings|
  {
    if elapsed < target && readings != [] {
      var rest := Ticks(target, readings[0], readings[1..]);
      TicksNondecreasing(target, step, readings[0], readings[1..]);
      var t := Ticks(target, elapsed, readings);
      assert t == [elapsed] + rest;
      if rest != [] {
        forall j | 1 <= j < |t|
          ensures elapsed <= t[j]
        {
          assert t[j] == rest[j - 1];
          assert rest[0] <= rest[j - 1];
        }
      }
      forall i, j | 0 <= i <= j < |t|
        ensures t[i] <= t[j]
      {
        if i > 0 {
          assert t[i] == rest[i - 1] && t[j] == rest[j - 1];
        }
      }
    }
  }

  /** The elapsed time shown on the status line never goes backwards, for
      any step. */
  lemma ShownNeverDecreases(flags: Flags, target: int, readings: seq<int>, i: int, j: int)
    requires SleepsAtLeast(target, flags.step, 0, readings)
    requires 0 <= i <= j < |Ticks(target, 0, readings)|
    ensures var t := Ticks(target, 0, readings);
            t[i] >= 0 && Truncate(t[i], flags.step) <= Truncate(t[j], flags.step)
  {
    var t := Ticks(target, 0, readings);
    TicksNondecreasing(target, flags.step, 0, readings);
    assert t[0] <= t[i];
    TruncateMonotone(t[i], t[j], flags.step);
  }

  /** No wait at all: a target that is not positive draws no line, so the
      transcript is only the final clear. */
  lemma NothingToWait(flags: Flags, target: int, readings: seq<int>)
    requires |flags.style| == 4 && target <= 0
    ensures Ticks(target, 0, readings) == []
    ensures Transcript(flags, target, []) == [CarriageReturn, Escape, '[' as byte, 'K' as byte]
  {
  }

  /** The default flags pass the style check. */
  lemma DefaultsValid()
    ensures DefaultFlags.step > 0 && |DefaultFlags.style| == 4
  {
  }
}
