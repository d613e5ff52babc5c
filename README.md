# in — a verified model of the sleep-with-progress-bar utility

`in` is a command-line utility that sleeps for a given duration
(`in 2m30s && run_a_command`) while it redraws a one-line status on standard
error every `--step`: a progress bar in a four-character `--style`, the
elapsed time truncated to the step, a slash and the total, in Go's
`1h2m3.5s` notation. It exits 127 without a duration argument and 1 for a
duration that does not parse or a style that is not exactly four
characters.

This Dafny project models the whole program core in `in.go`:

- `bytes.dfy` (module `Bytes`): bytes, `Option`, the 64-bit integer range
  and `Buffer`, the append-only byte buffer the status line is built in.
- `decimal.dfy` (module `Decimal`): decimal digit strings, as written by
  `strconv.AppendInt` and as the seconds fraction is written.
- `duration.dfy` (module `DurationFormat`): `writeTimeUnit` and
  `writeDuration` as methods of the class `DurationBuffer`. The class holds
  the global 32-byte `durationBuffer` as a `seq<byte>` field.
  `WriteDuration` is proved against the specification function `Format`,
  and `WriteTimeUnit` against `UnitTerm` and `UnitRest`.
- `duration_reader.dfy` (module `DurationReader`): a reader for the
  formatter's notation. It is a left inverse of `Format`:
  `ReadDuration(Format(d)) == Some(d)` for every non-negative `d`.
- `progress.dfy` (module `ProgressBar`): `writeProgressbar` with its two
  counting loops, proved against the specification function `Bar`.
- `wait.dfy` (module `WaitLoop`): the checks of `main` and their exit
  codes, `Duration.Truncate`, the sleep between redraws, and the redraw
  loop `Run`. The clock is a sequence of readings, and `Run` is proved to
  write exactly `Transcript` and sleep exactly `Sleeps`.

Durations and times are integer nanoseconds. Standard error is the byte
sequence `Run` returns.

## Model

| member | source | states |
|---|---|---|
| Bytes.Buffer.WriteByte | in.go:46 | appends one byte to the buffer |
| Bytes.Buffer.Write | in.go:53 | appends a byte string to the buffer |
| Bytes.Buffer.Reset | in.go:111 | empties the buffer after each status line is flushed |
| Decimal.Digits | in.go:59 | the decimal text of a count has at least one digit and starts with '0' only for zero |
| Decimal.DigitsValue | in.go:59 | the decimal text written for a count denotes that count |
| Decimal.DigitsLength | in.go:59 | a count below 10^k takes at most k digits |
| Decimal.PadValue | in.go:72 | the nine-digit padded fraction denotes the remainder modulo 10^9 |
| Decimal.StripZeros | in.go:72 | dropping trailing zeros keeps a prefix that does not end in '0' |
| Decimal.StripZerosValue | in.go:72 | dropping trailing zeros divides the value by the matching power of ten |
| Bytes.Quot | in.go:58 | Go's `/` on int64 agrees with Euclidean division for a non-negative dividend and is never positive for a negative one |
| Bytes.QuotientBounds | in.go:45 | Go's truncating quotient is the whole number of divisors in the dividend, counted toward zero, for both signs |
| DurationFormat.UnitTerm | in.go:57-63 | writeTimeUnit writes a term exactly when the remainder holds at least one whole unit |
| DurationFormat.UnitTermCount | in.go:58-60 | a written unit term is the count of whole units followed by the unit letter |
| DurationFormat.UnitRest | in.go:61 | the remainder left after a unit is rem mod unit for rem >= 0, and unchanged when below one unit |
| DurationFormat.RestIsMod | in.go:61 | subtracting the whole units leaves rem mod unit |
| DurationFormat.QuotAtLeastOne | in.go:58 | the quotient is at least one exactly when rem >= unit |
| DurationFormat.Format | in.go:66-76 | the formatted text is never shorter than two bytes |
| DurationFormat.DurationBuffer.constructor | in.go:40 | the global buffer starts as 32 zero bytes |
| DurationFormat.DurationBuffer.WriteTimeUnit | in.go:57-63 | appends exactly the unit term to the buffer and returns the remainder after the whole units |
| DurationFormat.DurationBuffer.WriteDuration | in.go:66-76 | resets the buffer, so its new content is Format(d) whatever it held before; appends that same text to out; for every int64 duration it fits the 32-byte capacity |
| DurationFormat.SplitAddsUp | in.go:69-70 | hours, minutes and the seconds remainder add back up to d, with minutes < 60 and remainder < 60 s |
| DurationFormat.FormatLastUnit | in.go:71-74 | the text ends in 's' iff d < 1 min or d is not whole minutes, in 'm' iff whole minutes but not whole hours, and in 'h' iff whole hours |
| DurationFormat.FormatZero | in.go:71-74 | zero is written "0s" |
| DurationFormat.FormatOneHour | in.go:69-74 | one hour is written "1h" with no seconds term |
| DurationFormat.FormatNinetySeconds | in.go:66-76 | ninety seconds is written "1m30s" |
| DurationFormat.FormatHourMinuteAndAHalf | in.go:66-76 | 3661.5 s is written "1h1m1.5s" |
| DurationFormat.OneAndAHalfSeconds | in.go:72 | 1.5 s of remainder is written "1.5" |
| DurationFormat.FormatFitsBuffer | in.go:40 | every int64 duration formats in at most 32 bytes |
| DurationFormat.NegativeFits | in.go:40 | a negative duration formats in at most 22 bytes |
| DurationFormat.NonNegativeFits | in.go:40 | a non-negative duration formats in at most 24 bytes |
| DurationFormat.HoursTermFits | in.go:58-60 | the hours term of an int64 duration takes at most 8 bytes |
| DurationFormat.MinutesTermFits | in.go:58-60 | the minutes term takes at most 3 bytes |
| DurationFormat.SecondsPartFits | in.go:71-73 | the seconds term takes at most 13 bytes |
| DurationFormat.DecimalSecondsLength | in.go:72 | the seconds text is at most ten bytes longer than the whole-seconds bound |
| DurationFormat.DecimalSeconds | in.go:72 | the seconds text starts with a digit, and is digits only exactly when the remainder is a whole number of seconds; otherwise it has a decimal point |
| DurationFormat.SecondsText | in.go:72 | the seconds text starts with '-' exactly when the remainder is negative |
| DurationFormat.SecondsTerm | in.go:71-74 | the seconds term is written iff nothing was written before it or the remainder is not zero, and then ends in 's'; ReadSeconds shows it reads back as the remainder |
| DurationFormat.FormatTerms | in.go:66-76 | the text is the hours term, then the minutes term, then the seconds term |
| DurationReader.DigitSpan | in.go:59 | the digit run at the front of a text is maximal |
| DurationReader.ReadTerm | in.go:57-63 | reading a term consumes input |
| DurationReader.ReadSecondsTerm | in.go:72-73 | the seconds text followed by 's' reads back as the remainder in nanoseconds |
| DurationReader.ReadSeconds | in.go:71-74 | a seconds term, written or not, reads back as exactly the remainder |
| DurationReader.ReadWrittenSeconds | in.go:72-73 | a written seconds term reads back as exactly the remainder |
| DurationReader.NoTrailingZero | in.go:72 | the seconds text is the shortest one: a fraction never ends in a zero digit |
| DurationReader.ReadUnitTerms | in.go:57-63 | a unit term in front of text worth v reads back as v plus the whole units removed |
| DurationReader.ReadFormat | in.go:66-76 | reading the formatted text back gives d again, for every d >= 0 |
| DurationReader.FormatInjective | in.go:66-76 | distinct non-negative durations are formatted differently |
| ProgressBar.FillCount | in.go:45 | the number of filled cells; FillBounds and FillMonotone state its range and monotonicity |
| ProgressBar.Repeat | in.go:47-52 | a counting loop to n writes max(n, 0) copies of one byte |
| ProgressBar.WriteRepeated | in.go:47-52 | each counting loop appends exactly Repeat(b, n) |
| ProgressBar.WriteProgressbar | in.go:43-55 | appends exactly Bar(...) to out |
| ProgressBar.NoRoomNoBar | in.go:44 | a length of 2 or less writes nothing at all, not even the trailing space |
| ProgressBar.FillBounds | in.go:45 | for 0 <= elapsed <= total the fill count lies in [0, W], and equals W iff elapsed == total |
| ProgressBar.FillMonotone | in.go:45 | the fill count never decreases as elapsed grows |
| ProgressBar.QuotientMonotone | in.go:45 | truncation toward zero is monotone |
| ProgressBar.BarLayout | in.go:46-53 | a bar with room is W + 3 bytes: start, the filled cells, the unfilled cells, end, space |
| ProgressBar.UsableWidthAsWritten | in.go:44 | barLen - 2 in wrapping int64 arithmetic equals the intended width except for the two smallest lengths |
| ProgressBar.MinLengthWraps | in.go:44 | for length MinInt64 the computed width wraps to MaxInt64 - 1 |
| WaitLoop.Validate | in.go:86-100 | the checks run in order: valid iff an argument is given, it parses and the style has 4 bytes; no argument gives NoDuration; a bad style is reported only after a good duration |
| WaitLoop.ExitCodes | in.go:88-100 | exit 127 iff no argument; exit 1 iff a bad duration or a style whose length is not 4; no early exit otherwise |
| WaitLoop.Truncate | in.go:106 | the shown time is a multiple of the step, within one step of elapsed toward zero; a non-positive step leaves it unchanged |
| WaitLoop.ExitCode | in.go:88-99 | an early exit happens exactly when validation fails, and its status is 127 exactly for a missing duration |
| WaitLoop.Rem | in.go:106 | Go's remainder inside Duration.Truncate takes the dividend's sign, lies within one step of 0, and leaves a whole number of steps |
| WaitLoop.TruncateMonotone | in.go:106 | a later elapsed time never shows a smaller value |
| WaitLoop.SleepFor | in.go:112-116 | the sleep is min(remaining, step) |
| WaitLoop.Sleeps | in.go:112-116 | one sleep per drawn status line |
| WaitLoop.Execute | in.go:86-118 | main as a whole: the exit status is ExitCode of the checks; on an early exit, a bad style included, no status line is drawn and nothing is slept; otherwise the output and sleeps are those of the wait loop |
| WaitLoop.Run | in.go:101-118 | standard error receives exactly one status line per tick and then the clearing sequence; the sleeps are SleepFor of each tick; the loop stops at the first reading >= the target |
| WaitLoop.Redraw | in.go:104-116 | one loop turn adds the status line for elapsed to standard error and one sleep, leaving the buffer empty |
| WaitLoop.WriteStatus | in.go:104-109 | a status line is "\r", the bar, the truncated elapsed time, "/", the total and ESC[K |
| WaitLoop.NextTick | in.go:103 | a turn of the loop draws the current tick, and a reading that ends the wait is still ahead |
| WaitLoop.AppendTick | in.go:104-116 | one more tick adds one status line and one sleep |
| WaitLoop.ClockReachesTarget | in.go:103-116 | with a positive step, a clock that advances at least each sleep reaches the target within ceil(target / step) readings, so the loop stops |
| WaitLoop.ReachesFrom | in.go:112-116 | after k whole steps the remaining readings still reach the target in time |
| WaitLoop.EnoughReadings | in.go:103 | while the loop runs there is a reading left |
| WaitLoop.TicksBelowTarget | in.go:103 | every status line is drawn for an elapsed time below the target |
| WaitLoop.TicksSpaced | in.go:112-116 | the first tick is the start and consecutive ticks are at least one step apart |
| WaitLoop.TicksNondecreasing | in.go:103-116 | for any step the ticks start at the start time and never decrease, because a sleep never takes negative time |
| WaitLoop.ShownNeverDecreases | in.go:106 | for any step the elapsed time shown is non-negative and never goes backwards |
| WaitLoop.NothingToWait | in.go:103-118 | a target <= 0 draws no line, so standard error gets only "\r" ESC[K |
| WaitLoop.DefaultsValid | in.go:31-37 | the default flags have a positive step and a 4-character style |

## Left out

- Flag parsing, the usage text, the error-message texts and `os.Exit` are not modelled. `Validate` and `ExitCode` give the decision and the status code.
- `time.ParseDuration` is not modelled. Its result is the parameter `parsed` of `Validate`, with None for a parse error.
- `time.Now`, `time.Since` and `time.Sleep` are not modelled. The clock is the sequence `readings` of successive `time.Since(start)` values. `SleepsAtLeast` states that each reading is at least the previous one plus the time slept, which is the requested sleep, or zero when that is not positive.
- Writing to `os.Stderr` is not modelled as I/O. `Run` returns the bytes as `stderr`.
- WaitLoop.Run: requires that some reading reaches the target, since the loop runs until the clock says so. `ClockReachesTarget` derives this for a positive step from `SleepsAtLeast`.
- ProgressBar.FillCount: is the integer quotient of W * elapsed by total in nanoseconds. The source computes `int((elapsed / total) * W)` in float64 seconds, and rounding can put that one cell off where W * elapsed / total is at or close to a whole number.
- DurationFormat.SecondsText: is the exact decimal of the remainder in seconds, with up to nine fraction digits and no trailing zeros. The source uses `strconv.AppendFloat` with shortest precision.
  - These agree for the non-negative remainders below one minute that the program formats. The division by 1e9 is correctly rounded, and a decimal of at most 11 significant digits survives a round trip through a double, so the shortest text that reads back as the double is that decimal.
  - They can differ for negative durations of large magnitude, from about 2^23 seconds (8.4·10^15 ns). The program never formats those.
- `bytes.Buffer` growth and the reuse of `durationBuffer`'s backing array are not modelled. Both are modelled as growing sequences.
- The comment at in.go:40 names "2540400h59m59.000000001" as the longest text. A longest text is in fact the one for MaxInt64 (2562047h47m16.854775807s, 24 bytes; other texts such as 1000000h10m10.000000001s tie with it). The 32-byte bound still holds: `FormatFitsBuffer` proves it for every int64.

## Findings

| source | as written | input that shows it | evidently intended | confidence | as-written member | corrected member |
|---|---|---|---|---|---|---|
| in.go:44 | `*BarLen - 2` is computed in int64 and wraps | `--length=-9223372036854775808` gives a width of 9223372036854775806 | a length of 2 or less draws no bar | not executed | ProgressBar.UsableWidthAsWritten, ProgressBar.MinLengthWraps | ProgressBar.NoRoomNoBar |
