/** The progress bar of the status line: writeProgressbar. Elapsed and total
    time are integer nanoseconds here, so the fill count is an integer
    quotient. */
module ProgressBar {
  import opened Bytes
  import opened Decimal

  /** Room left for the fill once the start and end characters are placed. */
  function UsableWidth(barLen: int): int
  {
    barLen - 2
  }

  /** How many of the w cells are filled after elapsed out of total: Go's
      int() of the quotient, which rounds toward zero. */
  function FillCount(w: int, elapsed: int, total: int): int
    requires total > 0
  {
    Quot(w * elapsed, total)
  }

  /** n copies of b; none when n is zero or negative, as a counting loop
      from 0 while i < n writes none. */
  function Repeat(b: byte, n: int): (s: seq<byte>)
    ensures |s| == if n > 0 then n else 0
    ensures forall i :: 0 <= i < |s| ==> s[i] == b
    decreases n
  {
    if n <= 0 then [] else Repeat(b, n - 1) + [b]
  }

  /** The bytes writeProgressbar appends: nothing when there is no room,
      otherwise start, filled cells, unfilled cells, end and a space. */
  function Bar(barLen: int, style: seq<byte>, elapsed: int, total: int): seq<byte>
    requires total > 0 && (barLen > 2 ==> |style| >= 4)
  {
    var w := UsableWidth(barLen);
    if w <= 0 then []
    else
      var p := FillCount(w, elapsed, total);
      [style[0]] + Repeat(style[1], p) + Repeat(style[2], w - p) + [style[3], Space]
  }

  /** Appends the bar for elapsed out of total to out. */
  method WriteProgressbar(out: Buffer, barLen: int, style: seq<byte>, elapsed: int, total: int)
    requires total > 0 && (barLen > 2 ==> |style| >= 4)
    modifies out
    ensures out.bytes == old(out.bytes) + Bar(barLen, style, elapsed, total)
  {
    var w := UsableWidth(barLen);
    if w > 0 {
      var progress := FillCount(w, elapsed, total);
      out.WriteByte(style[0]);
      WriteRepeated(out, style[1], progress);
      WriteRepeated(out, style[2], w - progress);
      out.Write([style[3], Space]);
    }
  }

  /** One of the bar's counting loops: appends n copies of b. */
  method WriteRepeated(out: Buffer, b: byte, n: int)
    modifies out
    ensures out.bytes == old(out.bytes) + Repeat(b, n)
  {
    var i := 0;
    while i < n
      invariant 0 <= i && (i <= n || i == 0)
      invariant out.bytes == old(out.bytes) + Repeat(b, i)
    {
      out.WriteByte(b);
      i := i + 1;
    }
    assert Repeat(b, i) == Repeat(b, n);
  }

  /** With no room for a fill the bar is left out entirely, decoration and
      trailing space included. */
  lemma NoRoomNoBar(barLen: int, style: seq<byte>, elapsed: int, total: int)
    requires total > 0 && barLen <= 2
    ensures Bar(barLen, style, elapsed, total) == []
  {
  }

  /** The fill count of a time within the total lies between 0 and w, and
      is w exactly when the time is up. */
  lemma FillBounds(w: int, elapsed: int, total: int)
    requires w > 0 && total > 0 && 0 <= elapsed <= total
    ensures 0 <= FillCount(w, elapsed, total) <= w
    ensures FillCount(w, elapsed, total) == w <==> elapsed == total
  {
    var n, full := w * elapsed, w * total;
    MulMonotone(w, elapsed, total);
    MulMonotone(w, 0, elapsed);
    DivMonotone(n, full, total);
    MulDiv(w, total);
    if elapsed < total {
      MulMonotone(w, elapsed + 1, total);
      assert n < full;
      BelowWhole(n, w, total);
    }
  }

  lemma MulMonotone(a: int, b: int, c: int)
    requires a >= 0 && b <= c
    ensures a * b <= a * c
  {
  }

  lemma DivMonotone(a: int, b: int, t: int)
    requires 0 <= a <= b && t > 0
    ensures a / t <= b / t
  {
    var qa, qb := a / t, b / t;
    if qa > qb {
      MulMonotone(t, qb + 1, qa);
    }
  }

  lemma MulDiv(w: int, t: int)
    requires t > 0
    ensures (w * t) / t == w
  {
    ModUnique(w * t, t, w, 0);
  }

  /** A count below w whole totals has fewer than w totals in it. */
  lemma BelowWhole(n: int, w: int, t: int)
    requires 0 <= n < w * t && t > 0
    ensures n / t < w
  {
    var q := n / t;
    if q >= w {
      MulMonotone(t, w, q);
    }
  }

  /** The fill never shrinks as time goes on. */
  lemma FillMonotone(w: int, e1: int, e2: int, total: int)
    requires w >= 0 && total > 0 && e1 <= e2
    ensures FillCount(w, e1, total) <= FillCount(w, e2, total)
  {
    MulMonotone(w, e1, e2);
    QuotientMonotone(w * e1, w * e2, total);
  }

  lemma NonNegativeQuotient(n: int, t: int)
    requires n >= 0 && t > 0
    ensures n / t >= 0
  {
  }

  lemma QuotientMonotone(n1: int, n2: int, total: int)
    requires total > 0 && n1 <= n2
    ensures Quot(n1, total) <= Quot(n2, total)
  {
    var q1, q2 := Quot(n1, total), Quot(n2, total);
    if n1 >= 0 {
      assert q1 == n1 / total && q2 == n2 / total;
      DivMonotone(n1, n2, total);
    } else if n2 < 0 {
      assert q1 == -((-n1) / total) && q2 == -((-n2) / total);
      DivMonotone(-n2, -n1, total);
    } else {
      assert q1 == -((-n1) / total) && q2 == n2 / total;
      NonNegativeQuotient(-n1, total);
      NonNegativeQuotient(n2, total);
    }
  }

  /** The layout of a bar with room: w + 3 bytes, style[0], then the filled
      cells, the unfilled cells, style[3] and a space. */
  lemma BarLayout(barLen: int, style: seq<byte>, elapsed: int, total: int)
    requires total > 0 && barLen > 2 && |style| >= 4 && 0 <= elapsed <= total
    ensures var bar, w := Bar(barLen, style, elapsed, total), barLen - 2;
            var p := FillCount(w, elapsed, total);
            |bar| == w + 3 &&
            bar[0] == style[0] &&
            (forall i :: 1 <= i <= p ==> bar[i] == style[1]) &&
            (forall i :: p < i <= w ==> bar[i] == style[2]) &&
            bar[w + 1] == style[3] && bar[w + 2] == Space
  {
    var w := barLen - 2;
    FillBounds(w, elapsed, total);
    var p := FillCount(w, elapsed, total);
    var filled, unfilled := Repeat(style[1], p), Repeat(style[2], w - p);
    var bar := Bar(barLen, style, elapsed, total);
    assert bar == [style[0]] + filled + unfilled + [style[3], Space];
    forall i | 1 <= i <= p
      ensures bar[i] == style[1]
    {
      assert bar[i] == filled[i - 1];
    }
    forall i | p < i <= w
      ensures bar[i] == style[2]
    {
      assert bar[i] == unfilled[i - 1 - p];
    }
  }

  /** The width as the source computes it: barLen - 2 in 64-bit arithmetic,
      which wraps for the two smallest lengths. */
  function UsableWidthAsWritten(barLen: int): (w: int)
    requires IsInt64(barLen)
    ensures IsInt64(w)
    ensures barLen >= MinInt64 + 2 ==> w == UsableWidth(barLen)
  {
    var w := barLen - 2;
    if w < MinInt64 then w + 0x1_0000_0000_0000_0000 else w
  }

  /** A length of -9223372036854775808 passes the "room for a fill" test
      and asks for a bar of 2^63 - 2 cells, where the intended reading of
      the length gives no bar at all. */
  lemma MinLengthWraps()
    ensures UsableWidthAsWritten(MinInt64) == MaxInt64 - 1
    ensures UsableWidthAsWritten(MinInt64) > 0 && UsableWidth(MinInt64) <= 0
  {
  }
}
