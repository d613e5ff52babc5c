/** Bytes, optional values, the 64-bit integer range and the growable byte
    buffer (Go's bytes.Buffer) that the program writes its status line into. */
module Bytes {

  /** One byte of output. */
  newtype byte = b: int | 0 <= b < 256

  const Space: byte := ' ' as byte
  const CarriageReturn: byte := '\r' as byte
  const Slash: byte := '/' as byte
  const Escape: byte := 27

  datatype Option<T> = None | Some(value: T)

  /** The range of Go's int and time.Duration: 64-bit two's complement. */
  const MinInt64: int := -0x8000_0000_0000_0000
  const MaxInt64: int := 0x7fff_ffff_ffff_ffff

  predicate IsInt64(x: int) {
    MinInt64 <= x <= MaxInt64
  }

  /** Go's integer division by a positive divisor, which truncates toward
      zero where Dafny's rounds down. */
  function Quot(a: int, b: int): (q: int)
    requires b > 0
    ensures a >= 0 ==> q == a / b
    ensures a < 0 ==> q <= 0
  {
    if a >= 0 then a / b else -((-a) / b)
  }

  /** The quotient is the whole number of divisors in a, counted toward zero. */
  lemma QuotientBounds(a: int, b: int)
    requires b > 0
    ensures var q := Quot(a, b);
            (a >= 0 ==> q * b <= a < q * b + b) &&
            (a < 0 ==> q * b - b < a <= q * b)
  {
  }

  /** bytes.Buffer: an append-only byte sequence that can be reset. */
  class Buffer {
    var bytes: seq<byte>

    constructor ()
      ensures bytes == []
    {
      bytes := [];
    }

    method WriteByte(b: byte)
      modifies this
      ensures bytes == old(bytes) + [b]
    {
      bytes := bytes + [b];
    }

    method Write(s: seq<byte>)
      modifies this
      ensures bytes == old(bytes) + s
    {
      bytes := bytes + s;
    }

    method Reset()
      modifies this
      ensures bytes == []
    {
      bytes := [];
    }
  }
}
