/** Entities of the block statistics report: the blocks read from the block
    store, the per-page summary row, and the fixed-width integer arithmetic of
    the Go program (uint64 block heights and nanosecond timestamps, int64
    conversions, division that truncates toward zero). */
module Blocks {

  /** 2^64: one more than the largest uint64. */
  const U64: int := 0x1_0000_0000_0000_0000
  /** 2^63: one more than the largest int64. */
  const I64: int := 0x8000_0000_0000_0000

  /** Go's uint64 (primitives.BlockHeight, primitives.TimestampNano, the row counters). */
  type uint64 = x: int | 0 <= x < 0x1_0000_0000_0000_0000

  datatype Option<+T> = None | Some(value: T)

  /** A Go slice length: a non-negative int, so below 2^63. */
  type Length = x: int | 0 <= x < 0x8000_0000_0000_0000

  /** One block as the scan sees it: its height, its header timestamp in
      nanoseconds since the epoch, and the number of its signed transactions. */
  datatype Block = Block(height: uint64, timestamp: uint64, txCount: Length)

  /** One summary row per page. The source calls the last field a median, but
      it holds the closing-time histogram's mean. */
  datatype Row = Row(
    timestamp: uint64,
    blockHeight: uint64,
    txCount: uint64,
    medianBlockClosingTimeMs: int)

  function Last<T>(s: seq<T>): T
    requires |s| > 0
  {
    s[|s| - 1]
  }

  /** Go's uint64 arithmetic: the result is taken modulo 2^64. */
  function Wrap64(x: int): (r: uint64)
    ensures 0 <= x < U64 ==> r == x
    ensures -U64 < x < 0 ==> r == x + U64
    ensures U64 <= x < 2 * U64 ==> r == x - U64
  {
    x % U64
  }

  /** Go's int64(x) for a uint64 x: the same 64 bits read as two's complement. */
  function ToInt64(x: uint64): (r: int)
    ensures -I64 <= r < I64
    ensures Wrap64(r) == x
  {
    if x < I64 then x else x - U64
  }

  /** Go's integer division, which truncates toward zero (Dafny's `/` floors
      for a positive divisor). */
  function TruncDiv(x: int, d: int): int
    requires d > 0
  {
    if x >= 0 then x / d else -((-x) / d)
  }

  /** The quotient has the sign of x and is x / d with the fraction dropped:
      q * d is the multiple of d nearest to x on the side of zero. */
  lemma TruncDivMeaning(x: int, d: int)
    requires d > 0
    ensures x >= 0 ==> 0 <= TruncDiv(x, d) && TruncDiv(x, d) * d <= x < TruncDiv(x, d) * d + d
    ensures x < 0 ==> TruncDiv(x, d) <= 0 && TruncDiv(x, d) * d - d < x <= TruncDiv(x, d) * d
  {
    var n := if x >= 0 then x else -x;
    var q := n / d;
    FloorDiv(n, d);
    if x < 0 {
      assert TruncDiv(x, d) == -q;
      assert (-q) * d == -(q * d);
    }
  }

  lemma FloorDiv(n: int, d: int)
    requires n >= 0 && d > 0
    ensures 0 <= n / d && (n / d) * d <= n < (n / d) * d + d
  {
    var q, r := n / d, n % d;
    assert n == d * q + r && 0 <= r < d;
    assert q * d == d * q;
  }
}
