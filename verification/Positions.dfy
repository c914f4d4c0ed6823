/**
 Saturating 64-bit arithmetic and positions on the map. The number types are bounded, so an
 intermediate result outside its type would be an error: there is none.
 */
module Positions {
  import opened Bytes

  newtype int64 = n: int | -0x8000_0000_0000_0000 <= n < 0x8000_0000_0000_0000
  newtype uint64 = n: int | 0 <= n < 0x1_0000_0000_0000_0000
  newtype uint32 = n: int | 0 <= n < 0x1_0000_0000

  const INT64_MAX: int64 := 0x7fff_ffff_ffff_ffff
  const INT64_MIN: int64 := -0x8000_0000_0000_0000
  const UINT64_MAX: uint64 := 0xffff_ffff_ffff_ffff

  function Abs(n: int): nat { if n < 0 then -n else n }

  function ClampSigned(n: int): int64 {
    if n > INT64_MAX as int then INT64_MAX else if n < INT64_MIN as int then INT64_MIN else n as int64
  }

  function ClampUnsigned(n: nat): uint64 {
    if n > UINT64_MAX as int then UINT64_MAX else n as uint64
  }

  /** Integer division of the source language, which truncates toward zero. */
  function TruncDiv(n: int, d: int): int
    requires d != 0
  {
    if (n < 0) == (d < 0) then Abs(n) / Abs(d) else -(Abs(n) / Abs(d))
  }

  /** Reinterpreting a signed word as unsigned. */
  function ToUnsigned(n: int64): uint64 {
    (if n < 0 then n as int + 0x1_0000_0000_0000_0000 else n as int) as uint64
  }

  /** Reinterpreting an unsigned word as signed. */
  function ToSigned(n: uint64): int64 {
    if n as int <= INT64_MAX as int then n as int64 else (n as int - 0x1_0000_0000_0000_0000) as int64
  }

  lemma SignedAgain(n: int64)
    ensures ToSigned(ToUnsigned(n)) == n
  {
  }

  /** Unsigned addition and subtraction wrap around. */
  function WrappedAdd(a: uint64, b: uint64): uint64 {
    ((a as int + b as int) % 0x1_0000_0000_0000_0000) as uint64
  }

  function WrappedSub(a: uint64, b: uint64): uint64 {
    if a >= b then a - b else (a as int - b as int + 0x1_0000_0000_0000_0000) as uint64
  }

  // ---------------------------------------------------------------------------------------
  // The operations, for signed and unsigned operands
  // ---------------------------------------------------------------------------------------

  function Add(a: int64, b: int64): (r: int64)
    ensures r == ClampSigned(a as int + b as int)
  {
    if b > 0 && a > INT64_MAX - b then INT64_MAX
    else if b < 0 && a < INT64_MIN - b then INT64_MIN
    else a + b
  }

  function Sub(a: int64, b: int64): (r: int64)
    ensures r == ClampSigned(a as int - b as int)
  {
    if b > 0 && a < INT64_MIN + b then INT64_MIN
    else if b < 0 && a > INT64_MAX + b then INT64_MAX
    else a - b
  }

  function AddUnsigned(a: uint64, b: uint64): (r: uint64)
    ensures r == ClampUnsigned(a as int + b as int)
  {
    if b > 0 && a > UINT64_MAX - b then UINT64_MAX else a + b
  }

  function SubUnsigned(a: uint64, b: uint64): (r: uint64)
    ensures r as int == if a as int - b as int < 0 then 0 else a as int - b as int
  {
    if b > 0 && a < 0 + b then 0 else a - b
  }

  lemma ProductGrows(a: nat, c: nat, b: nat)
    requires a <= c
    ensures a * b <= c * b
  {
    assert c * b == a * b + (c - a) * b;
  }

  /** The division test for a product that exceeds a bound. */
  lemma ProductExceeds(a: nat, b: nat, bound: nat)
    requires b > 0
    ensures a > bound / b <==> a * b > bound
  {
    var q := bound / b;
    assert bound == q * b + bound % b;
    if a > q {
      ProductGrows(q + 1, a, b);
      assert (q + 1) * b == q * b + b;
    } else {
      ProductGrows(a, q, b);
    }
  }

  lemma ProductOfMagnitudes(a: int, b: int)
    ensures a * b == if (a < 0) == (b < 0) then Abs(a) * Abs(b) else -(Abs(a) * Abs(b))
  {
  }

  function MulUnsigned(a: uint64, b: uint64): (r: uint64)
    ensures r == ClampUnsigned(a as int * b as int)
  {
    if a == 0 || b == 0 then 0
    else
      ProductExceeds(a as int, b as int, UINT64_MAX as int);
      if a > UINT64_MAX / b then UINT64_MAX else (a as int * b as int) as uint64
  }

  function Mul(a: int64, b: int64): (r: int64)
    ensures r == ClampSigned(a as int * b as int)
  {
    var (x, y) := (a as int, b as int);
    if a == 0 || b == 0 then 0
    else
      ProductOfMagnitudes(x, y);
      ProductExceeds(Abs(x), Abs(y), INT64_MAX as int);
      ProductExceeds(Abs(x), Abs(y), 0x8000_0000_0000_0000);
      ProductExceeds(Abs(y), Abs(x), 0x8000_0000_0000_0000);
      if a > 0 && b > 0 && x > TruncDiv(INT64_MAX as int, y) then INT64_MAX
      else if a < 0 && b < 0 && x < TruncDiv(INT64_MAX as int, y) then INT64_MAX
      else if a > 0 && b < 0 && y < TruncDiv(INT64_MIN as int, x) then INT64_MIN
      else if a < 0 && b > 0 && x < TruncDiv(INT64_MIN as int, y) then INT64_MIN
      else (x * y) as int64
  }

  /** Subtraction of the reinterpreted words is the distance, with no wrap-around. */
  function Delta(a: int64, b: int64): (r: uint64)
    ensures r as int == Abs(a as int - b as int)
  {
    if a >= b then WrappedSub(ToUnsigned(a), ToUnsigned(b)) else WrappedSub(ToUnsigned(b), ToUnsigned(a))
  }

  // ---------------------------------------------------------------------------------------
  // Positions
  // ---------------------------------------------------------------------------------------

  datatype Position = Position(x: int64, y: int64) {
    function Plus(other: Position): Position { Position(Add(other.x, x), Add(other.y, y)) }

    function Minus(other: Position): Position { Position(Sub(x, other.x), Sub(y, other.y)) }

    function ManhattanDistance(other: Position): (d: uint64)
      ensures d == ClampUnsigned(Abs(x as int - other.x as int) + Abs(y as int - other.y as int))
    {
      AddUnsigned(Delta(other.x, x), Delta(other.y, y))
    }
  }

  /** The exact distance of two positions, which no word may be able to hold. */
  function TrueDistance(p: Position, q: Position): nat {
    Abs(p.x as int - q.x as int) + Abs(p.y as int - q.y as int)
  }

  /** Any byte can arrive as a direction; an unknown one is no offset. */
  function OffsetOf(direction: byte): Position {
    match direction
    case 0 => Position(0, 1)
    case 1 => Position(0, -1)
    case 2 => Position(-1, 0)
    case 3 => Position(1, 0)
    case _ => Position(0, 0)
  }

  lemma AbsTriangle(a: int, b: int, c: int)
    ensures Abs(a - b) == Abs(b - a)
    ensures Abs(a - b) == 0 <==> a == b
    ensures Abs(a - c) <= Abs(a - b) + Abs(b - c)
  {
  }

  /** The saturated distance is a metric. */
  lemma DistanceIsAMetric(p: Position, q: Position, r: Position)
    ensures p.ManhattanDistance(q) == 0 <==> p == q
    ensures p.ManhattanDistance(q) == q.ManhattanDistance(p)
    ensures p.ManhattanDistance(r) as int <= p.ManhattanDistance(q) as int + q.ManhattanDistance(r) as int
  {
    AbsTriangle(p.x as int, q.x as int, r.x as int);
    AbsTriangle(p.y as int, q.y as int, r.y as int);
    hide Position.ManhattanDistance, Abs;
  }

  /** One step moves by exactly one, except at the end of the number range or for an unknown byte. */
  lemma StepLength(p: Position, direction: byte)
    ensures var q := p.Plus(OffsetOf(direction));
            && (q == p || p.ManhattanDistance(q) == 1)
            && (q == p <==> direction > 3
                            || (direction == 0 && p.y == INT64_MAX) || (direction == 1 && p.y == INT64_MIN)
                            || (direction == 2 && p.x == INT64_MIN) || (direction == 3 && p.x == INT64_MAX))
  {
  }

  /** Subtraction undoes addition exactly when the addition did not saturate. */
  lemma MinusUndoesPlusIff(p: Position, q: Position)
    ensures p.Plus(q).Minus(q) == p <==>
            && INT64_MIN as int <= p.x as int + q.x as int <= INT64_MAX as int
            && INT64_MIN as int <= p.y as int + q.y as int <= INT64_MAX as int
  {
  }
}
