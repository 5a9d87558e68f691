/**
 The rule table of the Entombed automaton and the 5-bit neighbourhood code
 that indexes it (entombed.py:108-156, 199-200, 254-267).
 */
module Rules {
  import opened Arith

  /** Table entries and cell values. */
  const NoWall := 0
  const Wall := 1
  const RandomChoice := 2

  /** A maze cell: 0 is no wall, 1 is a wall. */
  type Bit = x: int | 0 <= x <= 1

  /**
   A rule table as the program holds it: a list of integers. A table read
   from the command line is not checked, so neither its length nor its values
   are constrained here.
   */
  type Table = seq<int>

  /** Every entry is one of NoWall, Wall, RandomChoice. */
  predicate ValidValues(lut: Table) {
    forall i :: 0 <= i < |lut| ==> NoWall <= lut[i] <= RandomChoice
  }

  /** The compiled-in table, indexed by the code of (a, b, c, d, e). */
  const DefaultLut: Table := [
    Wall,         Wall,   Wall,         RandomChoice,
    NoWall,       NoWall, RandomChoice, RandomChoice,
    Wall,         Wall,   Wall,         Wall,
    RandomChoice, NoWall, NoWall,       NoWall,
    Wall,         Wall,   Wall,         RandomChoice,
    NoWall,       NoWall, NoWall,       NoWall,
    RandomChoice, NoWall, Wall,         RandomChoice,
    RandomChoice, NoWall, NoWall,       NoWall
  ]

  lemma DefaultLutShape()
    ensures |DefaultLut| == 32 && ValidValues(DefaultLut)
  {
  }

  /**
   `get_idx`: bit k of the code is the k-th argument. A set argument shifted
   left by k contributes 2^k and a clear one contributes nothing; an OR of
   bits in distinct positions is their sum. GetIdxIsBitwiseOr states the
   correspondence with the shifts and ORs.
   */
  function GetIdx(a: Bit, b: Bit, c: Bit, d: Bit, e: Bit): (idx: nat)
    ensures idx < 32
  {
    (if a == 1 then 1 else 0) + (if b == 1 then 2 else 0) + (if c == 1 then 4 else 0)
    + (if d == 1 then 8 else 0) + (if e == 1 then 16 else 0)
  }

  /** The code is the binary number edcba. */
  lemma GetIdxIsWeightedSum(a: Bit, b: Bit, c: Bit, d: Bit, e: Bit)
    ensures GetIdx(a, b, c, d, e) == a + 2 * b + 4 * c + 8 * d + 16 * e
  {
  }

  /** The code is exactly the OR of the shifted bits, as the source computes it. */
  lemma GetIdxIsBitwiseOr(a: Bit, b: Bit, c: Bit, d: Bit, e: Bit)
    ensures GetIdx(a, b, c, d, e)
      == (((a as bv5) << 0) | ((b as bv5) << 1) | ((c as bv5) << 2) | ((d as bv5) << 3) | ((e as bv5) << 4)) as int
  {
  }

  /** The five cells a new cell depends on. */
  datatype Neighbourhood = Neighbourhood(a: Bit, b: Bit, c: Bit, d: Bit, e: Bit)

  function Code(n: Neighbourhood): nat {
    GetIdx(n.a, n.b, n.c, n.d, n.e)
  }

  /**
   The bit decoding of `print_rules`: bit k of `idx` is `(idx & 2^k) >> k`,
   which for a non-negative `idx` is `(idx / 2^k) % 2`.
   */
  function DecodeIdx(idx: nat): (n: Neighbourhood)
    ensures Code(n) == idx % 32
  {
    LowFiveBits(idx);
    Neighbourhood(idx % 2, (idx / 2) % 2, (idx / 4) % 2, (idx / 8) % 2, (idx / 16) % 2)
  }

  /** The low five bits of `idx`, one halving at a time. */
  lemma LowFiveBits(idx: nat)
    ensures idx % 32 == idx % 2 + 2 * ((idx / 2) % 2) + 4 * ((idx / 4) % 2) + 8 * ((idx / 8) % 2) + 16 * ((idx / 16) % 2)
  {
    var b0, x1 := idx % 2, idx / 2;
    var b1, x2 := x1 % 2, x1 / 2;
    var b2, x3 := x2 % 2, x2 / 2;
    var b3, x4 := x3 % 2, x3 / 2;
    var b4, x5 := x4 % 2, x4 / 2;
    DivBetween(idx, x2, 4);
    DivBetween(idx, x3, 8);
    DivBetween(idx, x4, 16);
    DivBetween(idx, x5, 32);
  }

  /** For an index of a 32-entry table, DecodeIdx is the mask-and-shift decoding. */
  lemma DecodeIdxIsMaskShift(idx: nat)
    requires idx < 32
    ensures var x := idx as bv5;
      DecodeIdx(idx) == Neighbourhood(((x & 1) >> 0) as int, ((x & 2) >> 1) as int, ((x & 4) >> 2) as int,
                                      ((x & 8) >> 3) as int, ((x & 16) >> 4) as int)
  {
  }

  /** Decoding the code of five bits gives the five bits back. */
  lemma DecodeGetIdx(n: Neighbourhood)
    ensures DecodeIdx(Code(n)) == n
  {
    GetIdxIsWeightedSum(n.a, n.b, n.c, n.d, n.e);
    BitsOfWeightedSum(n.a, n.b, n.c, n.d, n.e);
  }

  /** Bit k of a + 2b + 4c + 8d + 16e is the k-th of the five bits. */
  lemma BitsOfWeightedSum(a: Bit, b: Bit, c: Bit, d: Bit, e: Bit)
    ensures var x := a + 2 * b + 4 * c + 8 * d + 16 * e;
      && x % 2 == a && (x / 2) % 2 == b && (x / 4) % 2 == c && (x / 8) % 2 == d && (x / 16) % 2 == e
  {
    var x := a + 2 * b + 4 * c + 8 * d + 16 * e;
    BitAt(x, 1, a, b + 2 * c + 4 * d + 8 * e, 0);
    BitAt(x, 2, b, c + 2 * d + 4 * e, a);
    BitAt(x, 4, c, d + 2 * e, a + 2 * b);
    BitAt(x, 8, d, e, a + 2 * b + 4 * c);
    BitAt(x, 16, e, 0, a + 2 * b + 4 * c + 8 * d);
  }

  /** The bit of weight `s` in `low + s * (bit + 2 * high)`, when `low` is below `s`. */
  lemma BitAt(x: int, s: int, bit: Bit, high: nat, low: nat)
    requires s > 0 && low < s && x == low + s * (bit + 2 * high)
    ensures (x / s) % 2 == bit
  {
    DivBetween(x, bit + 2 * high, s);
  }
  /** Every index of a 32-entry table is the code of exactly its decoding. */
  lemma GetIdxDecode(idx: nat)
    requires idx < 32
    ensures Code(DecodeIdx(idx)) == idx
  {
    assert idx % 32 == idx;
  }

  /** Distinct neighbourhoods select distinct table entries. */
  lemma GetIdxInjective(n: Neighbourhood, m: Neighbourhood)
    requires Code(n) == Code(m)
    ensures n == m
  {
    DecodeGetIdx(n);
    DecodeGetIdx(m);
  }
}
