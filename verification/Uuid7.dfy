/** UUIDv7 packing: fields are shifted into place and OR-ed together (section 5.7 of RFC 9562).

    Integers are unbounded, as in the source; the bitwise operators are defined bit by bit. */
module Uuid7 {
  import opened Prelude

  // ---------------------------------------------------------------- bitwise arithmetic

  function BitOr(a: nat, b: nat): nat
    decreases a + b
  {
    if a == 0 && b == 0 then 0
    else 2 * BitOr(a / 2, b / 2) + if a % 2 == 1 || b % 2 == 1 then 1 else 0
  }

  function BitAnd(a: nat, b: nat): nat
    decreases a
  {
    if a == 0 then 0
    else 2 * BitAnd(a / 2, b / 2) + if a % 2 == 1 && b % 2 == 1 then 1 else 0
  }

  /** Bit `k` of a number. */
  predicate Bit(a: nat, k: nat) {
    if k == 0 then a % 2 == 1 else Bit(a / 2, k - 1)
  }

  /** The operators are the bitwise ones: each bit of the result is the disjunction, or the
      conjunction, of the two bits there. */
  lemma {:induction false} OrBits(a: nat, b: nat, k: nat)
    ensures Bit(BitOr(a, b), k) <==> Bit(a, k) || Bit(b, k)
    decreases k
  {
    OrStep(a, b);
    if k > 0 {
      OrBits(a / 2, b / 2, k - 1);
    }
  }

  lemma OrStep(a: nat, b: nat)
    ensures BitOr(a, b) / 2 == BitOr(a / 2, b / 2) && (BitOr(a, b) % 2 == 1 <==> a % 2 == 1 || b % 2 == 1)
  {
    if a == 0 && b == 0 {
      assert BitOr(0, 0) == 0;
    }
  }

  lemma {:induction false} AndBits(a: nat, b: nat, k: nat)
    ensures Bit(BitAnd(a, b), k) <==> Bit(a, k) && Bit(b, k)
    decreases k
  {
    AndStep(a, b);
    if k > 0 {
      AndBits(a / 2, b / 2, k - 1);
    }
  }

  lemma AndStep(a: nat, b: nat)
    ensures BitAnd(a, b) / 2 == BitAnd(a / 2, b / 2) && (BitAnd(a, b) % 2 == 1 <==> a % 2 == 1 && b % 2 == 1)
  {
    if a == 0 {
      assert BitAnd(0, b) == 0 && BitAnd(0, b / 2) == 0;
    }
  }

  function ShiftLeft(a: nat, k: nat): nat {
    if k == 0 then a else 2 * ShiftLeft(a, k - 1)
  }

  function ShiftRight(a: nat, k: nat): nat {
    if k == 0 then a else ShiftRight(a / 2, k - 1)
  }

  function Pow2(k: nat): nat {
    ShiftLeft(1, k)
  }

  lemma {:induction false} ShiftsCompose(a: nat, j: nat, k: nat)
    ensures ShiftLeft(ShiftLeft(a, j), k) == ShiftLeft(a, j + k)
  {
    if k > 0 {
      ShiftsCompose(a, j, k - 1);
    }
  }

  lemma {:induction false} ShiftsAdd(a: nat, b: nat, k: nat)
    ensures ShiftLeft(a + b, k) == ShiftLeft(a, k) + ShiftLeft(b, k)
    ensures a > 0 ==> ShiftLeft(a, k) > 0
  {
    if k > 0 {
      ShiftsAdd(a, b, k - 1);
    }
  }

  /** Shifting back drops exactly the low bits. */
  lemma {:induction false} ShiftBack(q: nat, r: nat, k: nat)
    requires r < Pow2(k)
    ensures ShiftRight(ShiftLeft(q, k) + r, k) == q
  {
    if k > 0 {
      ShiftBack(q, r / 2, k - 1);
      assert (ShiftLeft(q, k) + r) / 2 == ShiftLeft(q, k - 1) + r / 2;
    }
  }

  lemma {:induction false} OrZero(b: nat)
    ensures BitOr(0, b) == b && BitOr(b, 0) == b
    decreases b
  {
    if b != 0 {
      OrZero(b / 2);
    }
  }

  /** A number below 2^k and a multiple of 2^k share no bit, so OR-ing adds them. */
  lemma {:induction false} DisjointOr(k: nat, high: nat, low: nat)
    requires low < Pow2(k)
    ensures BitOr(ShiftLeft(high, k), low) == ShiftLeft(high, k) + low
    decreases k
  {
    if k == 0 {
      OrZero(high);
    } else {
      DisjointOr(k - 1, high, low / 2);
      OrHalves(ShiftLeft(high, k - 1), low);
    }
  }

  lemma OrHalves(half: nat, low: nat)
    ensures BitOr(2 * half, low) == 2 * BitOr(half, low / 2) + low % 2
  {
    assert 2 * half / 2 == half && (2 * half) % 2 == 0;
    if half == 0 && low == 0 {
      assert BitOr(0, 0) == 0;
    }
  }

  /** Masking with k ones keeps exactly the low k bits. */
  lemma {:induction false} MaskKeepsLow(k: nat, q: nat, r: nat)
    requires r < Pow2(k)
    ensures BitAnd(ShiftLeft(q, k) + r, Pow2(k) - 1) == r
    decreases k
  {
    if k == 0 {
      AndZero(q);
    } else {
      var half, m := ShiftLeft(q, k - 1), Pow2(k - 1);
      MaskKeepsLow(k - 1, q, r / 2);
      AndHalves(half, m, r);
      ShiftOnce(q, k);
      ShiftOnce(1, k);
    }
  }

  lemma ShiftOnce(a: nat, k: nat)
    requires k > 0
    ensures ShiftLeft(a, k) == 2 * ShiftLeft(a, k - 1)
    ensures a > 0 ==> ShiftLeft(a, k - 1) > 0
  {
    ShiftsAdd(a, 0, k - 1);
  }

  lemma AndHalves(half: nat, m: nat, r: nat)
    requires m >= 1
    ensures BitAnd(2 * half + r, 2 * m - 1) == 2 * BitAnd(half + r / 2, m - 1) + r % 2
  {
    var a, b := 2 * half + r, 2 * m - 1;
    assert a / 2 == half + r / 2 && a % 2 == r % 2;
    assert b / 2 == m - 1 && b % 2 == 1;
    if a == 0 {
      assert BitAnd(0, m - 1) == 0;
    }
  }

  lemma {:induction false} AndZero(a: nat)
    ensures BitAnd(a, 0) == 0
    decreases a
  {
    if a != 0 {
      AndZero(a / 2);
    }
  }

  /** Writing a field of the given width just below the bits already placed. */
  lemma Place(high: nat, field: nat, shift: nat, width: nat)
    requires field < Pow2(width)
    ensures BitOr(ShiftLeft(high, shift + width), ShiftLeft(field, shift)) == ShiftLeft(ShiftLeft(high, width) + field, shift)
  {
    ShiftsCompose(high, width, shift);
    ShiftsCompose(1, width, shift);
    ShiftsAdd(ShiftLeft(high, width), field, shift);
    ShiftsAdd(Pow2(width) - field, field, shift);
    DisjointOr(shift + width, high, ShiftLeft(field, shift));
  }

  lemma PlaceTwo(high: nat, upper: nat, upperWidth: nat, lower: nat, lowerWidth: nat, shift: nat)
    requires upper < Pow2(upperWidth) && lower < Pow2(lowerWidth)
    ensures var placed := BitOr(ShiftLeft(high, shift + lowerWidth + upperWidth), ShiftLeft(upper, shift + lowerWidth));
            BitOr(placed, ShiftLeft(lower, shift))
              == ShiftLeft(ShiftLeft(ShiftLeft(high, upperWidth) + upper, lowerWidth) + lower, shift)
  {
    Place(high, upper, shift + lowerWidth, upperWidth);
    Place(ShiftLeft(high, upperWidth) + upper, lower, shift, lowerWidth);
  }

  /** Five fields OR-ed together, the upper four shifted by the given amounts. */
  function PackedAt(high: nat, s0: nat, a: nat, s1: nat, b: nat, s2: nat, c: nat, s3: nat, d: nat): nat {
    BitOr(BitOr(BitOr(BitOr(ShiftLeft(high, s0), ShiftLeft(a, s1)), ShiftLeft(b, s2)), ShiftLeft(c, s3)), d)
  }

  /** Five fields stacked on one another, the lower four of the given widths. */
  function Stacked(high: nat, a: nat, wa: nat, b: nat, wb: nat, c: nat, wc: nat, d: nat, wd: nat): nat {
    ShiftLeft(ShiftLeft(ShiftLeft(ShiftLeft(high, wa) + a, wb) + b, wc) + c, wd) + d
  }

  lemma PlaceFour(high: nat, a: nat, wa: nat, b: nat, wb: nat, c: nat, wc: nat, d: nat, wd: nat)
    requires a < Pow2(wa) && b < Pow2(wb) && c < Pow2(wc) && d < Pow2(wd)
    ensures PackedAt(high, wd + wc + wb + wa, a, wd + wc + wb, b, wd + wc, c, wd, d)
              == Stacked(high, a, wa, b, wb, c, wc, d, wd)
  {
    var top := ShiftLeft(ShiftLeft(high, wa) + a, wb) + b;
    PlaceTwo(high, a, wa, b, wb, wd + wc);
    Place(top, c, wd, wc);
    DisjointOr(wd, ShiftLeft(top, wc) + c, d);
  }

  // ---------------------------------------------------------------- the layout

  const VERSION: nat := 0x7
  const VARIANT: nat := 2

  /** The five fields and their places: 48, 4, 12, 2 and 62 bits from the top. */
  function Layout(timestamp: nat, version: nat, randA: nat, variant: nat, randB: nat): nat {
    timestamp * 0x1_0000_0000_0000_0000_0000 + version * 0x1000_0000_0000_0000_0000
      + randA * 0x1_0000_0000_0000_0000 + variant * 0x4000_0000_0000_0000 + randB
  }

  predicate Fits(timestamp: nat, version: nat, randA: nat, variant: nat, randB: nat) {
    timestamp < 0x1_0000_0000_0000 && version < 0x10 && randA < 0x1000 && variant < 4 && randB < 0x4000_0000_0000_0000
  }

  lemma ShortShifts(a: nat)
    ensures ShiftLeft(a, 2) == a * 4 && ShiftLeft(a, 4) == a * 0x10
  {
    assert ShiftLeft(a, 1) == 2 * a;
    assert ShiftLeft(a, 3) == 2 * ShiftLeft(a, 2);
  }

  lemma ShiftTwelve(a: nat)
    ensures ShiftLeft(a, 12) == a * 0x1000
  {
    ShortShifts(a);
    ShiftsCompose(a, 4, 4);
    ShortShifts(a * 0x10);
    ShiftsCompose(a, 8, 4);
    ShortShifts(a * 0x100);
  }

  lemma ShiftFurther(a: nat, k: nat)
    ensures ShiftLeft(a, k + 2) == ShiftLeft(a, k) * 4
    ensures ShiftLeft(a, k + 4) == ShiftLeft(a, k) * 0x10
    ensures ShiftLeft(a, k + 12) == ShiftLeft(a, k) * 0x1000
  {
    ShiftsCompose(a, k, 2);
    ShiftsCompose(a, k, 4);
    ShiftsCompose(a, k, 12);
    ShortShifts(ShiftLeft(a, k));
    ShiftTwelve(ShiftLeft(a, k));
  }

  lemma LongShifts(a: nat)
    ensures ShiftLeft(a, 48) == a * 0x1_0000_0000_0000
    ensures ShiftLeft(a, 62) == a * 0x4000_0000_0000_0000
    ensures ShiftLeft(a, 64) == a * 0x1_0000_0000_0000_0000
    ensures ShiftLeft(a, 76) == a * 0x1000_0000_0000_0000_0000
    ensures ShiftLeft(a, 80) == a * 0x1_0000_0000_0000_0000_0000
  {
    ShiftFurther(a, 0);
    ShiftFurther(a, 12);
    ShiftFurther(a, 24);
    ShiftFurther(a, 36);
    ShiftFurther(a, 48);
    ShiftFurther(a, 60);
    ShiftFurther(a, 64);
    ShiftFurther(a, 76);
  }

  lemma FieldWidths()
    ensures Pow2(2) == 4 && Pow2(4) == 0x10 && Pow2(12) == 0x1000
    ensures Pow2(48) == 0x1_0000_0000_0000 && Pow2(62) == 0x4000_0000_0000_0000
  {
    ShortShifts(1);
    ShiftTwelve(1);
    LongShifts(1);
  }

  /** The five fields at their places. */
  function Packed(timestamp: nat, version: nat, randA: nat, variant: nat, randB: nat): nat {
    PackedAt(timestamp, 80, version, 76, randA, 64, variant, 62, randB)
  }

  /** No field reaches into another: OR-ing them is adding them. */
  lemma PackedIsLayout(timestamp: nat, version: nat, randA: nat, variant: nat, randB: nat)
    requires Fits(timestamp, version, randA, variant, randB)
    ensures Packed(timestamp, version, randA, variant, randB) == Layout(timestamp, version, randA, variant, randB)
  {
    FieldWidths();
    PlaceFour(timestamp, version, 4, randA, 12, variant, 2, randB, 62);
    StackedIsLayout(timestamp, version, randA, variant, randB);
  }

  lemma StackedIsLayout(timestamp: nat, version: nat, randA: nat, variant: nat, randB: nat)
    ensures Stacked(timestamp, version, 4, randA, 12, variant, 2, randB, 62)
              == Layout(timestamp, version, randA, variant, randB)
  {
    ShortShifts(timestamp);
    var top52 := timestamp * 0x10 + version;
    ShiftTwelve(top52);
    var top64 := top52 * 0x1000 + randA;
    ShortShifts(top64);
    LongShifts(top64 * 4 + variant);
  }

  /** The generator, given the clock and the two random draws. */
  method Uuid7(timeNs: nat, randA: nat, randB: nat) returns (value: nat)
    requires randA < 0x1000 && randB < 0x4000_0000_0000_0000
    ensures value == Layout((timeNs / 1_000_000) % 0x1_0000_0000_0000, VERSION, randA, VARIANT, randB)
  {
    var timestampMs := timeNs / 1_000_000;
    LowBits(timestampMs);
    PackedIsLayout(timestampMs % 0x1_0000_0000_0000, VERSION, randA, VARIANT, randB);
    value := ShiftLeft(BitAnd(timestampMs, 0xFFFF_FFFF_FFFF), 80);
    value := BitOr(value, ShiftLeft(VERSION, 76));
    value := BitOr(value, ShiftLeft(randA, 64));
    value := BitOr(value, ShiftLeft(VARIANT, 62));
    value := BitOr(value, randB);
  }

  lemma LowBits(a: nat)
    ensures BitAnd(a, 0xFFFF_FFFF_FFFF) == a % 0x1_0000_0000_0000
  {
    FieldWidths();
    LongShifts(a / 0x1_0000_0000_0000);
    MaskKeepsLow(48, a / 0x1_0000_0000_0000, a % 0x1_0000_0000_0000);
  }

  // ---------------------------------------------------------------- reading it back

  function VariantOf(value: nat): nat {
    ShiftRight(value, 62) % 4
  }

  function VersionOf(value: nat): nat {
    ShiftRight(value, 76) % 16
  }

  datatype ValueError = NotVersion7

  /** The version is only defined for variant 0b10; anything else is refused. */
  function TimestampMs(value: nat): Result<nat, ValueError> {
    if VariantOf(value) == VARIANT && VersionOf(value) == 7 then Ok(ShiftRight(value, 80)) else Err(NotVersion7)
  }

  /** The fields do not overlap: the value is a 128-bit number from which each is recovered. */
  lemma FieldsRecovered(timestamp: nat, version: nat, randA: nat, variant: nat, randB: nat)
    requires Fits(timestamp, version, randA, variant, randB)
    ensures var value := Layout(timestamp, version, randA, variant, randB);
            && value < 0x1_0000_0000_0000_0000_0000_0000_0000_0000
            && ShiftRight(value, 80) == timestamp
            && VersionOf(value) == version
            && ShiftRight(value, 64) % 0x1000 == randA
            && VariantOf(value) == variant
            && value % 0x4000_0000_0000_0000 == randB
  {
    var low64 := variant * 0x4000_0000_0000_0000 + randB;
    var low76 := randA * 0x1_0000_0000_0000_0000 + low64;
    var low80 := version * 0x1000_0000_0000_0000_0000 + low76;
    var top52 := timestamp * 0x10 + version;
    var top64 := top52 * 0x1000 + randA;
    var top66 := top64 * 4 + variant;
    LayoutTops(timestamp, version, randA, variant, randB, low64, low76, low80, top52, top64, top66);
    ReadAt(timestamp, low80);
    ReadAt(top52, low76);
    ReadAt(top64, low64);
    ReadAt(top66, randB);
    Remainders(timestamp, top52, version, randA, top64, variant, top66, randB);
  }

  /** The layout cut in two below each field. */
  lemma LayoutTops(timestamp: nat, version: nat, randA: nat, variant: nat, randB: nat,
                   low64: nat, low76: nat, low80: nat, top52: nat, top64: nat, top66: nat)
    requires Fits(timestamp, version, randA, variant, randB)
    requires low64 == variant * 0x4000_0000_0000_0000 + randB
    requires low76 == randA * 0x1_0000_0000_0000_0000 + low64
    requires low80 == version * 0x1000_0000_0000_0000_0000 + low76
    requires top52 == timestamp * 0x10 + version && top64 == top52 * 0x1000 + randA && top66 == top64 * 4 + variant
    ensures var value := Layout(timestamp, version, randA, variant, randB);
            && value == timestamp * 0x1_0000_0000_0000_0000_0000 + low80 && low80 < 0x1_0000_0000_0000_0000_0000
            && value == top52 * 0x1000_0000_0000_0000_0000 + low76 && low76 < 0x1000_0000_0000_0000_0000
            && value == top64 * 0x1_0000_0000_0000_0000 + low64 && low64 < 0x1_0000_0000_0000_0000
            && value == top66 * 0x4000_0000_0000_0000 + randB
            && value < 0x1_0000_0000_0000_0000_0000_0000_0000_0000
  {
  }

  lemma Remainders(timestamp: nat, top52: nat, version: nat, randA: nat, top64: nat, variant: nat, top66: nat, randB: nat)
    requires version < 0x10 && top52 == timestamp * 0x10 + version
    requires randA < 0x1000 && top64 == top52 * 0x1000 + randA
    requires variant < 4 && top66 == top64 * 4 + variant
    requires randB < 0x4000_0000_0000_0000
    ensures top52 % 0x10 == version && top64 % 0x1000 == randA && top66 % 4 == variant
    ensures (top66 * 0x4000_0000_0000_0000 + randB) % 0x4000_0000_0000_0000 == randB
  {
    RemainderSmall(timestamp, version);
    RemainderTwelve(top52, randA);
    RemainderTwo(top64, variant);
    RemainderLow(top66, randB);
  }

  lemma RemainderSmall(q: nat, r: nat)
    requires r < 0x10
    ensures (q * 0x10 + r) % 0x10 == r
  {
  }

  lemma RemainderTwelve(q: nat, r: nat)
    requires r < 0x1000
    ensures (q * 0x1000 + r) % 0x1000 == r
  {
  }

  lemma RemainderTwo(q: nat, r: nat)
    requires r < 4
    ensures (q * 4 + r) % 4 == r
  {
  }

  lemma RemainderLow(q: nat, r: nat)
    requires r < 0x4000_0000_0000_0000
    ensures (q * 0x4000_0000_0000_0000 + r) % 0x4000_0000_0000_0000 == r
  {
  }

  /** A part above each of the four places the reader shifts by is read back whole. */
  lemma ReadAt(top: nat, low: nat)
    ensures low < 0x4000_0000_0000_0000 ==> ShiftRight(top * 0x4000_0000_0000_0000 + low, 62) == top
    ensures low < 0x1_0000_0000_0000_0000 ==> ShiftRight(top * 0x1_0000_0000_0000_0000 + low, 64) == top
    ensures low < 0x1000_0000_0000_0000_0000 ==> ShiftRight(top * 0x1000_0000_0000_0000_0000 + low, 76) == top
    ensures low < 0x1_0000_0000_0000_0000_0000 ==> ShiftRight(top * 0x1_0000_0000_0000_0000_0000 + low, 80) == top
  {
    LongShifts(1);
    LongShifts(top);
    if low < Pow2(62) { ShiftBack(top, low, 62); }
    if low < Pow2(64) { ShiftBack(top, low, 64); }
    if low < Pow2(76) { ShiftBack(top, low, 76); }
    if low < Pow2(80) { ShiftBack(top, low, 80); }
  }

  /** What a generated id says, for any clock and any random draw. */
  lemma GeneratedIdReads(timestamp: nat, randA: nat, randB: nat)
    requires Fits(timestamp % 0x1_0000_0000_0000, VERSION, randA, VARIANT, randB)
    ensures var value := Layout(timestamp % 0x1_0000_0000_0000, VERSION, randA, VARIANT, randB);
            && VersionOf(value) == 7 && VariantOf(value) == 2
            && TimestampMs(value) == Ok(timestamp % 0x1_0000_0000_0000)
            && (TimestampMs(value) == Ok(timestamp) <==> timestamp < 0x1_0000_0000_0000)
  {
    FieldsRecovered(timestamp % 0x1_0000_0000_0000, VERSION, randA, VARIANT, randB);
  }

  /** A later millisecond gives a larger id, whatever the random bits. */
  lemma LaterIsLarger(t: nat, u: nat, a: nat, b: nat, c: nat, d: nat)
    requires Fits(t, VERSION, a, VARIANT, b) && Fits(u, VERSION, c, VARIANT, d)
    ensures t < u ==> Layout(t, VERSION, a, VARIANT, b) < Layout(u, VERSION, c, VARIANT, d)
    ensures t == u && a == c && b == d <==> Layout(t, VERSION, a, VARIANT, b) == Layout(u, VERSION, c, VARIANT, d)
  {
    FieldsRecovered(t, VERSION, a, VARIANT, b);
    FieldsRecovered(u, VERSION, c, VARIANT, d);
  }

  lemma {:induction false} ShiftedBits(value: nat, k: nat, j: nat)
    ensures Bit(ShiftRight(value, k), j) <==> Bit(value, k + j)
    decreases k
  {
    if k > 0 {
      ShiftedBits(value / 2, k - 1, j);
    }
  }

  /** The lowest bits, one at a time. */
  lemma LowBit(a: nat, k: nat)
    ensures Bit(a, k + 1) <==> Bit(a / 2, k)
    ensures Bit(a, 0) <==> a % 2 == 1
  {
  }

  /** Halving a number halves its remainder by an even divisor. */
  lemma HalfRemainder(a: nat, q: nat, r: nat, m: nat)
    requires m > 0 && r < 2 * m && a == 2 * (q * m) + r
    ensures a / 2 == q * m + r / 2 && a % 2 == r % 2 && r / 2 < m
  {
    var p := q * m;
    assert a == 2 * p + r;
  }

  lemma HalvesFour(a: nat)
    ensures a % 4 == 2 * (a / 2 % 2) + a % 2
  {
    HalfRemainder(a, a / 4, a % 4, 2);
    assert (a / 4 * 2 + a % 4 / 2) % 2 == a % 4 / 2;
  }

  lemma HalvesEight(a: nat)
    ensures a % 8 == 2 * (a / 2 % 4) + a % 2
  {
    HalfRemainder(a, a / 8, a % 8, 4);
    RemainderTwo(a / 8, a % 8 / 2);
  }

  lemma HalvesSixteen(a: nat)
    ensures a % 16 == 2 * (a / 2 % 8) + a % 2
  {
    HalfRemainder(a, a / 16, a % 16, 8);
    RemainderThree(a / 16, a % 16 / 2);
  }

  lemma RemainderThree(q: nat, r: nat)
    requires r < 8
    ensures (q * 8 + r) % 8 == r
  {
  }

  lemma LowTwo(a: nat)
    ensures a % 4 == 2 <==> Bit(a, 1) && !Bit(a, 0)
    ensures a % 4 == 3 <==> Bit(a, 1) && Bit(a, 0)
    ensures a % 4 == 1 <==> !Bit(a, 1) && Bit(a, 0)
  {
    HalvesFour(a);
    LowBit(a, 0);
    LowBit(a / 2, 0);
  }

  lemma LowThree(a: nat)
    ensures a % 8 == 3 <==> !Bit(a, 2) && Bit(a, 1) && Bit(a, 0)
  {
    HalvesEight(a);
    LowBit(a, 0);
    LowBit(a, 1);
    LowTwo(a / 2);
  }

  lemma LowFour(a: nat)
    ensures a % 16 == 7 <==> !Bit(a, 3) && Bit(a, 2) && Bit(a, 1) && Bit(a, 0)
  {
    HalvesSixteen(a);
    LowBit(a, 0);
    LowBit(a, 1);
    LowBit(a, 2);
    LowThree(a / 2);
  }

  /** A timestamp is read from exactly the values whose variant bits are 10 and whose version bits
      are 0111, and it is what stands above the lowest 80 bits; any other value is refused. */
  lemma TimestampExactly(value: nat)
    ensures TimestampMs(value) == Ok(value / 0x1_0000_0000_0000_0000_0000) <==>
              && Bit(value, 63) && !Bit(value, 62)
              && !Bit(value, 79) && Bit(value, 78) && Bit(value, 77) && Bit(value, 76)
    ensures TimestampMs(value).Ok? ==> TimestampMs(value) == Ok(value / 0x1_0000_0000_0000_0000_0000)
  {
    var variant, version := ShiftRight(value, 62), ShiftRight(value, 76);
    LowTwo(variant);
    LowFour(version);
    ShiftedBits(value, 62, 0);
    ShiftedBits(value, 62, 1);
    ShiftedBits(value, 76, 0);
    ShiftedBits(value, 76, 1);
    ShiftedBits(value, 76, 2);
    ShiftedBits(value, 76, 3);
    TopBits(value);
  }

  lemma TopBits(value: nat)
    ensures ShiftRight(value, 80) == value / 0x1_0000_0000_0000_0000_0000
  {
    ReadAt(value / 0x1_0000_0000_0000_0000_0000, value % 0x1_0000_0000_0000_0000_0000);
  }
}
