/** bits.c on 32-bit words: greatestBitPos and bitMask against the loops of tests.c, addOK against the
    64-bit sum. Shift amounts, which these functions keep between 0 and 31, are 5-bit values; left shifts
    drop the bits that leave the word. */
module Bits {
  const SIGN: bv32 := 0x8000_0000

  /** C's >> on an int: the sign bit comes in from the left. */
  function Sar(x: bv32, n: bv5): bv32 {
    if x & SIGN == 0 then x >> n else !(!x >> n)
  }

  /** !!x, as part of a shift amount. */
  function Bit(x: bv32): bv5 {
    if x == 0 then 0 else 1
  }

  // ---------------------------------------------------------------- greatestBitPos

  /** Step 1: 8 for each of the three masks that x meets. */
  function ByteShift(x: bv32): bv5 {
    var mask3 := (0xFF as bv32) << 24;
    var mask2 := Sar(mask3, 8);
    var mask1 := Sar(mask2, 8);
    CountMasks(x, mask1, mask2, mask3)
  }

  function CountMasks(x: bv32, mask1: bv32, mask2: bv32, mask3: bv32): bv5 {
    AddEights(x & mask1, x & mask2, x & mask3)
  }

  function AddEights(a: bv32, b: bv32, c: bv32): bv5 {
    (Bit(a) << 3) + (Bit(b) << 3) + (Bit(c) << 3)
  }

  /** Step 2: the binary search inside the byte at shift. */
  function SearchByte(x: bv32, shift: bv5): bv32 {
    var signif := Sar(x, shift) & 0xFF;
    SearchNibble(x, shift + (Bit(signif & 0xF0) << 2))
  }

  function SearchNibble(x: bv32, shift: bv5): bv32 {
    var signif := Sar(x, shift) & 0x0F;
    SearchPair(x, shift + (Bit(signif & 0x0C) << 1))
  }

  function SearchPair(x: bv32, shift: bv5): bv32 {
    var signif := Sar(x, shift) & 0x3;
    TakeBit(x, shift + Bit(signif & 0x2))
  }

  function TakeBit(x: bv32, shift: bv5): bv32 {
    (Sar(x, shift) & 0x1) << shift
  }

  function GreatestBitPos(x: bv32): bv32 {
    SearchByte(x, ByteShift(x))
  }

  /** r marks the most significant 1 bit of x: a single bit, set in x, with no bit of x above it. */
  predicate TopBit(x: bv32, r: bv32) {
    r != 0 && r & (r - 1) == 0 && r & x == r && x & !(r | (r - 1)) == 0
  }

  lemma TopBitUnique(x: bv32, r: bv32, s: bv32)
    requires TopBit(x, r) && TopBit(x, s)
    ensures r == s
  {
  }

  /** The masks the shifts of step 1 build. */
  lemma Masks()
    ensures (0xFF as bv32) << 24 == 0xFF00_0000
    ensures Sar(0xFF00_0000, 8) == 0xFFFF_0000 && Sar(0xFFFF_0000, 8) == 0xFFFF_FF00
  {
  }

  lemma MaskedShift(x: bv32)
    ensures ByteShift(x) == CountMasks(x, 0xFFFF_FF00, 0xFFFF_0000, 0xFF00_0000)
  {
    Masks();
  }

  lemma CountEights(a: bv32, b: bv32, c: bv32)
    requires (c != 0 ==> b != 0) && (b != 0 ==> a != 0)
    ensures AddEights(a, b, c) == if c != 0 then 24 else if b != 0 then 16 else if a != 0 then 8 else 0
  {
  }

  /** A word that meets a narrower mask meets the wider ones. */
  lemma MasksNest(x: bv32)
    ensures x & 0xFF00_0000 != 0 ==> x & 0xFFFF_0000 != 0
    ensures x & 0xFFFF_0000 != 0 ==> x & 0xFFFF_FF00 != 0
  {
  }

  lemma CountNested(x: bv32, mask1: bv32, mask2: bv32, mask3: bv32)
    requires (x & mask3 != 0 ==> x & mask2 != 0) && (x & mask2 != 0 ==> x & mask1 != 0)
    ensures CountMasks(x, mask1, mask2, mask3)
         == if x & mask3 != 0 then 24 else if x & mask2 != 0 then 16 else if x & mask1 != 0 then 8 else 0
  {
    CountEights(x & mask1, x & mask2, x & mask3);
  }

  /** Step 1 shifts to the highest nonzero byte. */
  lemma HighestByte(x: bv32)
    ensures ByteShift(x) == if x & 0xFF00_0000 != 0 then 24
                            else if x & 0xFFFF_0000 != 0 then 16
                            else if x & 0xFFFF_FF00 != 0 then 8
                            else 0
  {
    MaskedShift(x);
    MasksNest(x);
    CountNested(x, 0xFFFF_FF00, 0xFFFF_0000, 0xFF00_0000);
  }

  /** With the sign bit set the arithmetic shifts keep the top of every window at 1. */
  lemma SearchNegative(x: bv32)
    requires x & SIGN != 0
    ensures SearchByte(x, 24) == SIGN
  {
    assert SearchByte(x, 24) == SearchNibble(x, 28);
    assert SearchNibble(x, 28) == SearchPair(x, 30);
    assert SearchPair(x, 30) == TakeBit(x, 31);
  }

  lemma SignIsTop(x: bv32)
    requires x & SIGN != 0
    ensures TopBit(x, SIGN)
  {
  }

  lemma SearchByte3(x: bv32)
    requires x & SIGN == 0 && x & 0xFF00_0000 != 0
    ensures TopBit(x, SearchByte(x, 24))
  {
  }

  lemma SearchByte2(x: bv32)
    requires x & 0xFF00_0000 == 0 && x & 0xFFFF_0000 != 0
    ensures TopBit(x, SearchByte(x, 16))
  {
  }

  lemma SearchByte1(x: bv32)
    requires x & 0xFFFF_0000 == 0 && x & 0xFFFF_FF00 != 0
    ensures TopBit(x, SearchByte(x, 8))
  {
  }

  lemma SearchByte0(x: bv32)
    requires x & 0xFFFF_FF00 == 0 && x != 0
    ensures TopBit(x, SearchByte(x, 0))
  {
  }

  lemma SearchZero()
    ensures SearchByte(0, 0) == 0
  {
  }

  /** For every word the branch-free search marks the top bit, and gives 0 for 0. */
  lemma GreatestBitPosRight(x: bv32)
    ensures if x == 0 then GreatestBitPos(x) == 0 else TopBit(x, GreatestBitPos(x))
  {
    HighestByte(x);
    if x & SIGN != 0 {
      SearchNegative(x);
      SignIsTop(x);
    } else if x & 0xFF00_0000 != 0 {
      SearchByte3(x);
    } else if x & 0xFFFF_0000 != 0 {
      SearchByte2(x);
    } else if x & 0xFFFF_FF00 != 0 {
      SearchByte1(x);
    } else if x != 0 {
      SearchByte0(x);
    } else {
      SearchZero();
    }
  }

  lemma TopBitAt(x: bv32, k: bv5)
    requires x >> k == 1
    ensures x != 0 && TopBit(x, (1 as bv32) << k)
  {
  }

  /** In other words: for x from 2^k up to 2^(k+1) - 1 the search gives 2^k. */
  lemma GreatestBitPosMeans(x: bv32, k: bv5)
    requires x >> k == 1
    ensures GreatestBitPos(x) == (1 as bv32) << k
  {
    TopBitAt(x, k);
    SearchAgrees(x, (1 as bv32) << k);
  }

  /** The loop of test_greatestBitPos has not passed the top bit. */
  predicate NotPassed(x: bv32, mask: bv32) {
    mask != 0 && mask & (mask - 1) == 0 && x & !(mask | (mask - 1)) == 0
  }

  lemma ShiftMask(x: bv32, mask: bv32)
    requires x != 0 && NotPassed(x, mask) && mask & x == 0
    ensures NotPassed(x, mask >> 1) && mask >> 1 < mask
  {
  }

  /** test_greatestBitPos: the loop terminates, with the same answer as the search. */
  method TestGreatestBitPos(x: bv32) returns (mask: bv32)
    ensures mask == GreatestBitPos(x)
  {
    mask := 0x8000_0000;
    if x == 0 {
      GreatestBitPosRight(0);
      return 0;
    }
    while mask & x == 0
      invariant NotPassed(x, mask)
      decreases mask
    {
      ShiftMask(x, mask);
      mask := mask >> 1;
    }
    SingleBit(x, mask);
    SearchAgrees(x, mask);
  }

  lemma SearchAgrees(x: bv32, r: bv32)
    requires x != 0 && TopBit(x, r)
    ensures r == GreatestBitPos(x)
  {
    GreatestBitPosRight(x);
    TopBitUnique(x, r, GreatestBitPos(x));
  }

  lemma SingleBit(x: bv32, mask: bv32)
    requires NotPassed(x, mask) && mask & x != 0
    ensures TopBit(x, mask)
  {
  }

  // ---------------------------------------------------------------- bitMask

  /** The shift amount 32 + ~n, at most 31 for a bit position n. */
  lemma ShiftAmount(n: bv32)
    requires n <= 31
    ensures 32 + !n == 31 - n && 31 - n <= 31
  {
  }

  function Amount(n: bv5): bv5 {
    ShiftAmount(n as bv32);
    (32 + !(n as bv32)) as bv5
  }

  lemma AmountIs(n: bv5)
    ensures Amount(n) == 31 - n
  {
    ShiftAmount(n as bv32);
  }

  /** x & ~y */
  function Minus(x: bv32, y: bv32): bv32 {
    x & !y
  }

  function Complement(x: bv32): bv32 {
    !x
  }

  function BitMask(highbit: bv5, lowbit: bv5): bv32 {
    Minus(From(lowbit), Above(highbit))
  }

  /** x in the source: ones from lowbit on. */
  function From(lowbit: bv5): bv32 {
    Sar(0x80 << 24, Amount(lowbit))
  }

  /** y in the source, before the complement: ones above highbit. */
  function Above(highbit: bv5): bv32 {
    var y: bv32 := if highbit ^ 31 != 0 then 1 else 0;
    Sar(y << 31, Amount(highbit)) << 1
  }

  /** The lowest n bits. */
  function Ones(n: bv6): bv32 {
    if n >= 32 then 0xFFFF_FFFF else ((1 as bv32) << n) - 1
  }

  /** Bits low to n - 1. */
  function Span(n: bv6, low: bv6): bv32 {
    Minus(Ones(n), Ones(low))
  }

  /** Bits lowbit to highbit. */
  function Between(highbit: bv5, lowbit: bv5): bv32 {
    if lowbit <= highbit then Span(highbit as bv6 + 1, lowbit as bv6) else 0
  }

  predicate IsSet(x: bv32, k: bv5) {
    x & ((1 as bv32) << k) != 0
  }

  lemma UpToSet(highbit: bv5, k: bv5)
    ensures IsSet(Ones(highbit as bv6 + 1), k) <==> k <= highbit
  {
  }

  lemma BelowSet(lowbit: bv5, k: bv5)
    ensures IsSet(Ones(lowbit as bv6), k) <==> k < lowbit
  {
  }

  lemma AndSet(a: bv32, b: bv32, k: bv5)
    ensures IsSet(a & b, k) <==> IsSet(a, k) && IsSet(b, k)
  {
  }

  lemma NotSet(a: bv32, k: bv5)
    ensures IsSet(!a, k) <==> !IsSet(a, k)
  {
  }

  lemma MinusSet(a: bv32, b: bv32, k: bv5)
    ensures IsSet(Minus(a, b), k) <==> IsSet(a, k) && !IsSet(b, k)
  {
    AndSet(a, !b, k);
    NotSet(b, k);
  }

  /** Bit k is in the mask exactly when lowbit <= k <= highbit. */
  lemma BetweenMeans(highbit: bv5, lowbit: bv5, k: bv5)
    ensures IsSet(Between(highbit, lowbit), k) <==> lowbit <= k <= highbit
  {
    if lowbit <= highbit {
      UpToSet(highbit, k);
      BelowSet(lowbit, k);
      MinusSet(Ones(highbit as bv6 + 1), Ones(lowbit as bv6), k);
    }
  }

  lemma SignDown(lowbit: bv5)
    ensures Sar(0x8000_0000, 31 - lowbit) == Complement(Ones(lowbit as bv6))
  {
  }

  lemma SignDownUp(highbit: bv5)
    requires highbit != 31
    ensures Sar(0x8000_0000, 31 - highbit) << 1 == Complement(Ones(highbit as bv6 + 1))
  {
  }

  lemma FromIs(lowbit: bv5)
    ensures From(lowbit) == Complement(Ones(lowbit as bv6))
  {
    AmountIs(lowbit);
    SignDown(lowbit);
  }

  lemma AboveIs(highbit: bv5)
    ensures Above(highbit) == Complement(Ones(highbit as bv6 + 1))
  {
    AmountIs(highbit);
    if highbit == 31 {
      assert Sar(0, Amount(31)) << 1 == 0;
    } else {
      assert highbit ^ 31 != 0;
      SignDownUp(highbit);
    }
  }

  lemma SpanEmpty(a: bv6, b: bv6)
    requires a <= b <= 32
    ensures Span(a, b) == 0
  {
  }

  lemma MinusComplement(x: bv32, y: bv32)
    ensures Minus(Complement(y), Complement(x)) == Minus(x, y)
  {
  }

  /** The shifts always cut out the bits from lowbit up to highbit. */
  lemma MaskIsSpan(highbit: bv5, lowbit: bv5)
    ensures BitMask(highbit, lowbit) == Span(highbit as bv6 + 1, lowbit as bv6)
  {
    FromIs(lowbit);
    AboveIs(highbit);
    MinusComplement(Ones(highbit as bv6 + 1), Ones(lowbit as bv6));
  }

  /** For all bit positions the shifts give the intended mask. */
  lemma BitMaskRight(highbit: bv5, lowbit: bv5)
    ensures BitMask(highbit, lowbit) == Between(highbit, lowbit)
  {
    MaskIsSpan(highbit, lowbit);
    if lowbit > highbit {
      SpanEmpty(highbit as bv6 + 1, lowbit as bv6);
    }
  }

  /** Bit k is in the mask that the shifts give exactly when lowbit <= k <= highbit. */
  lemma BitMaskMeans(highbit: bv5, lowbit: bv5, k: bv5)
    ensures BitMask(highbit, lowbit) & ((1 as bv32) << k) != 0 <==> lowbit <= k <= highbit
  {
    BitMaskRight(highbit, lowbit);
    BetweenMeans(highbit, lowbit, k);
    SetMeans(BitMask(highbit, lowbit), k);
  }

  lemma SetMeans(x: bv32, k: bv5)
    ensures IsSet(x, k) <==> x & ((1 as bv32) << k) != 0
  {
  }

  function Single(k: bv6): bv32
    requires k < 32
  {
    (1 as bv32) << k
  }

  lemma OneMore(i: bv6)
    requires i < 32
    ensures Ones(i + 1) == Ones(i) | Single(i)
  {
  }

  lemma NotBelow(low: bv6, i: bv6)
    requires low <= i < 32
    ensures Single(i) & Ones(low) == 0
  {
  }

  lemma OrOutside(a: bv32, b: bv32, low: bv32)
    requires b & low == 0
    ensures Minus(a, low) | b == Minus(a | b, low)
  {
  }

  lemma SpanNext(low: bv6, i: bv6)
    requires low <= i < 32
    ensures Span(i, low) | Single(i) == Span(i + 1, low)
  {
    OneMore(i);
    NotBelow(low, i);
    OrOutside(Ones(i), Single(i), Ones(low));
  }

  /** The loop of test_bitMask before bit i. */
  predicate Collected(highbit: bv5, lowbit: bv5, i: bv6, result: bv32) {
    InLoop(highbit, lowbit, i) && result == Span(i, lowbit as bv6)
  }

  predicate InLoop(highbit: bv5, lowbit: bv5, i: bv6) {
    lowbit as bv6 <= i <= 32 && (i <= highbit as bv6 + 1 || i == lowbit as bv6)
  }

  lemma LoopStarts(highbit: bv5, lowbit: bv5)
    ensures InLoop(highbit, lowbit, lowbit as bv6)
  {
  }

  lemma LoopNext(highbit: bv5, lowbit: bv5, i: bv6)
    requires InLoop(highbit, lowbit, i) && i <= highbit as bv6
    ensures lowbit as bv6 <= i < 32 && InLoop(highbit, lowbit, i + 1) && 33 - (i + 1) < 33 - i
  {
  }

  /** The loop ends at highbit + 1, or never started. */
  lemma LoopEnds(highbit: bv5, lowbit: bv5, i: bv6)
    requires InLoop(highbit, lowbit, i) && i > highbit as bv6
    ensures if lowbit <= highbit then i == highbit as bv6 + 1 else i == lowbit as bv6
  {
  }

  lemma NothingCollected(highbit: bv5, lowbit: bv5)
    ensures Collected(highbit, lowbit, lowbit as bv6, 0)
  {
    LoopStarts(highbit, lowbit);
    SpanEmpty(lowbit as bv6, lowbit as bv6);
  }

  lemma CollectOne(highbit: bv5, lowbit: bv5, i: bv6, result: bv32)
    requires Collected(highbit, lowbit, i, result) && i <= highbit as bv6
    ensures i < 32 && Collected(highbit, lowbit, i + 1, result | Single(i)) && 33 - (i + 1) < 33 - i
  {
    LoopNext(highbit, lowbit, i);
    SpanNext(lowbit as bv6, i);
  }

  lemma AllCollected(highbit: bv5, lowbit: bv5, i: bv6, result: bv32)
    requires Collected(highbit, lowbit, i, result) && i > highbit as bv6
    ensures result == Between(highbit, lowbit)
  {
    LoopEnds(highbit, lowbit, i);
    if lowbit > highbit {
      SpanEmpty(i, i);
    }
  }

  /** test_bitMask: the bit-by-bit OR agrees, for highbit 31 and lowbit above highbit too. */
  method TestBitMask(highbit: bv5, lowbit: bv5) returns (result: bv32)
    ensures result == BitMask(highbit, lowbit)
  {
    result := 0;
    var i: bv6 := lowbit as bv6;
    NothingCollected(highbit, lowbit);
    while i <= highbit as bv6
      invariant Collected(highbit, lowbit, i, result)
      decreases 33 - i
    {
      CollectOne(highbit, lowbit, i, result);
      result := result | Single(i);
      i := i + 1;
    }
    AllCollected(highbit, lowbit, i, result);
    BitMaskRight(highbit, lowbit);
  }

  // ---------------------------------------------------------------- addOK

  /** !!(sumMatchesX | sumMatchesY), for a given sum. */
  function SignsAgree(x: bv32, y: bv32, sum: bv32): bv32 {
    var sumMatchesX := ((sum & SIGN) ^ !(x & SIGN)) & SIGN;
    var sumMatchesY := ((sum & SIGN) ^ !(y & SIGN)) & SIGN;
    if sumMatchesX | sumMatchesY == 0 then 0 else 1
  }

  function AddOK(x: bv32, y: bv32): bv32 {
    SignsAgree(x, y, x + y)
  }

  const HIGH: bv64 := 0xFFFF_FFFF_0000_0000

  /** int to long long: negative words are filled with ones. */
  function Extend(x: bv32): bv64 {
    if x < SIGN then x as bv64 else (x as bv64) | HIGH
  }

  /** long long to int. */
  function Truncate(l: bv64): bv32 {
    (l & 0xFFFF_FFFF) as bv32
  }

  function LongSum(a: bv64, b: bv64): bv64 {
    a + b
  }

  /** test_addOK: the 64-bit sum survives the conversion to int. */
  predicate TestAddOK(x: bv32, y: bv32) {
    Survives(LongSum(Extend(x), Extend(y)))
  }

  predicate Survives(lsum: bv64) {
    lsum == Extend(Truncate(lsum))
  }

  lemma SignMatches(sum: bv32, x: bv32)
    ensures ((sum & SIGN) ^ !(x & SIGN)) & SIGN != 0 <==> (sum < SIGN <==> x < SIGN)
  {
  }

  lemma EitherBit(a: bv32, b: bv32)
    ensures a | b != 0 <==> a != 0 || b != 0
  {
  }

  lemma SignsAgreeMeans(x: bv32, y: bv32, sum: bv32)
    ensures SignsAgree(x, y, sum) == if (sum < SIGN <==> x < SIGN) || (sum < SIGN <==> y < SIGN) then 1 else 0
  {
    SignMatches(sum, x);
    SignMatches(sum, y);
    EitherBit(((sum & SIGN) ^ !(x & SIGN)) & SIGN, ((sum & SIGN) ^ !(y & SIGN)) & SIGN);
  }

  lemma ExtendPositive(x: bv32)
    requires x < 0x8000_0000
    ensures Extend(x) == x as bv64
  {
  }

  lemma ExtendNegative(x: bv32)
    requires x >= 0x8000_0000
    ensures Extend(x) == (x as bv64) | 0xFFFF_FFFF_0000_0000
  {
  }

  /** The 64-bit sums, by the signs of the operands and, where these differ, of the sum. */
  lemma BothPositive(x: bv32, y: bv32)
    requires x < 0x8000_0000 && y < 0x8000_0000
    ensures (x as bv64) + (y as bv64) == (x + y) as bv64
  {
  }

  lemma BothNegative(x: bv32, y: bv32)
    requires x >= 0x8000_0000 && y >= 0x8000_0000
    ensures ((x as bv64) | 0xFFFF_FFFF_0000_0000) + ((y as bv64) | 0xFFFF_FFFF_0000_0000)
         == ((x + y) as bv64) | 0xFFFF_FFFF_0000_0000
  {
  }

  lemma MixedToPositive(x: bv32, y: bv32)
    requires x < 0x8000_0000 && y >= 0x8000_0000 && x + y < 0x8000_0000
    ensures (x as bv64) + ((y as bv64) | 0xFFFF_FFFF_0000_0000) == (x + y) as bv64
  {
  }

  lemma MixedToNegative(x: bv32, y: bv32)
    requires x < 0x8000_0000 && y >= 0x8000_0000 && x + y >= 0x8000_0000
    ensures (x as bv64) + ((y as bv64) | 0xFFFF_FFFF_0000_0000) == ((x + y) as bv64) | 0xFFFF_FFFF_0000_0000
  {
  }

  lemma SumPositive(x: bv32, y: bv32)
    requires x < 0x8000_0000 && y < 0x8000_0000
    ensures LongSum(Extend(x), Extend(y)) == (x + y) as bv64
  {
    ExtendPositive(x);
    ExtendPositive(y);
    BothPositive(x, y);
    assert LongSum(x as bv64, y as bv64) == (x + y) as bv64;
  }

  lemma SumNegative(x: bv32, y: bv32)
    requires x >= 0x8000_0000 && y >= 0x8000_0000
    ensures LongSum(Extend(x), Extend(y)) == ((x + y) as bv64) | 0xFFFF_FFFF_0000_0000
  {
    ExtendNegative(x);
    ExtendNegative(y);
    BothNegative(x, y);
    assert LongSum((x as bv64) | 0xFFFF_FFFF_0000_0000, (y as bv64) | 0xFFFF_FFFF_0000_0000)
        == ((x + y) as bv64) | 0xFFFF_FFFF_0000_0000;
  }

  lemma SumToPositive(x: bv32, y: bv32)
    requires x < 0x8000_0000 && y >= 0x8000_0000 && x + y < 0x8000_0000
    ensures LongSum(Extend(x), Extend(y)) == (x + y) as bv64
  {
    ExtendPositive(x);
    ExtendNegative(y);
    MixedToPositive(x, y);
    assert LongSum(x as bv64, (y as bv64) | 0xFFFF_FFFF_0000_0000) == (x + y) as bv64;
  }

  lemma SumToNegative(x: bv32, y: bv32)
    requires x < 0x8000_0000 && y >= 0x8000_0000 && x + y >= 0x8000_0000
    ensures LongSum(Extend(x), Extend(y)) == ((x + y) as bv64) | 0xFFFF_FFFF_0000_0000
  {
    ExtendPositive(x);
    ExtendNegative(y);
    MixedToNegative(x, y);
    assert LongSum(x as bv64, (y as bv64) | 0xFFFF_FFFF_0000_0000) == ((x + y) as bv64) | 0xFFFF_FFFF_0000_0000;
  }

  /** The 64-bit sum l, by the signs of the operands and of the 32-bit sum s. */
  predicate Filled(x: bv32, y: bv32, s: bv32, l: bv64) {
    if x < SIGN && y < SIGN then l == s as bv64
    else if x >= SIGN && y >= SIGN then l == (s as bv64) | 0xFFFF_FFFF_0000_0000
    else l == if s < 0x8000_0000 then s as bv64 else (s as bv64) | 0xFFFF_FFFF_0000_0000
  }

  lemma SumFilled(x: bv32, y: bv32)
    requires x < SIGN || y >= SIGN
    ensures Filled(x, y, x + y, LongSum(Extend(x), Extend(y)))
  {
    if y < SIGN {
      SumPositive(x, y);
    } else if x >= SIGN {
      SumNegative(x, y);
    } else if x + y < SIGN {
      SumToPositive(x, y);
    } else {
      SumToNegative(x, y);
    }
  }

  /** A filled word survives the round trip exactly when the filling is that of its sign. */
  lemma ZeroFill(s: bv32, l: bv64)
    requires l == s as bv64
    ensures Survives(l) <==> s < 0x8000_0000
  {
  }

  lemma OneFill(s: bv32, l: bv64)
    requires l == (s as bv64) | 0xFFFF_FFFF_0000_0000
    ensures Survives(l) <==> s >= 0x8000_0000
  {
  }

  lemma FilledFits(x: bv32, y: bv32, s: bv32, l: bv64)
    requires Filled(x, y, s, l)
    ensures SignsAgree(x, y, s) == if Survives(l) then 1 else 0
  {
    SignsAgreeMeans(x, y, s);
    if l == s as bv64 { ZeroFill(s, l); } else { OneFill(s, l); }
  }

  lemma SignsAgreeEither(x: bv32, y: bv32, s: bv32)
    ensures SignsAgree(x, y, s) == SignsAgree(y, x, s)
  {
    SignsAgreeMeans(x, y, s);
    SignsAgreeMeans(y, x, s);
  }

  lemma SumsCommute(x: bv32, y: bv32, a: bv64, b: bv64)
    ensures x + y == y + x && LongSum(a, b) == LongSum(b, a)
  {
  }

  /** For all pairs of words the sign test agrees with the 64-bit sum. */
  lemma AddOKRight(x: bv32, y: bv32)
    ensures AddOK(x, y) == if TestAddOK(x, y) then 1 else 0
  {
    if x < SIGN || y >= SIGN {
      SumFilled(x, y);
      FilledFits(x, y, x + y, LongSum(Extend(x), Extend(y)));
    } else {
      SumFilled(y, x);
      FilledFits(y, x, y + x, LongSum(Extend(y), Extend(x)));
      SumsCommute(x, y, Extend(x), Extend(y));
      SignsAgreeEither(x, y, x + y);
    }
  }

  /** In other words: overflow is two operands of one sign and a sum of the other. */
  lemma AddOKMeans(x: bv32, y: bv32)
    ensures AddOK(x, y) == 0
       <==> (x < 0x8000_0000 <==> y < 0x8000_0000) && (x + y < 0x8000_0000 <==> x >= 0x8000_0000)
  {
    SignsAgreeMeans(x, y, x + y);
  }
}
