/** The table sizes a bigmap steps through as it grows: for every n from 8 to 63, a number just below 2^n. */
module TableSizes {
  const MIN_SIZE_LOGARITHM := 8
  const NUM_TABLE_SIZES := 56

  function Pow2(n: nat): (p: nat)
    ensures p > 0
  {
    if n == 0 then 1 else 2 * Pow2(n - 1)
  }

  function Gap(i: nat): nat {
    match i
    case 0 => 59 case 1 => 55 case 2 => 57 case 3 => 61 case 4 => 77 case 5 => 91 case 6 => 111
    case 7 => 135 case 8 => 123 case 9 => 99 case 10 => 93 case 11 => 87 case 12 => 185 case 13 => 129
    case 14 => 123 case 15 => 159 case 16 => 167 case 17 => 183 case 18 => 135 case 19 => 235 case 20 => 273
    case 21 => 133 case 22 => 173 case 23 => 171 case 24 => 267 case 25 => 355 case 26 => 281 case 27 => 325
    case 28 => 233 case 29 => 375 case 30 => 257 case 31 => 301 case 32 => 437 case 33 => 139 case 34 => 227
    case 35 => 369 case 36 => 377 case 37 => 229 case 38 => 311 case 39 => 649 case 40 => 257 case 41 => 339
    case 42 => 233 case 43 => 439 case 44 => 395 case 45 => 421 case 46 => 327 case 47 => 267 case 48 => 195
    case 49 => 423 case 50 => 251 case 51 => 871 case 52 => 453 case 53 => 465 case 54 => 273 case _ => 471
  }

  /** tableSizesPrimes[i] */
  function TableSize(i: nat): (size: nat)
    requires i < NUM_TABLE_SIZES
    ensures 197 <= size < Pow2(i + MIN_SIZE_LOGARITHM) <= 2 * size - 138
  {
    PowerBounds(i + MIN_SIZE_LOGARITHM);
    Pow2(i + MIN_SIZE_LOGARITHM) - Gap(i)
  }

  lemma {:induction false} PowerBounds(n: nat)
    requires 8 <= n
    ensures 256 <= Pow2(n)
    ensures n >= 9 ==> 512 <= Pow2(n)
    ensures n >= 10 ==> 1024 <= Pow2(n)
    ensures n >= 11 ==> 2048 <= Pow2(n)
    ensures n >= 12 ==> 4096 <= Pow2(n)
  {
    if n > 8 {
      PowerBounds(n - 1);
    }
  }

  function AllTableSizes(): (sizes: seq<nat>)
    ensures |sizes| == NUM_TABLE_SIZES
    ensures forall i :: 0 <= i < NUM_TABLE_SIZES ==> sizes[i] == TableSize(i)
  {
    seq(NUM_TABLE_SIZES, i requires 0 <= i < NUM_TABLE_SIZES => TableSize(i))
  }

  /** Each size is well above the one before it. */
  lemma NextSizeIsLarger(i: nat)
    requires i + 1 < NUM_TABLE_SIZES
    ensures TableSize(i) + 200 <= TableSize(i + 1)
  {
    PowerBounds(i + MIN_SIZE_LOGARITHM);
  }

  lemma SmallSizes()
    ensures TableSize(0) == 197 && TableSize(1) == 457 && TableSize(2) == 967
    ensures TableSize(3) == 1987 && TableSize(4) == 4019
    ensures TableSize(5) == 8101 && TableSize(6) == 16273 && TableSize(7) == 32633 && TableSize(8) == 65413
    ensures TableSize(9) == 130973 && TableSize(10) == 262051 && TableSize(11) == 524201
    ensures TableSize(12) == 1048391 && TableSize(13) == 2097023
  {
    assert Pow2(8) == 0x100;
    assert Pow2(16) == 0x1_0000;
  }

  lemma {:induction false} PowerGrows(m: nat, n: nat)
    requires m <= n
    ensures Pow2(m) <= Pow2(n)
    decreases n - m
  {
    if m < n {
      PowerGrows(m + 1, n);
    }
  }

  const TWO_TO_THE_56 := 0x100_0000_0000_0000
  const TWO_TO_THE_63 := 0x8000_0000_0000_0000
  const TWO_TO_THE_64 := 0x1_0000_0000_0000_0000

  lemma SizeLimits(i: nat)
    requires i < NUM_TABLE_SIZES
    ensures TableSize(i) < TWO_TO_THE_63
    ensures i + MIN_SIZE_LOGARITHM <= 56 ==> TableSize(i) < TWO_TO_THE_56
  {
    PowerValues();
    PowerGrows(i + MIN_SIZE_LOGARITHM, 63);
    if i + MIN_SIZE_LOGARITHM <= 56 {
      PowerGrows(i + MIN_SIZE_LOGARITHM, 56);
    }
  }

  lemma PowerValues()
    ensures Pow2(56) == TWO_TO_THE_56 && Pow2(63) == TWO_TO_THE_63
  {
    assert Pow2(8) == 0x100;
    assert Pow2(16) == 0x1_0000;
    assert Pow2(24) == 0x100_0000;
    assert Pow2(32) == 0x1_0000_0000;
    assert Pow2(40) == 0x100_0000_0000;
    assert Pow2(48) == 0x1_0000_0000_0000;
  }

  /** The 64-bit sum `slot + delta` of a probe never wraps, whatever the table size. */
  lemma ProbeSumFits(i: nat, slot: nat, delta: nat)
    requires 1 <= i < NUM_TABLE_SIZES
    requires slot < TableSize(i) && delta <= TableSize(i - 1)
    ensures slot + delta < TWO_TO_THE_64
  {
    SizeLimits(i);
    SizeLimits(i - 1);
  }

  /**
    The product `len(slots) * LoadFactorPercentage` of the growth test fits an
    int64 for every load factor below 100% exactly up to 2^56 slots.
   */
  lemma GrowthProductFitsExactly(i: nat)
    requires i < NUM_TABLE_SIZES
    ensures AllProductsFit(TableSize(i)) <==> i + MIN_SIZE_LOGARITHM <= 56
  {
    SizeLimits(i);
    if i + MIN_SIZE_LOGARITHM <= 56 {
      SmallProductsFit(TableSize(i));
    } else {
      LargeSize(i);
      assert !ProductFits(TableSize(i), 99);
    }
  }

  predicate ProductFits(size: nat, loadFactor: nat) {
    size * loadFactor < TWO_TO_THE_63
  }

  ghost predicate AllProductsFit(size: nat) {
    forall loadFactor: nat :: loadFactor < 100 ==> ProductFits(size, loadFactor)
  }

  lemma SmallProductsFit(size: nat)
    requires size < TWO_TO_THE_56
    ensures AllProductsFit(size)
  {
    forall loadFactor: nat | loadFactor < 100
      ensures ProductFits(size, loadFactor)
    {
      ProductBound(size, loadFactor);
    }
  }

  lemma LargeSize(i: nat)
    requires 56 < i + MIN_SIZE_LOGARITHM && i < NUM_TABLE_SIZES
    ensures TableSize(i) + 1000 >= 2 * TWO_TO_THE_56
  {
    LargePower(i + MIN_SIZE_LOGARITHM);
    GapIsSmall(i);
  }

  lemma LargePower(n: nat)
    requires 56 < n
    ensures Pow2(n) >= 2 * TWO_TO_THE_56
  {
    PowerValues();
    PowerGrows(56, n - 1);
  }

  lemma GapIsSmall(i: nat)
    ensures Gap(i) <= 1000
  {
  }

  lemma ProductBound(size: nat, loadFactor: nat)
    requires loadFactor < 100
    ensures size * loadFactor <= size * 100
  {
  }
}
