/** The integer helpers of eos::render: the power-of-two test and the number
    of mip levels an image of a given size can have. */
module RenderUtils {
  import opened Bits

  /** is_power_of_two: the bit trick `!(x & (x - 1))` on a non-negative int.
      At x == 0 the subtraction gives -1 (all ones), so zero passes too. */
  function IsPowerOfTwo(x: nat): (r: bool)
    ensures x == 0 ==> r
    ensures x >= 1 ==> (r <==> x == Pow2(FloorLog2(x)))
  {
    if x >= 1 then
      AndPredecessorZeroIffPower(x);
      BitAnd(x, x - 1) == 0
    else
      BitAnd(x, x - 1) == 0
  }

  /** The natural number of mip levels for a width x height image:
      floor(log2(max(width, height))) + 1. */
  function MaxMipmapLevels(width: nat, height: nat): nat
    requires Max(width, height) >= 1
  {
    FloorLog2(Max(width, height)) + 1
  }

  /** get_max_possible_mipmaps_num: counts the base level, then halves the
      larger dimension by right shift until it is 1, counting each halving. */
  method GetMaxPossibleMipmapsNum(width: nat, height: nat) returns (mipmapsNum: nat)
    requires Max(width, height) >= 1
    ensures mipmapsNum >= 1
    ensures Pow2(mipmapsNum - 1) <= Max(width, height) < Pow2(mipmapsNum)
    ensures mipmapsNum == MaxMipmapLevels(width, height)
    ensures mipmapsNum == 1 <==> Max(width, height) == 1
    ensures Max(width, height) > 1 ==> mipmapsNum >= 2
  {
    mipmapsNum := 1;
    var size := Max(width, height);
    if size == 1 {
      return 1;
    }
    // first pass of the do ... while
    size := size / 2;
    mipmapsNum := mipmapsNum + 1;
    while size != 1
      invariant size >= 1
      invariant mipmapsNum >= 2
      invariant FloorLog2(Max(width, height)) == mipmapsNum - 1 + FloorLog2(size)
      decreases size
    {
      size := size / 2;
      mipmapsNum := mipmapsNum + 1;
    }
  }

  /** is_power_of_two on a positive x holds exactly for the powers of two,
      and on zero it holds as well. */
  lemma IsPowerOfTwoCharacterization(x: nat)
    ensures IsPowerOfTwo(x) <==> (x == 0 || exists k: nat :: x == Pow2(k))
  {
    if x >= 1 {
      if IsPowerOfTwo(x) {
        assert x == Pow2(FloorLog2(x));
      }
      if exists k: nat :: x == Pow2(k) {
        var k: nat :| x == Pow2(k);
        PowersOfTwoPassTest(k);
      }
    }
  }

  /** Every power of two passes the test. */
  lemma PowersOfTwoPassTest(k: nat)
    ensures IsPowerOfTwo(Pow2(k))
  {
    FloorLog2Unique(Pow2(k), k);
  }

  /** The dimension of mip level i for a base dimension d >= 1:
      max(1, d >> i). */
  function HalvedDim(d: nat, i: nat): nat
  {
    Max(1, ShiftRight(d, i))
  }

  /** The closed form agrees with the loop that halves a dimension only while
      it is above 1, and level 0 keeps the base dimension. */
  lemma HalvedDimStep(d: nat, i: nat)
    requires d >= 1
    ensures HalvedDim(d, 0) == d
    ensures HalvedDim(d, i + 1) ==
      (if HalvedDim(d, i) > 1 then HalvedDim(d, i) / 2 else HalvedDim(d, i))
  {
  }

  /** Once a dimension has reached 1 it stays 1 at every later level. */
  lemma HalvedDimStaysOne(d: nat, i: nat, j: nat)
    requires d >= 1 && i <= j && HalvedDim(d, i) == 1
    ensures HalvedDim(d, j) == 1
  {
    ShiftRightAntitone(d, i, j);
  }

  /** At the last natural level, MaxMipmapLevels - 1, both dimensions have
      reached 1. */
  lemma NaturalLevelsEndAtOneByOne(width: nat, height: nat)
    requires width >= 1 && height >= 1
    ensures HalvedDim(width, MaxMipmapLevels(width, height) - 1) == 1
    ensures HalvedDim(height, MaxMipmapLevels(width, height) - 1) == 1
  {
    var s := Max(width, height);
    ShiftRightSmallerByFloorLog2(width, s);
    ShiftRightSmallerByFloorLog2(height, s);
  }

  /** Before the last natural level the larger dimension is still at least 2,
      so the natural levels all differ in size. */
  lemma NaturalLevelsShrink(width: nat, height: nat, i: nat)
    requires width >= 1 && height >= 1
    requires i < MaxMipmapLevels(width, height) - 1
    ensures HalvedDim(Max(width, height), i) >= 2
  {
    var s := Max(width, height);
    ShiftRightByFloorLog2(s);
    assert ShiftRight(s, i + 1) >= 1 by {
      ShiftRightAntitone(s, i + 1, FloorLog2(s));
    }
  }

  /** Level counts for power-of-two sample sizes: 256x256 and 256x128 both
      have nine levels. */
  lemma SampleLevelCounts()
    ensures MaxMipmapLevels(256, 256) == 9 && MaxMipmapLevels(256, 128) == 9
  {
    Pow2Values();
    assert FloorLog2(256) == 8 by { FloorLog2Unique(256, 8); }
  }

  /** A 300x300 image has nine levels, like 256x256: the count is the
      number of halvings of 300 down to 1, plus the base. */
  lemma SampleLevelCountNonPowerOfTwo()
    ensures MaxMipmapLevels(300, 300) == 9
  {
    Pow2Values();
    FloorLog2Unique(300, 8);
  }

  /** Power-of-two answers for sample values. */
  lemma SamplePowerOfTwoAnswers()
    ensures IsPowerOfTwo(1) && IsPowerOfTwo(2) && IsPowerOfTwo(1024)
    ensures !IsPowerOfTwo(3) && !IsPowerOfTwo(1023) && !IsPowerOfTwo(300) && !IsPowerOfTwo(200)
  {
    Pow2Values();
    PowersOfTwoPassTest(0);
    PowersOfTwoPassTest(1);
    PowersOfTwoPassTest(10);
    NotPowerOfTwo(3, 1);
    NotPowerOfTwo(1023, 9);
    NotPowerOfTwo(300, 8);
    NotPowerOfTwo(200, 7);
  }

  lemma Pow2Values()
    ensures Pow2(1) == 2 && Pow2(2) == 4 && Pow2(7) == 128 && Pow2(8) == 256
    ensures Pow2(9) == 512 && Pow2(10) == 1024
  {
    assert Pow2(4) == 16;
    assert Pow2(8) == 256;
  }

  /** A value strictly between two consecutive powers of two fails the test. */
  lemma NotPowerOfTwo(x: nat, k: nat)
    requires Pow2(k) < x < Pow2(k + 1)
    ensures !IsPowerOfTwo(x)
  {
    FloorLog2Unique(x, k);
  }
}
