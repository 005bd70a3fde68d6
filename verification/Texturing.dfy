/** eos::render::Texture: a base image and the chain of mip levels built from
    it. OpenCV's pixel operations are abstracted to what they fix: the pixel
    format and the dimensions of their result. */
module Texturing {
  import opened Bits
  import opened RenderUtils

  /** A pixel layout: channel count and bits per channel. */
  datatype PixelFormat = PixelFormat(channels: nat, depth: nat)

  /** The canonical layout of every texture level: 4 channels of 8 bits (CV_8UC4, BGRA). */
  const Bgra8 := PixelFormat(4, 8)

  /** Where an image's pixels come from; stands in for the pixel data. */
  datatype Pixels =
    | Decoded(id: nat)
    | ConvertedFrom(source: Image)
    | ResizedFrom(source: Image)

  /** A cv::Mat: width (cols), height (rows), pixel format and pixels. */
  datatype Image = Image(width: nat, height: nat, format: PixelFormat, pixels: Pixels)

  /** image.convertTo(image, CV_8UC4) followed by cvtColor(BGR2BGRA): the
      same size in the BGRA 8-bit layout. */
  function ToBgra8(image: Image): (r: Image)
    ensures r.width == image.width && r.height == image.height
    ensures r.format == Bgra8
  {
    Image(image.width, image.height, Bgra8, ConvertedFrom(image))
  }

  /** cv::resize(source, dst, Size(width, height)): the source resampled to the
      requested size, in the source's format. */
  function Resize(source: Image, width: nat, height: nat): (r: Image)
    ensures r.width == width && r.height == height
    ensures r.format == source.format
  {
    Image(width, height, source.format, ResizedFrom(source))
  }

  /** The only error create_mipmapped_texture raises itself. */
  datatype TextureError = NotPowerOfTwo

  datatype Outcome = Done | Failed(error: TextureError)

  /** mipmaps_num as resolved at the head of create_mipmapped_texture: the
      request if nonzero, else the natural maximum for the image size. */
  function ResolvedLevelCount(requested: nat, width: nat, height: nat): (r: nat)
    requires requested != 0 || Max(width, height) >= 1
    ensures r >= 1
    ensures requested != 0 ==> r == requested
    ensures requested == 0 ==> Pow2(r - 1) <= Max(width, height) < Pow2(r)
  {
    if requested == 0 then MaxMipmapLevels(width, height) else requested
  }

  /** The guard that throws: more than one level on a base whose width or
      height is not a power of two. */
  function Rejects(levels: nat, width: nat, height: nat): (r: bool)
    ensures r ==> levels > 1
    ensures width >= 1 && height >= 1 ==>
      (r <==> (levels > 1 &&
        (width != Pow2(FloorLog2(width)) || height != Pow2(FloorLog2(height)))))
  {
    levels > 1 && !(IsPowerOfTwo(width) && IsPowerOfTwo(height))
  }

  /** The vector after the build loop, as the source writes it: `before` is
      kept, `base` is appended, then each level i in 1..n-1 is the resize of
      the vector's entry i-1 (counted from the start of the vector, not from
      `base`) to max(1, w >> i) x max(1, h >> i). */
  ghost predicate LevelsAppended(before: seq<Image>, after: seq<Image>, base: Image, n: nat)
  {
    var k := |before|;
    |after| == k + n &&
    after[..k] == before &&
    (n > 0 ==> after[k] == base) &&
    forall i :: 1 <= i < n ==> LevelIsResized(after, k, base, i)
  }

  /** Entry k + i of the vector is its entry i - 1 resized to
      max(1, w >> i) x max(1, h >> i). */
  ghost predicate LevelIsResized(after: seq<Image>, k: nat, base: Image, i: nat)
  {
    1 <= i && k + i < |after| &&
    after[k + i] == Resize(after[i - 1], HalvedDim(base.width, i), HalvedDim(base.height, i))
  }

  /** One pass of the build loop extends the appended levels by one. */
  lemma AppendLevel(before: seq<Image>, after: seq<Image>, base: Image, i: nat)
    requires LevelsAppended(before, after, base, i)
    ensures i == 0 ==> LevelsAppended(before, after + [base], base, 1)
    ensures i > 0 ==> LevelsAppended(before, after + [NextLevel(after, base, i)], base, i + 1)
  {
    var k := |before|;
    if i == 0 {
      assert (after + [base])[..k] == after[..k];
    } else {
      var extended := after + [NextLevel(after, base, i)];
      assert extended[..k] == after[..k];
      forall j | 1 <= j < i + 1
        ensures LevelIsResized(extended, k, base, j)
      {
        if j < i {
          assert LevelIsResized(after, k, base, j);
        }
      }
    }
  }

  /** Level i > 0 as the loop produces it: entry i-1 of the vector resized to
      the halved dimensions. */
  function NextLevel(vector: seq<Image>, base: Image, i: nat): Image
    requires 1 <= i <= |vector|
  {
    Resize(vector[i - 1], HalvedDim(base.width, i), HalvedDim(base.height, i))
  }

  /** Built on an empty vector, the levels form the pyramid: level 0 is the
      base, level i > 0 resizes level i-1 to max(1, w >> i) x max(1, h >> i),
      and every level has the base's format. */
  lemma {:induction false} PyramidFromEmpty(levels: seq<Image>, base: Image, n: nat)
    requires base.width >= 1 && base.height >= 1
    requires LevelsAppended([], levels, base, n)
    ensures |levels| == n
    ensures forall i :: 0 <= i < n ==>
      levels[i].width == HalvedDim(base.width, i) &&
      levels[i].height == HalvedDim(base.height, i) &&
      levels[i].format == base.format
    ensures forall i :: 1 <= i < n ==>
      levels[i] == Resize(levels[i - 1], levels[i].width, levels[i].height)
  {
    HalvedDimStep(base.width, 0);
    HalvedDimStep(base.height, 0);
    var j := 0;
    while j < n
      invariant 0 <= j <= n
      invariant forall i :: 0 <= i < j ==>
        levels[i].width == HalvedDim(base.width, i) &&
        levels[i].height == HalvedDim(base.height, i) &&
        levels[i].format == base.format
      invariant forall i :: 1 <= i < j ==>
        levels[i] == Resize(levels[i - 1], levels[i].width, levels[i].height)
    {
      if j > 0 {
        assert LevelIsResized(levels, 0, base, j);
      }
      j := j + 1;
    }
  }

  /** Requesting more levels than the natural maximum, the extra levels of a
      pyramid built on an empty vector are all 1x1. */
  lemma OverRequestStaysOneByOne(levels: seq<Image>, base: Image, n: nat, i: nat)
    requires base.width >= 1 && base.height >= 1
    requires LevelsAppended([], levels, base, n)
    requires MaxMipmapLevels(base.width, base.height) - 1 <= i < n
    ensures levels[i].width == 1 && levels[i].height == 1
  {
    PyramidFromEmpty(levels, base, n);
    var last := MaxMipmapLevels(base.width, base.height) - 1;
    NaturalLevelsEndAtOneByOne(base.width, base.height);
    HalvedDimStaysOne(base.width, last, i);
    HalvedDimStaysOne(base.height, last, i);
  }

  /** On a vector that already holds entries, level 1 of the new chain is a
      resize of the vector's first entry rather than of the new base: the
      loop indexes the vector from its start. */
  lemma AppendedChainIndexesFromStart(before: seq<Image>, after: seq<Image>, base: Image, n: nat)
    requires LevelsAppended(before, after, base, n)
    requires |before| >= 1 && n >= 2
    ensures after[|before|] == base
    ensures after[|before| + 1] == Resize(before[0], HalvedDim(base.width, 1), HalvedDim(base.height, 1))
  {
    assert LevelIsResized(after, |before|, base, 1);
    assert after[0] == after[..|before|][0];
  }

  /** A 300x200 image: with no level count requested, the natural count 9
      exceeds 1 and neither side is a power of two, so the call is rejected;
      requesting one level is accepted. */
  lemma SampleRejection()
    ensures ResolvedLevelCount(0, 300, 200) == 9
    ensures Rejects(ResolvedLevelCount(0, 300, 200), 300, 200)
    ensures !Rejects(ResolvedLevelCount(1, 300, 200), 300, 200)
  {
    SampleLevelCountNonPowerOfTwo();
    SamplePowerOfTwoAnswers();
    assert Max(300, 200) == Max(300, 300);
  }

  /** A texture whose mip levels live in one growing vector. */
  class Texture {
    /** std::vector<cv::Mat> mipmaps */
    var mipmaps: seq<Image>
    /** unsigned int mipmaps_num */
    var mipmapsNum: nat

    /** The implicit default constructor: no levels yet. */
    constructor ()
      ensures mipmaps == [] && mipmapsNum == 0
    {
      mipmaps := [];
      mipmapsNum := 0;
    }

    /** The build loop of create_mipmapped_texture: pushes mipmapsNum levels,
        the first being `base`, each later one a resize of entry i-1 of the
        vector, while the current width and height are halved as long as
        they exceed 1. */
    method PushLevels(base: Image)
      requires base.width >= 1 && base.height >= 1
      modifies this`mipmaps
      ensures LevelsAppended(old(mipmaps), mipmaps, base, mipmapsNum)
    {
      var currWidth := base.width;
      var currHeight := base.height;
      HalvedDimStep(base.width, 0);
      HalvedDimStep(base.height, 0);
      var i := 0;
      while i < mipmapsNum
        invariant 0 <= i <= mipmapsNum
        invariant currWidth == HalvedDim(base.width, i)
        invariant currHeight == HalvedDim(base.height, i)
        invariant LevelsAppended(old(mipmaps), mipmaps, base, i)
      {
        ghost var previous := mipmaps;
        if i == 0 {
          mipmaps := mipmaps + [base];
        } else {
          var level := Resize(mipmaps[i - 1], currWidth, currHeight);
          mipmaps := mipmaps + [level];
        }
        AppendLevel(old(mipmaps), previous, base, i);
        HalvedDimStep(base.width, i);
        HalvedDimStep(base.height, i);
        if currWidth > 1 {
          currWidth := currWidth / 2;
        }
        if currHeight > 1 {
          currHeight := currHeight / 2;
        }
        i := i + 1;
      }
    }

    /** create_mipmapped_texture(image, requested). The level count is stored
        first; a multi-level request on a non-power-of-two base then fails
        with the vector untouched; otherwise the normalized base and its
        successively halved resizes are appended. */
    method CreateMipmappedTexture(image: Image, requested: nat) returns (outcome: Outcome)
      requires image.width >= 1 && image.height >= 1
      modifies this
      ensures mipmapsNum == ResolvedLevelCount(requested, image.width, image.height)
      ensures outcome.Failed? <==> Rejects(mipmapsNum, image.width, image.height)
      ensures outcome.Failed? ==> mipmaps == old(mipmaps)
      ensures outcome.Done? ==> LevelsAppended(old(mipmaps), mipmaps, ToBgra8(image), mipmapsNum)
    {
      if requested == 0 {
        mipmapsNum := GetMaxPossibleMipmapsNum(image.width, image.height);
      } else {
        mipmapsNum := requested;
      }
      if mipmapsNum > 1 {
        if !IsPowerOfTwo(image.width) || !IsPowerOfTwo(image.height) {
          assert Rejects(mipmapsNum, image.width, image.height);
          return Failed(NotPowerOfTwo);
        }
      }
      assert !Rejects(mipmapsNum, image.width, image.height);
      PushLevels(ToBgra8(image));
      outcome := Done;
    }
  }
}
