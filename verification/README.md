# eos render utilities: mipmap level bookkeeping in Dafny

This project models the integer side of texture preparation in the eos
renderer (`include/eos/render/utils.hpp`):

- `get_max_possible_mipmaps_num(width, height)`: the number of mip levels an
  image can have. It halves `max(width, height)` by right shift in a
  `do … while` loop until the value is 1, and it counts the base level. The
  model is the method `RenderUtils.GetMaxPossibleMipmapsNum`, with the same
  early return and the same loop. It is proved to return
  `floor(log2(max(width, height))) + 1`, which is the unique `n` with
  `2^(n-1) <= max < 2^n`.
- `is_power_of_two(x)`: the bit trick `!(x & (x - 1))`. The model is
  `RenderUtils.IsPowerOfTwo`. It is written over the two's-complement AND of
  unbounded integers (`Bits.BitAnd`, where `-1` is all ones). So the case
  `x == 0` behaves as in the code: `0 & -1 == 0`, and zero passes the test.
  It is proved to hold for a positive `x` exactly when `x` is a power of two.
- `Texture::create_mipmapped_texture(image, mipmapsNum)`: the class
  `Texturing.Texture` has the fields `mipmaps` (the `std::vector<cv::Mat>`,
  modelled as a `seq<Image>` that the method extends) and `mipmapsNum`
  (`mipmaps_num`).
  - The method first stores the level count: the request if nonzero, else the
    natural maximum.
  - It then fails with `NotPowerOfTwo` when the count exceeds 1 and a side is
    not a power of two. On that path `mipmapsNum` has already been written
    and `mipmaps` is unchanged.
  - Otherwise it converts the image to 4-channel 8-bit BGRA and appends the
    levels.
  - The build loop (source lines 132-149) is the separate method
    `Texture.PushLevels`. It appends the base first. Each later level `i` is
    `cv::resize` of vector entry `i-1` to the current width and height. Those
    two are halved after each level, but only while they exceed 1.

An image is a record of width (`cols`), height (`rows`), pixel format and a
`Pixels` value. The `Pixels` value records where the pixels come from: a
decoded source, a conversion, or a resize of another image. So "level `i` is
the resize of level `i-1`" can be stated and proved without modelling pixel
values. The OpenCV calls become two functions:

- `ToBgra8`: `convertTo(CV_8UC4)` followed by `cvtColor(BGR2BGRA)`. It keeps
  the size and yields the `Bgra8` format.
- `Resize`: gives the requested size and keeps the source's format.

Proved properties:

- The level count equals the bit length of `max(width, height)`. It is 1
  exactly when that maximum is 1, and at least 2 otherwise.
- The stored count is the request when that is nonzero.
- A call fails exactly when the count is above 1 and a side is not a power
  of two. On failure the vector is untouched.
- On success the vector grows by exactly the stored count, and its previous
  entries are kept.
- On an empty vector, level `i` has size `max(1, w >> i) x max(1, h >> i)`,
  level `i` is the resize of level `i-1`, and every level has the BGRA 8-bit
  format.
- Once a dimension reaches 1 it stays 1. When more levels are requested than
  the natural maximum, every extra level is 1x1.

Two behaviours of the code on a texture that is used more than once are
modelled as written:

- The method appends to whatever `mipmaps` already holds. It writes
  `mipmaps_num` before the power-of-two check, so a call that throws still
  leaves the new count behind.
- The build loop resizes `mipmaps[i - 1]`, which counts from the start of
  the vector. On a texture that already holds levels, the new level 1 is a
  resize of the vector's first entry, not of the new base.
  `Texturing.AppendedChainIndexesFromStart` states this case.

## Model

| member | source | states |
|---|---|---|
| `RenderUtils.GetMaxPossibleMipmapsNum` | include/eos/render/utils.hpp:83-97 | the count `n` satisfies `2^(n-1) <= max(w,h) < 2^n`, so it is `floor(log2(max)) + 1`; it is 1 exactly when `max(w,h) == 1` and at least 2 otherwise; it requires `max(w,h) >= 1`, since with 0 the `do … while` never ends |
| `Bits.FloorLog2` | include/eos/render/utils.hpp:91-94 | the number of halvings that bring `x >= 1` down to 1 is the unique `r` with `2^r <= x < 2^(r+1)` |
| `Bits.ShiftRightByFloorLog2` | include/eos/render/utils.hpp:91-94 | shifting `x` right by `floor(log2 x)` bits leaves exactly 1, which is where the loop stops |
| `RenderUtils.SampleLevelCounts` | include/eos/render/utils.hpp:83-97 | 256x256 and 256x128 images both have 9 levels |
| `RenderUtils.SampleLevelCountNonPowerOfTwo` | include/eos/render/utils.hpp:83-97 | a 300x300 image has 9 levels, the halvings of 300 down to 1 plus the base |
| `RenderUtils.IsPowerOfTwoCharacterization` | include/eos/render/utils.hpp:99-102 | `!(x & (x-1))` holds for a non-negative `x` exactly when `x == 0` or `x == 2^k` for some `k`, in both directions |
| `RenderUtils.IsPowerOfTwo` | include/eos/render/utils.hpp:99-102 | `!(x & (x-1))` holds at `x == 0`, and for a positive `x` it holds exactly when `x == 2^floor(log2 x)` |
| `Bits.BitAnd` | include/eos/render/utils.hpp:101 | the `&` of two integers in two's complement, with `-1` as all ones; on non-negative arguments the result lies between 0 and the smaller argument |
| `Bits.AndPredecessorZeroOnlyForPowers` | include/eos/render/utils.hpp:101 | a positive `x` with `x & (x-1) == 0` equals `2^floor(log2 x)` |
| `Bits.AndPredecessorOfPowerIsZero` | include/eos/render/utils.hpp:101 | `2^k & (2^k - 1) == 0` for every `k` |
| `Bits.AndPredecessorZeroIffPower` | include/eos/render/utils.hpp:101 | for a positive `x`, `x & (x-1) == 0` exactly when `x == 2^floor(log2 x)`, in both directions |
| `Bits.Max` | include/eos/render/utils.hpp:86 | `std::max`: the result is at least both arguments and equals one of them |
| `RenderUtils.PowersOfTwoPassTest` | include/eos/render/utils.hpp:99-102 | every `2^k` passes the test |
| `RenderUtils.NotPowerOfTwo` | include/eos/render/utils.hpp:99-102 | a value strictly between `2^k` and `2^(k+1)` fails the test |
| `RenderUtils.SamplePowerOfTwoAnswers` | include/eos/render/utils.hpp:99-102 | 1, 2 and 1024 pass; 3, 1023, 300 and 200 fail |
| `RenderUtils.HalvedDimStep` | include/eos/render/utils.hpp:145-148 | halving a dimension only while it is above 1 gives `max(1, d >> i)` after `i` steps, starting from `d` |
| `RenderUtils.HalvedDimStaysOne` | include/eos/render/utils.hpp:145-148 | once a level dimension is 1, every later level dimension is 1 |
| `RenderUtils.NaturalLevelsEndAtOneByOne` | include/eos/render/utils.hpp:132-148 | at level `get_max_possible_mipmaps_num(w,h) - 1` both dimensions are 1 |
| `RenderUtils.NaturalLevelsShrink` | include/eos/render/utils.hpp:91-94 | before the last natural level the larger dimension is at least 2, so the natural levels all differ in size |
| `Texturing.ResolvedLevelCount` | include/eos/render/utils.hpp:112 | the stored count is the request when nonzero; otherwise it is the `n` with `2^(n-1) <= max(cols, rows) < 2^n`; it is always at least 1 |
| `Texturing.Rejects` | include/eos/render/utils.hpp:122-127 | the guard that throws: it only fires when more than one level is stored; for positive sides it fires exactly when the count exceeds 1 and `cols` or `rows` is not `2^floor(log2)` of itself |
| `Texturing.ToBgra8` | include/eos/render/utils.hpp:129-130 | `convertTo(CV_8UC4)` then `cvtColor(BGR2BGRA)`: same width and height, 4 channels of 8 bits |
| `Texturing.Resize` | include/eos/render/utils.hpp:140-141 | a new `currHeight x currWidth` matrix filled by `cv::resize`: the requested width and height, in the source's format |
| `Texturing.Texture.constructor` | include/eos/render/utils.hpp:154-159 | a new texture has an empty `mipmaps` vector; `mipmapsNum`, left uninitialized by the implicit C++ constructor, starts at 0 |
| `Texturing.Texture.CreateMipmappedTexture` | include/eos/render/utils.hpp:110-152 | `mipmapsNum` is the resolved count on every path; the call fails iff the count is above 1 and `cols` or `rows` is not a power of two; on failure `mipmaps` is unchanged; on success the normalized base and its resizes are appended as `LevelsAppended` states |
| `Texturing.Texture.PushLevels` | include/eos/render/utils.hpp:132-149 | appends exactly `mipmapsNum` entries and keeps the old ones; the first appended entry is the base; appended entry `i > 0` is vector entry `i-1` resized to `max(1, w >> i) x max(1, h >> i)` |
| `Texturing.AppendLevel` | include/eos/render/utils.hpp:134-143 | each pass of the loop extends the appended chain by one entry: the base first, then the resize of entry `i-1` |
| `Texturing.PyramidFromEmpty` | include/eos/render/utils.hpp:132-148 | on an empty vector: `n` levels; level `i` is `max(1, w >> i) x max(1, h >> i)` in the base's format; level `i > 0` is the resize of level `i-1` |
| `Texturing.OverRequestStaysOneByOne` | include/eos/render/utils.hpp:134-148 | levels requested beyond the natural maximum are all 1x1 |
| `Texturing.AppendedChainIndexesFromStart` | include/eos/render/utils.hpp:141 | on a non-empty vector, the new level 1 is a resize of the vector's first entry, not of the new base |
| `Texturing.SampleRejection` | include/eos/render/utils.hpp:122-127 | a 300x200 image with no request resolves to 9 levels and is rejected; with a request of 1 it is accepted |

## Left out

- `clip_to_screen_space` and `screen_to_clip_space` (lines 48-80): these are `float` arithmetic. A model over `real` would prove the algebra but not the rounding behaviour.
- `widthLog` / `heightLog` (lines 150-151): computed with `std::log`, `CV_LOG2`, a `0.0001f` offset and a `uchar` cast. This is floating point. They read `mipmaps[0]`, which on a texture built more than once is the oldest entry rather than the new base. The `0.0001f` offset also rounds some sizes just below a power of two up: for a width of 16383, `log2` is about 13.99991, so the offset lifts it past 14 and `widthLog` becomes 14, while `floor(log2 16383)` is 13.
- Pixel values: `convertTo`, `cvtColor` and `cv::resize` are foreign library calls. `ToBgra8` and `Resize` fix only the size and format of their results, and they record which image they came from.
- OpenCV exceptions: the model has no path for a conversion or resize that throws, for example on an unsupported channel count.
- Texturing.Texture.CreateMipmappedTexture: requires a non-empty image (`cols` and `rows` at least 1). With both at 0 and no request, the level count loop never ends. With one side 0 and no request, the count comes from the other side. Because `is_power_of_two(0)` holds, a 0x3 image is then rejected by the method's own `runtime_error` (3 fails the test), and a 0x4 image passes the check only through that zero case. Neither zero-sided case is modelled.
- Texturing.Texture.CreateMipmappedTexture: the loop counter is a signed `int` compared against an `unsigned int` count. A request above `INT_MAX` overflows the counter in C++. The model uses unbounded integers and does not capture this.
- RenderUtils.IsPowerOfTwo: defined for non-negative inputs only. The signed overflow of `x - 1` at `INT_MIN`, and negative inputs generally, are not modelled.
- RenderUtils.GetMaxPossibleMipmapsNum: `unsigned int` width is not modelled. No wrap-around can occur, because the count of a 32-bit size is at most 32.
