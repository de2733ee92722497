# EasyCapViewer arithmetic, pixel-format and Syntek-probe core in Dafny

This project models the parts of EasyCapViewer's capture code that compute
something, and proves properties of them:

- **Exact rational arithmetic** (`ECVRational`, module `Rational`). This is a
  numerator/denominator pair. `ECVMakeRational` reduces it by the greatest
  common divisor. Add, subtract, multiply, divide, inverse and conversion to
  an integer are built on it. Each operation is a function. Each one is
  proved to give the right rational number (its `Value`, a `real`) and, where
  it goes through `ECVMakeRational`, a result in lowest terms.
- **The pixel-format table** (module `PixelFormat`). It covers the two packed
  4:2:2 formats '2vuy' and 'YVYU': bytes per pixel, the 64-bit pattern that
  paints four black pixels, and the OpenGL format and type. The host's byte
  order is a parameter. The model covers `CFSwapInt64HostToBig` and how a
  64-bit integer sits in memory, so the black pattern is stated as the bytes
  it writes.
- **The Syntek STK11xx helpers** (module `Stk11xx`). These are the
  `STK11XX_PERCENT` macro, the resolution enumeration and its image-size
  table, the device-status probe `dev_stk11xx_check_device`, and the camera
  on/off helpers.
  - The probe is a method with a loop. It is proved against a reference
    function `ProbeOutcome` over the sequence of values the register reads
    return.
  - The camera helpers change an object that records the alternate settings
    requested of the video interface.
- **C division** (module `CArith`). `CDiv` is C's `/`, which truncates toward
  zero. Dafny's own `/` is Euclidean. The rationals and the percentage macro
  both divide with `CDiv`.

`ECVIntegerGCD` and `ECVIntegerLCM` are declared in `ECVRational.h`, but
their bodies are not part of this model. The model defines them by Euclid's
algorithm on magnitudes, so the greatest common divisor is never negative.
Every rational law is proved from the following facts about them:
- the gcd divides both arguments and is positive unless both are zero
  (the contract of `IntegerGcd`);
- every common divisor divides the gcd (`IntegerGcdGreatest`, proved from
  Euclid's definition of `Gcd`);
- the lcm of two nonzero integers is a positive common multiple of both
  (the contract of `IntegerLcm`);
- the lcm does not depend on argument order (`IntegerLcmCommutes`, proved
  from the definition of `IntegerLcm`).

In this model the gcd is never negative, so `MakeRational` keeps the sign
of the denominator it is given. The C code does not normalise signs, so in
the model `Multiply` returns a negative denominator exactly when
`a.denom * b.denom` is negative, and `Divide` exactly when `a.denom * b.numer`
is negative. `Add`
and `Subtract` give a positive one. That holds because the lcm is unsigned
and because the gcd is taken to be nonnegative (see `Rational.IntegerGcd`
under "Left out").

The "unknown pixel format" branch of each lookup calls
`ECVCAssertNotReached`, which raises an assertion failure. So each lookup
`requires IsSupported(t)`. Every other OSType is the constructor
`OtherFormat`.

## Model

| member | source | states |
|---|---|---|
| `CArith.CDiv` | ECVRational.h:38 | C's truncating `/`: the remainder `a - q*b` is smaller than `b` in magnitude and has the dividend's sign (or is zero) |
| `CArith.CDivExact` | ECVRational.h:49-50 | when `b` divides `a` exactly, C's `/` gives the exact quotient, as the rescaling in `ECVRationalAdd` relies on |
| `CArith.CDivUnique` | stk11xx.h:35 | any quotient with a remainder of the dividend's sign and smaller than the divisor is C's quotient |
| `Rational.IntegerGcd` | ECVRational.h:27 | the gcd is positive unless both arguments are zero, and divides both |
| `Rational.IntegerGcdGreatest` | ECVRational.h:27 | every common divisor of the two arguments divides the gcd |
| `Rational.IntegerGcdCommutes` | ECVRational.h:27 | the gcd does not depend on argument order |
| `Rational.IntegerGcdWithZero` | ECVRational.h:27 | the gcd of 0 and a nonzero `d` is the magnitude of `d` |
| `Rational.IntegerLcm` | ECVRational.h:28 | the (unsigned) lcm of two nonzero integers is positive and a multiple of both |
| `Rational.IntegerLcmCommutes` | ECVRational.h:28 | the lcm does not depend on argument order |
| `Rational.MakeRational` | ECVRational.h:34-39 | requires a nonzero denominator; the result has the same value (`r.numer * denom == numer * r.denom`), a denominator of the same sign, and is in lowest terms |
| `Rational.Reduce` | ECVRational.h:37-38 | dividing both parts by their gcd keeps the value and the denominator's sign and leaves coprime parts |
| `Rational.MakeRationalIdempotent` | ECVRational.h:34-39 | normalising an already normalised pair changes nothing |
| `Rational.Inverse` | ECVRational.h:41-44 | for a nonzero rational, the inverse has a nonzero denominator and the reciprocal value |
| `Rational.InverseInvolutive` | ECVRational.h:41-44 | inverting twice returns the original pair |
| `Rational.Add` | ECVRational.h:46-52 | for nonzero denominators, the sum has value `Value(a) + Value(b)`, a positive denominator, and lowest terms |
| `Rational.AddCommutes` | ECVRational.h:46-52 | `Add(a, b)` and `Add(b, a)` are the same pair |
| `Rational.Subtract` | ECVRational.h:53-57 | the difference has value `Value(a) - Value(b)`, a positive denominator, and lowest terms |
| `Rational.SubtractSelf` | ECVRational.h:53-57 | `Subtract(a, a)` is exactly `0/1` |
| `Rational.Multiply` | ECVRational.h:58-61 | the product has value `Value(a) * Value(b)`, lowest terms, and a positive denominator exactly when `a.denom * b.denom` is positive |
| `Rational.MultiplyCommutes` | ECVRational.h:58-61 | `Multiply(a, b)` and `Multiply(b, a)` are the same pair |
| `Rational.MultiplyWholes` | ECVRational.h:58-75 | the product of `m/1` and `n/1` has denominator 1 and converts to the integer `m * n` |
| `Rational.MultiplyByInverse` | ECVRational.h:41-61 | a nonzero rational times its inverse has value 1 |
| `Rational.Divide` | ECVRational.h:62-65 | requires `a.denom != 0` and `b.numer != 0` (the latter becomes a factor of the denominator given to `MakeRational`); the quotient has value `Value(a) / Value(b)`, lowest terms, and a positive denominator exactly when `a.denom * b.numer` is positive |
| `Rational.DivideThenMultiply` | ECVRational.h:58-65 | dividing by `b` and multiplying by `b` gives back the value of `a` |
| `Rational.ToInteger` | ECVRational.h:71-75 | requires `denom == 1`; the integer returned equals the rational's value |
| `Rational.ToIntegerOfWhole` | ECVRational.h:71-75 | `MakeRational(n, 1)` has denominator 1 and converts back to `n` |
| `PixelFormat.SwapInt64HostToBig` | ECVPixelFormat.h:41-42 | on either host byte order, the swapped integer's bytes in memory are the big-endian bytes of the argument |
| `PixelFormat.DigitsOfFromDigits` | ECVPixelFormat.h:41-42 | the bytes of the number that a byte sequence spells are that byte sequence |
| `PixelFormat.BytesPerPixel` | ECVPixelFormat.h:29-37 | both supported formats have 2 bytes per pixel; any other format is excluded by the requires |
| `PixelFormat.BlackPattern` | ECVPixelFormat.h:38-46 | on either host, storing the pattern writes 0x80 0x10 four times for 2vuy and 0x10 0x80 four times for YVYU |
| `PixelFormat.BigEndianBlack2vuy` | ECVPixelFormat.h:41 | the big-endian bytes of 0x8010801080108010 are 0x80 0x10 repeated four times |
| `PixelFormat.BigEndianBlackYvyu` | ECVPixelFormat.h:42 | the big-endian bytes of 0x1080108010801080 are 0x10 0x80 repeated four times |
| `PixelFormat.BlackPixelsArePairSwapped` | ECVPixelFormat.h:41-42 | the YVYU black bytes are the 2vuy black bytes with every 16-bit pair swapped |
| `PixelFormat.BlackPixelsAreFourPixels` | ECVPixelFormat.h:29-46 | each black pattern is `4 * BytesPerPixel` bytes and repeats with period `BytesPerPixel` |
| `PixelFormat.GLFormat` | ECVPixelFormat.h:47-55 | both formats map to `GL_YCBCR_422_APPLE` |
| `PixelFormat.GLType` | ECVPixelFormat.h:56-69 | the result is one of the two 8_8 packed-short types |
| `PixelFormat.GLTypesDiffer` | ECVPixelFormat.h:58-65 | for a fixed byte order the two formats get different GL types |
| `PixelFormat.GLTypeFlipsWithEndianness` | ECVPixelFormat.h:58-65 | flipping the host byte order swaps the two formats' GL types |
| `Stk11xx.Percent` | stk11xx.h:35 | `(x*y)/100` truncated toward zero: `100*r <= x*y < 100*r + 100` for a nonnegative product, and the mirror image for a nonpositive one |
| `Stk11xx.PercentOfNegated` | stk11xx.h:35 | negating an operand negates the result (truncation, not flooring) |
| `Stk11xx.PercentOfHundred` | stk11xx.h:35 | 100 percent of `x` is `x` |
| `Stk11xx.Ordinal` | stk11xx.h:57-70 | every resolution constant is below `STK11XX_NBR_SIZES` (11) |
| `Stk11xx.ResolutionAt` | stk11xx.h:57-70 | the resolution found at index `i` has enumeration value `i` |
| `Stk11xx.OrdinalIsBijective` | stk11xx.h:57-70 | enumeration values and resolutions correspond one to one |
| `Stk11xx.ImageSizesMatchResolutions` | stk11xx.h:57-84 | the size table has exactly 11 entries, and the entry at each constant's value is the size the constant names (e.g. `STK11XX_720x480` = 6 gives {720, 480}) |
| `Stk11xx.ImageSizesGrow` | stk11xx.h:72-84 | widths and heights never shrink along the table, and pixel counts strictly grow |
| `Stk11xx.ProbeOutcome` | stk11xx.h:128-155 | the reference outcome of a run of reads is -1, 0 or 1 |
| `Stk11xx.ProbeOutcomeAtFirstDecisive` | stk11xx.h:131-152 | the outcome is 1 if the first value that is not a not-ready code is 0x01, 0x04, 0x05 or 0x15, and -1 otherwise |
| `Stk11xx.ProbeOutcomeAllNotReady` | stk11xx.h:131-142 | reads that all return not-ready codes (0x00, 0x11, 0x14, 0x30, 0x31, 0x51, 0x70, 0x71, 0x91) give 0 |
| `Stk11xx.ProbeOutcomeIgnoresLaterReads` | stk11xx.h:143-152 | once the outcome is nonzero, later reads cannot change it |
| `Stk11xx.CheckDevice` | stk11xx.h:123-156 | performs at most `max(nbr, 0)` reads, all of register 0x201; returns `ProbeOutcome` of the first `max(nbr, 0)` values; returns 0 exactly when all allowed reads happened and were not-ready, including with no reads when `nbr <= 0`; otherwise the last read is the first decisive one and decides 1 (ready) or -1 (unknown) |
| `Stk11xx.VideoInterface.SetAlternateInterface` | ECVUSBVideoSource.h:54 | records the 8-bit alternate setting requested, after the earlier requests |
| `Stk11xx.CameraOn` | stk11xx.h:115-118 | requests alternate setting 5, and nothing else |
| `Stk11xx.CameraOff` | stk11xx.h:119-122 | requests alternate setting 0, and nothing else |

## Left out

- Integer width: `NSInteger`, `NSUInteger` and C `int` are unbounded integers
  here. Overflow in the products and sums of `ECVRationalAdd` and
  `ECVRationalMultiply`, and in `(int)x * (int)y` of `STK11XX_PERCENT`, is not
  modelled. The model describes the runs in which nothing overflows.
- `Rational.IntegerGcd`: a nonnegative result is an assumption of this
  model. `ECVRational.h` declares `ECVIntegerGCD` as returning an
  `NSInteger` and says nothing about its sign. A Euclid loop on signed
  operands can return a negative gcd, for example -3 for (-3, 6). Five
  sign clauses depend on this assumption: `MakeRational`'s
  `r.denom > 0 <==> denom > 0`, the `r.denom > 0` of `Add` and of
  `Subtract`, `Multiply`'s `r.denom > 0 <==> a.denom * b.denom > 0`, and
  `Divide`'s `r.denom > 0 <==> a.denom * b.numer > 0`. With a negative gcd, `ECVMakeRational` would flip both signs.
  The value and lowest-terms clauses hold for either sign.
- `Stk11xx.Percent`: the model takes two integers, each a single operand.
  The macro casts each argument with `(int)`, which truncates a floating
  argument such as a `CGFloat` setting. Those conversions are not modelled.
  The macro also leaves its arguments unparenthesised, so
  `STK11XX_PERCENT(a + b, c)` computes `((int)a + b * (int)c) / 100`. That
  expansion is not modelled either.
- `Rational.IntegerLcm`: the contract states only what the rational
  operations use, a positive common multiple. It does not state that this
  multiple is the least one, and says nothing when an argument is zero.
- `ECVRationalGCD`, `ECVRationalLCM`, `ECVRationalToString` and
  `ECVRationalFromString` are declared without bodies, so they are not part of
  this model. `ECVRationalToCGFloat` is floating point, so it is left out too.
- The numeric values of the FourCC codes and of the OpenGL constants are not
  modelled. They are distinct constructors of `PixelFormat` and `GLEnum`.
- `Stk11xx.CheckDevice`: the C code discards the status of each register
  read. `readValue:atIndex:` is not part of this model, so what a failed
  read leaves in `value` is not known. In the model, read number `i` returns
  the arbitrary integer `values[i]`. So whatever value a failed read leaves
  is one of the inputs the model covers. `values` must hold at least `nbr`
  values.
  `STK_ERROR` expands to nothing, because its `NSLog` is commented out at
  stk11xx.h:39. So the unknown-value branch does nothing but return -1.
- `Stk11xx.CameraOn` and `Stk11xx.CameraOff`: whether the device accepted the
  alternate setting is not modelled, because the helpers discard that result.
  The USB transport itself is not part of this model.
- The register wrappers `usb_stk11xx_write_registry` and
  `usb_stk11xx_set_feature` forward to the controller and compute nothing. The
  `dev_stk0408_*` functions are declared without bodies. Neither is part of
  this model. `T_STK11XX_PALETTE` is declared there but nothing in the header
  uses it.
- The capture pipeline, audio, the user interface, the encoders and the
  device register protocols are outside this model. Their headers declare
  interfaces without bodies, and much of their behaviour is lock-guarded
  sharing between threads.
