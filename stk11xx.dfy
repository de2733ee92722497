/** The parts of the Syntek STK11xx driver header that compute something:
    the percentage macro, the table of image sizes indexed by resolution,
    the device-status probe and the alternate settings the camera is
    switched on and off with.

    The probe reads register 0x201 through the controller; here the values
    those reads return are an input sequence, one value per read. */
module Stk11xx {
  import opened CArith

  // ---------------------------------------------------------------------
  // STK11XX_PERCENT
  // ---------------------------------------------------------------------

  /** STK11XX_PERCENT(x, y): `y` percent of `x`, divided with C's `/`, so
      the fraction is dropped toward zero whichever the sign. */
  function Percent(x: int, y: int): (r: int)
    ensures x * y >= 0 ==> 100 * r <= x * y < 100 * r + 100
    ensures x * y <= 0 ==> 100 * r - 100 < x * y <= 100 * r
  {
    CDiv(x * y, 100)
  }

  /** Truncation toward zero is symmetric: negating an operand negates the
      percentage (a flooring division would not be). */
  lemma PercentOfNegated(x: int, y: int)
    ensures Percent(-x, y) == -Percent(x, y)
  {
    var q := Percent(x, y);
    assert (-x) * y == -(x * y);
    assert (-x) * y - (-q) * 100 == -(x * y - q * 100);
    CDivUnique((-x) * y, 100, -q);
  }

  /** A hundred percent of `x` is `x`. */
  lemma PercentOfHundred(x: int)
    ensures Percent(x, 100) == x
  {
    CDivExact(x * 100, 100, x);
  }

  // ---------------------------------------------------------------------
  // T_STK11XX_RESOLUTION and stk11xx_image_sizes
  // ---------------------------------------------------------------------

  /** The resolutions, in the order of the enumeration. */
  datatype Resolution =
    | R80x60 | R128x96 | R160x120 | R213x160 | R320x240 | R640x480
    | R720x480 | R720x576 | R800x600 | R1024x768 | R1280x1024

  /** STK11XX_NBR_SIZES: the enumerator after the last resolution. */
  const NbrSizes: nat := 11

  /** The value of a resolution's enumeration constant. */
  function Ordinal(r: Resolution): (i: nat)
    ensures i < NbrSizes
  {
    match r
    case R80x60 => 0
    case R128x96 => 1
    case R160x120 => 2
    case R213x160 => 3
    case R320x240 => 4
    case R640x480 => 5
    case R720x480 => 6
    case R720x576 => 7
    case R800x600 => 8
    case R1024x768 => 9
    case R1280x1024 => 10
  }

  /** The resolution whose enumeration constant is `i`. */
  function ResolutionAt(i: nat): (r: Resolution)
    requires i < NbrSizes
    ensures Ordinal(r) == i
  {
    [R80x60, R128x96, R160x120, R213x160, R320x240, R640x480,
     R720x480, R720x576, R800x600, R1024x768, R1280x1024][i]
  }

  /** struct stk11xx_coord */
  datatype Coord = Coord(x: int, y: int)

  /** stk11xx_image_sizes, indexed by enumeration constant. */
  const ImageSizes: seq<Coord> := [
    Coord(80, 60), Coord(128, 96), Coord(160, 120), Coord(213, 160),
    Coord(320, 240), Coord(640, 480), Coord(720, 480), Coord(720, 576),
    Coord(800, 600), Coord(1024, 768), Coord(1280, 1024)]

  /** The width and height that a resolution constant's name spells out. */
  function NamedSize(r: Resolution): Coord
  {
    match r
    case R80x60 => Coord(80, 60)
    case R128x96 => Coord(128, 96)
    case R160x120 => Coord(160, 120)
    case R213x160 => Coord(213, 160)
    case R320x240 => Coord(320, 240)
    case R640x480 => Coord(640, 480)
    case R720x480 => Coord(720, 480)
    case R720x576 => Coord(720, 576)
    case R800x600 => Coord(800, 600)
    case R1024x768 => Coord(1024, 768)
    case R1280x1024 => Coord(1280, 1024)
  }

  /** The table has one entry per resolution, and the entry at each
      constant's value is the size that constant names. */
  lemma ImageSizesMatchResolutions()
    ensures |ImageSizes| == NbrSizes
    ensures forall r: Resolution :: ImageSizes[Ordinal(r)] == NamedSize(r)
  {
  }

  /** Enumeration constants and resolutions are in one-to-one correspondence. */
  lemma OrdinalIsBijective(r: Resolution, i: nat)
    requires i < NbrSizes
    ensures ResolutionAt(Ordinal(r)) == r
    ensures Ordinal(ResolutionAt(i)) == i
  {
  }

  /** The table lists the sizes from the fewest pixels to the most. */
  lemma ImageSizesGrow(i: nat, j: nat)
    requires i < j < |ImageSizes|
    ensures ImageSizes[i].x <= ImageSizes[j].x && ImageSizes[i].y <= ImageSizes[j].y
    ensures ImageSizes[i].x * ImageSizes[i].y < ImageSizes[j].x * ImageSizes[j].y
  {
  }

  // ---------------------------------------------------------------------
  // dev_stk11xx_check_device
  // ---------------------------------------------------------------------

  /** The register the probe reads. */
  const StatusRegister: int := 0x201

  /** Register values on which the probe reads again. */
  predicate IsNotReady(v: int)
  {
    v == 0x00 || v == 0x11 || v == 0x14 || v == 0x30 || v == 0x31 ||
    v == 0x51 || v == 0x70 || v == 0x71 || v == 0x91
  }

  /** Register values on which the probe reports a ready device. */
  predicate IsReady(v: int)
  {
    v == 0x01 || v == 0x04 || v == 0x05 || v == 0x15
  }

  /** What the probe reports after the given reads: 1 or -1 for the first
      value that is not a not-ready code (ready, or unknown), 0 if there is
      none. */
  function ProbeOutcome(values: seq<int>): (status: int)
    ensures -1 <= status <= 1
  {
    if values == [] then 0
    else if IsNotReady(values[0]) then ProbeOutcome(values[1..])
    else if IsReady(values[0]) then 1
    else -1
  }

  /** The outcome is decided by the first value that is not a not-ready code. */
  lemma {:induction false} ProbeOutcomeAtFirstDecisive(values: seq<int>, k: nat)
    requires k < |values| && !IsNotReady(values[k])
    requires forall j :: 0 <= j < k ==> IsNotReady(values[j])
    ensures ProbeOutcome(values) == if IsReady(values[k]) then 1 else -1
  {
    if k > 0 {
      ProbeOutcomeAtFirstDecisive(values[1..], k - 1);
    }
  }

  /** Reads that all say "not ready" report 0. */
  lemma {:induction false} ProbeOutcomeAllNotReady(values: seq<int>)
    requires forall j :: 0 <= j < |values| ==> IsNotReady(values[j])
    ensures ProbeOutcome(values) == 0
  {
    if values != [] {
      ProbeOutcomeAllNotReady(values[1..]);
    }
  }

  /** Once the outcome is decided, further reads do not change it. */
  lemma {:induction false} ProbeOutcomeIgnoresLaterReads(values: seq<int>, more: seq<int>)
    requires ProbeOutcome(values) != 0
    ensures ProbeOutcome(values + more) == ProbeOutcome(values)
  {
    assert values != [];
    assert (values + more)[1..] == values[1..] + more;
    if IsNotReady(values[0]) {
      ProbeOutcomeIgnoresLaterReads(values[1..], more);
    }
  }

  /** The number of reads a bound of `nbr` allows. */
  function ReadBound(nbr: int): (n: nat)
    ensures nbr <= 0 ==> n == 0
    ensures nbr >= 0 ==> n == nbr
  {
    if nbr < 0 then 0 else nbr
  }

  /** dev_stk11xx_check_device: read the status register up to `nbr` times.
      `values[i]` is what read number `i` returns. `registersRead` lists the
      register index of every read performed, in order. */
  method CheckDevice(values: seq<int>, nbr: int) returns (status: int, registersRead: seq<int>)
    requires nbr <= |values|
    ensures |registersRead| <= ReadBound(nbr)
    ensures forall k :: 0 <= k < |registersRead| ==> registersRead[k] == StatusRegister
    ensures status == ProbeOutcome(values[..ReadBound(nbr)])
    ensures status == 0 <==>
      |registersRead| == ReadBound(nbr) && forall j :: 0 <= j < |registersRead| ==> IsNotReady(values[j])
    ensures status != 0 ==>
      |registersRead| > 0 && !IsNotReady(values[|registersRead| - 1]) &&
      (status == 1 <==> IsReady(values[|registersRead| - 1])) &&
      forall j :: 0 <= j < |registersRead| - 1 ==> IsNotReady(values[j])
  {
    var n := ReadBound(nbr);
    registersRead := [];
    var i := 0;
    while i < nbr
      invariant 0 <= i <= n
      invariant |registersRead| == i
      invariant forall k :: 0 <= k < i ==> registersRead[k] == StatusRegister
      invariant forall j :: 0 <= j < i ==> IsNotReady(values[j])
    {
      registersRead := registersRead + [StatusRegister];
      var value := values[i];
      if !IsNotReady(value) {
        ProbeOutcomeAtFirstDecisive(values[..n], i);
      }
      if value == 0x00 {
      } else if value == 0x11 || value == 0x14 {
      } else if value == 0x30 || value == 0x31 {
      } else if value == 0x51 {
      } else if value == 0x70 || value == 0x71 {
      } else if value == 0x91 {
      } else if value == 0x01 {
        return 1, registersRead;
      } else if value == 0x04 || value == 0x05 {
        return 1, registersRead;
      } else if value == 0x15 {
        return 1, registersRead;
      } else {
        return -1, registersRead;
      }
      i := i + 1;
    }
    ProbeOutcomeAllNotReady(values[..n]);
    status := 0;
  }

  // ---------------------------------------------------------------------
  // dev_stk11xx_camera_on / dev_stk11xx_camera_off
  // ---------------------------------------------------------------------

  /** The alternate setting that starts the isochronous video stream. */
  const CameraOnSetting: int := 5
  /** The alternate setting that stops it. */
  const CameraOffSetting: int := 0

  /** The controller's video interface, as far as these helpers use it:
      the alternate settings requested of it, in order. Whether the device
      accepted a request is not recorded, because the helpers discard it. */
  class VideoInterface {
    var requestedSettings: seq<int>

    constructor ()
      ensures requestedSettings == []
    {
      requestedSettings := [];
    }

    /** Ask the device for an alternate setting (a `u_int8_t`). */
    method SetAlternateInterface(setting: int)
      requires 0 <= setting < 256
      modifies this
      ensures requestedSettings == old(requestedSettings) + [setting]
    {
      requestedSettings := requestedSettings + [setting];
    }
  }

  /** dev_stk11xx_camera_on: request alternate setting 5. */
  method CameraOn(dev: VideoInterface)
    modifies dev
    ensures dev.requestedSettings == old(dev.requestedSettings) + [CameraOnSetting]
  {
    dev.SetAlternateInterface(CameraOnSetting);
  }

  /** dev_stk11xx_camera_off: request alternate setting 0. */
  method CameraOff(dev: VideoInterface)
    modifies dev
    ensures dev.requestedSettings == old(dev.requestedSettings) + [CameraOffSetting]
  {
    dev.SetAlternateInterface(CameraOffSetting);
  }
}
