/**
  The pixel pipeline of the capture script (src/python/raw.py): the sensor's
  unpacked 10-bit samples are shifted left by 6 into 16-bit containers when a
  frame is captured, and each saved image is either those 16-bit values or
  their top byte.
 */
module PixelDepth {
  import opened Unsigned

  /** A frame as the camera delivers it: a non-empty array of samples. */
  type RawFrame = f: seq<nat> | |f| > 0 witness [0]

  /** A captured frame: a non-empty array of 16-bit samples. */
  type Frame = f: seq<u16> | |f| > 0 witness [0]

  /** numpy's `uint16 << 6`: the shift is taken modulo 2^16. */
  function ShiftLeft6(v: nat): (w: u16)
    ensures v < 1024 ==> w == v * 64
  {
    (v * 64) % 65536
  }

  /** numpy's `(w >> 8).astype(np.uint8)` on a 16-bit sample. */
  function TopByte(w: u16): (b: byte)
    ensures b as int * 256 <= w < (b as int + 1) * 256
  {
    w / 256
  }

  /** `picam2.capture_array("raw").view(np.uint16) << 6`, applied to every sample. */
  function Capture(raw: RawFrame): (f: Frame)
    ensures |f| == |raw|
    ensures forall i :: 0 <= i < |raw| && raw[i] < 1024 ==> f[i] == raw[i] * 64
  {
    seq(|raw|, i requires 0 <= i < |raw| => ShiftLeft6(raw[i]))
  }

  /** The 8-bit image saved when `save_as_8bit` is set: `(frame >> 8).astype(np.uint8)`. */
  function EightBit(f: Frame): (g: seq<byte>)
    ensures |g| == |f|
    ensures forall i :: 0 <= i < |f| ==> g[i] as int * 256 <= f[i] < (g[i] as int + 1) * 256
  {
    seq(|f|, i requires 0 <= i < |f| => TopByte(f[i]))
  }

  /** The 16-bit image saved otherwise: `frame.astype(np.uint16)`, the captured values unchanged. */
  function SixteenBit(f: Frame): (g: seq<u16>)
    ensures g == f
  {
    seq(|f|, i requires 0 <= i < |f| => f[i] % 65536)
  }

  /** A 10-bit sample survives the shift: it still fits 16 bits and shifting back recovers it. */
  lemma TenBitSampleFits(v: nat)
    requires v < 1024
    ensures ShiftLeft6(v) / 64 == v
    ensures ShiftLeft6(v) % 64 == 0
  {
  }

  /** The 8-bit output of a 10-bit sample is that sample without its two lowest bits. */
  lemma EightBitDropsTwoLowBits(v: nat)
    requires v < 1024
    ensures TopByte(ShiftLeft6(v)) == v / 4
  {
    assert ShiftLeft6(v) == v * 64;
  }

  /**
    Saving a captured frame of 10-bit samples as 8 bits keeps the top eight of
    the ten bits of every sample; saving it as 16 bits keeps the shifted value.
   */
  lemma SavedFrameOfTenBitCapture(raw: RawFrame)
    requires forall i :: 0 <= i < |raw| ==> raw[i] < 1024
    ensures forall i :: 0 <= i < |raw| ==> EightBit(Capture(raw))[i] == raw[i] / 4
    ensures forall i :: 0 <= i < |raw| ==> SixteenBit(Capture(raw))[i] == raw[i] * 64
  {
    forall i | 0 <= i < |raw|
      ensures EightBit(Capture(raw))[i] == raw[i] / 4
    {
      EightBitDropsTwoLowBits(raw[i]);
    }
  }
}
