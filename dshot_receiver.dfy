/** The receiving end of the line, as an ESC sees it: recover the bits from
    the pulse train and the command from a frame. These inverses are the
    reference the encoder is checked against; the driver itself has no
    decoder. */
module DshotReceiver {
  import opened MachineWords
  import opened DshotConfig
  import opened DshotPacket
  import opened DshotDma

  datatype Option<T> = None | Some(value: T)

  /** What a frame carries. */
  datatype Command = Command(throttle: Word16, requestTelemetry: bool)

  /** Accept a frame whose checksum is right and split it into its fields. */
  function ParseFrame(f: Word16): (r: Option<Command>)
    ensures r.Some? <==> ChecksumValid(f)
    ensures r.Some? ==> ToNat(r.value.throttle) <= 2047
    ensures r.Some? ==> Frame(r.value.throttle, r.value.requestTelemetry) == f
  {
    if ChecksumValid(f) then
      ParseFrameSound(f);
      Some(Command(Shr(f, 5), f[4]))
    else
      None
  }

  /** A frame with a valid checksum is the frame of its own fields. */
  lemma ParseFrameSound(f: Word16)
    requires ChecksumValid(f)
    ensures ToNat(Shr(f, 5)) <= 2047
    ensures Frame(Shr(f, 5), f[4]) == f
  {
    CommandFieldBound(f);
    var g := Frame(Shr(f, 5), f[4]);
    forall k | 0 <= k < 16
      ensures g[k] == f[k]
    {
      FrameFieldsAt(f, k);
    }
    assert g == f;
  }

  /** `frame >> 5` has 11 significant bits. */
  lemma CommandFieldBound(f: Word16)
    ensures ToNat(Shr(f, 5)) <= 2047
  {
    assert Pow2(11) == 2048;
    HighBitsClear(Shr(f, 5), 11);
  }

  /** Bit `k` of a valid frame is bit `k` of the frame rebuilt from its fields. */
  lemma FrameFieldsAt(f: Word16, k: nat)
    requires ChecksumValid(f) && k < 16
    ensures Frame(Shr(f, 5), f[4])[k] == f[k]
  {
    var throttle := Shr(f, 5);
    FrameAt(throttle, f[4], k);
    if k < 4 {
      assert NibbleParity(f, k);
      assert (if k == 0 then f[4] else throttle[k - 1]) == f[k + 4];
      assert throttle[k + 3] == f[k + 8] && throttle[k + 7] == f[k + 12];
    }
  }

  /** Every frame the encoder builds from a command of at most 2047 is
      accepted and yields that command back. */
  lemma ParseFrameInverse(throttle: Word16, requestTelemetry: bool)
    requires ToNat(throttle) <= 2047
    ensures ParseFrame(Frame(throttle, requestTelemetry)) == Some(Command(throttle, requestTelemetry))
  {
    CommandFieldOfFrame(throttle, requestTelemetry);
  }

  /** `frame >> 5` is the command value when that fits in 11 bits. */
  lemma CommandFieldOfFrame(throttle: Word16, requestTelemetry: bool)
    requires ToNat(throttle) <= 2047
    ensures Shr(Frame(throttle, requestTelemetry), 5) == throttle
  {
    var f := Frame(throttle, requestTelemetry);
    assert Pow2(11) == 2048;
    HighBitsClear(throttle, 11);
    forall k | 0 <= k < 16
      ensures Shr(f, 5)[k] == throttle[k]
    {
      if k < 11 {
        FrameAt(throttle, requestTelemetry, k + 5);
      }
    }
    assert Shr(f, 5) == throttle;
  }

  /** Read the pulse train back: 16 pulses of either duty, bit 15 first,
      then the two reset slots. */
  function DecodeDmaBuffer(s: seq<Uint32>): (r: Option<Word16>)
    ensures r.Some? ==> DmaBuffer(r.value) == s
  {
    if |s| == DmaBufferSize && s[16] == ResetCode && s[17] == ResetCode
       && forall i :: 0 <= i < FrameBits ==> s[i] == MotorBit0 || s[i] == MotorBit1
    then
      var f: Word16 := seq(FrameBits, k requires 0 <= k < FrameBits => s[FrameBits - 1 - k] == MotorBit1);
      forall i | 0 <= i < DmaBufferSize
        ensures DmaBuffer(f)[i] == s[i]
      {
        DmaBufferAt(f, i);
      }
      Some(f)
    else
      None
  }

  /** Serialising a frame and reading it back gives the frame. */
  lemma DmaBufferInverse(f: Word16)
    ensures DecodeDmaBuffer(DmaBuffer(f)) == Some(f)
  {
    var s := DmaBuffer(f);
    assert |s| == DmaBufferSize && s[16] == ResetCode && s[17] == ResetCode;
    forall i | 0 <= i < FrameBits
      ensures s[i] == DutyCode(f[FrameBits - 1 - i])
    {
      DmaBufferAt(f, i);
    }
    var g: Word16 := seq(FrameBits, k requires 0 <= k < FrameBits => s[FrameBits - 1 - k] == MotorBit1);
    forall k | 0 <= k < FrameBits
      ensures g[k] == f[k]
    {
      assert s[FrameBits - 1 - k] == DutyCode(f[k]);
    }
    assert g == f;
  }
}
