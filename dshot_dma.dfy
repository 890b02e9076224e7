/** Serialisation of a frame into the compare values the timer's DMA burst
    plays out (`dshot_prepare_dmabuffer`), and the driver's static buffer for
    motor 1 (`motor1_dmabuffer`, `dshot_prepare_dmabuffer_all`, `dshot_write`). */
module DshotDma {
  import opened MachineWords
  import opened DshotConfig
  import opened DshotPacket

  /** The compare value of the pulse that sends one bit. */
  function DutyCode(bit: bool): (duty: Uint32)
    ensures duty == MotorBit1 <==> bit
    ensures duty == MotorBit0 <==> !bit
  {
    if bit then MotorBit1 else MotorBit0
  }

  /** The 18 compare values for frame `f`: one pulse per bit, bit 15 first,
      then two reset slots. */
  function DmaBuffer(f: Word16): (s: seq<Uint32>)
    ensures |s| == DmaBufferSize
    ensures forall i :: 0 <= i < FrameBits ==> (s[i] == MotorBit1 <==> f[FrameBits - 1 - i])
    ensures s[16] == ResetCode && s[17] == ResetCode
  {
    seq(FrameBits, i requires 0 <= i < FrameBits => DutyCode(f[FrameBits - 1 - i])) + [ResetCode, ResetCode]
  }

  /** Entry `i` of the pulse train: the duty of frame bit `15 - i`, or a reset slot. */
  lemma DmaBufferAt(f: Word16, i: nat)
    requires i < DmaBufferSize
    ensures |DmaBuffer(f)| == DmaBufferSize
    ensures DmaBuffer(f)[i] == if i < FrameBits then DutyCode(f[FrameBits - 1 - i]) else ResetCode
  {
  }

  /** The pulse train carries the frame: entry `i` is the long pulse exactly
      when frame bit `15 - i` is set and the short one exactly when it is
      clear; entry 11 (bit 4, the telemetry request) is short when no
      telemetry is requested; the last two entries are the reset slots. */
  lemma DmaBufferEncodesFrame(value: Word16, requestTelemetry: bool)
    ensures |DmaBuffer(Frame(value, requestTelemetry))| == DmaBufferSize
    ensures forall i :: 0 <= i < FrameBits ==>
              (DmaBuffer(Frame(value, requestTelemetry))[i] == MotorBit1 <==> Frame(value, requestTelemetry)[FrameBits - 1 - i])
              && (DmaBuffer(Frame(value, requestTelemetry))[i] == MotorBit0 <==> !Frame(value, requestTelemetry)[FrameBits - 1 - i])
    ensures DmaBuffer(Frame(value, requestTelemetry))[11] == (if requestTelemetry then MotorBit1 else MotorBit0)
    ensures DmaBuffer(Frame(value, requestTelemetry))[16] == ResetCode
    ensures DmaBuffer(Frame(value, requestTelemetry))[17] == ResetCode
  {
    var f := Frame(value, requestTelemetry);
    forall i | 0 <= i < DmaBufferSize
      ensures DmaBuffer(f)[i] == if i < FrameBits then DutyCode(f[FrameBits - 1 - i]) else ResetCode
    {
      DmaBufferAt(f, i);
    }
  }

  /** `dshot_prepare_dmabuffer`: builds the frame of `value` without a
      telemetry request, then serialises it into the first 18 entries of
      `buf`; the rest of `buf` is not touched. */
  method PrepareDmaBuffer(buf: array<Uint32>, value: Word16)
    requires buf.Length >= DmaBufferSize
    modifies buf
    ensures buf[..DmaBufferSize] == DmaBuffer(Frame(value, false))
    ensures buf[DmaBufferSize..] == old(buf[DmaBufferSize..])
  {
    var packet := PreparePacket(value, false);
    WritePulses(buf, packet);
  }

  /** The loop of `dshot_prepare_dmabuffer`: one compare value per bit, found
      by testing `packet & 0x8000` and then shifting `packet` left, and two
      zero slots after the sixteenth. */
  method WritePulses(buf: array<Uint32>, packet: Word16)
    requires buf.Length >= DmaBufferSize
    modifies buf
    ensures buf[..DmaBufferSize] == DmaBuffer(packet)
    ensures buf[DmaBufferSize..] == old(buf[DmaBufferSize..])
  {
    var packet := packet;
    ghost var frame := packet;
    for i := 0 to 16
      invariant packet == Shl(frame, i)
      invariant forall j :: 0 <= j < i ==> buf[j] == DutyCode(frame[15 - j])
      invariant forall j :: DmaBufferSize <= j < buf.Length ==> buf[j] == old(buf[j])
    {
      ShiftStep(frame, packet, i);
      buf[i] := if NonZero(And(packet, SingleBit(15, 16))) then MotorBit1 else MotorBit0;
      packet := Resize(Shl(Resize(packet, 32), 1), 16);
    }
    buf[16] := ResetCode;
    buf[17] := ResetCode;
    DmaBufferFromEntries(buf[..DmaBufferSize], frame);
  }

  /** One turn of the loop in `dshot_prepare_dmabuffer`: after `i` shifts the
      top bit of the packet is frame bit `15 - i`, and `packet <<= 1` makes it
      `i + 1` shifts. */
  lemma ShiftStep(frame: Word16, packet: Word16, i: nat)
    requires i < FrameBits && packet == Shl(frame, i)
    ensures NonZero(And(packet, SingleBit(15, 16))) == frame[15 - i]
    ensures Resize(Shl(Resize(packet, 32), 1), 16) == Shl(frame, i + 1)
  {
    SingleBitTest(packet, 15);
    PromotedShl(packet, 1);
    ShlShl(frame, i);
  }

  /** A sequence that holds the duty of each frame bit, top bit first, and two
      reset slots is the pulse train of that frame. */
  lemma DmaBufferFromEntries(s: seq<Uint32>, f: Word16)
    requires |s| == DmaBufferSize
    requires forall j :: 0 <= j < FrameBits ==> s[j] == DutyCode(f[FrameBits - 1 - j])
    requires s[16] == ResetCode && s[17] == ResetCode
    ensures s == DmaBuffer(f)
  {
    forall i | 0 <= i < DmaBufferSize
      ensures s[i] == DmaBuffer(f)[i]
    {
      DmaBufferAt(f, i);
    }
  }

  /** The driver's state: the static `motor1_dmabuffer` the DMA reads from. */
  class MotorDriver {
    const motor1DmaBuffer: array<Uint32>

    ghost predicate Valid() {
      motor1DmaBuffer.Length == DmaBufferSize
    }

    /** A static array starts zeroed. */
    constructor ()
      ensures Valid() && fresh(motor1DmaBuffer)
      ensures motor1DmaBuffer[..] == seq(DmaBufferSize, _ => 0)
    {
      motor1DmaBuffer := new Uint32[DmaBufferSize](_ => 0);
    }

    /** `dshot_prepare_dmabuffer_all`: only motor 1 is driven, from
        `motorValue[0]`; the other entries are not read. */
    method PrepareDmaBufferAll(motorValue: array<Word16>)
      requires Valid() && motorValue.Length >= 1
      modifies motor1DmaBuffer
      ensures Valid()
      ensures motor1DmaBuffer[..] == DmaBuffer(Frame(motorValue[0], false))
    {
      PrepareDmaBuffer(motor1DmaBuffer, motorValue[0]);
    }

    /** `dshot_write` reduced to its data path: prepare the buffer, then hand
        the `DSHOT_DMA_BUFFER_SIZE` words of `motor1_dmabuffer` to the DMA,
        which `sent` stands for. */
    method Write(motorValue: array<Word16>) returns (sent: seq<Uint32>)
      requires Valid() && motorValue.Length >= 1
      modifies motor1DmaBuffer
      ensures Valid()
      ensures motor1DmaBuffer[..] == DmaBuffer(Frame(motorValue[0], false))
      ensures sent == DmaBuffer(Frame(motorValue[0], false))
    {
      PrepareDmaBufferAll(motorValue);
      sent := motor1DmaBuffer[..DmaBufferSize];
    }
  }
}
