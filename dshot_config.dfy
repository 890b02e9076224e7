/** Build-time configuration of the DSHOT driver: the macros of `User/Inc/dshot.h`
    that the frame encoder uses. */
module DshotConfig {
  import opened MachineWords

  /** `USE_TEMLEMETRY` is defined, so the checksum of every frame is inverted
      (the bidirectional-DSHOT convention). This is a build switch, not a
      per-frame argument. */
  const UseTelemetry: bool := true

  /** Timer compare value (duty) of a pulse that encodes a 0 bit (`MOTOR_BIT_0`). */
  const MotorBit0: Uint32 := 7

  /** Timer compare value (duty) of a pulse that encodes a 1 bit (`MOTOR_BIT_1`). */
  const MotorBit1: Uint32 := 14

  /** Compare value of the two slots that end every frame at a low level. */
  const ResetCode: Uint32 := 0

  /** Bits in one DSHOT frame. */
  const FrameBits: nat := 16

  /** 16 bit pulses plus two reset slots (`DSHOT_DMA_BUFFER_SIZE`). */
  const DmaBufferSize: nat := 18
}
