# DSHOT frame encoder

This project models the DSHOT frame encoder of an STM32 motor driver and
proves properties of that model. The encoder has three steps:

- `dshot_prepare_packet` turns an 11-bit command value and a telemetry-request
  flag into a 16-bit frame. Bits 15..5 hold the value, bit 4 holds the request,
  and bits 3..0 hold a 4-bit checksum.
- `dshot_prepare_dmabuffer` serialises the frame, most significant bit first,
  into 18 timer compare values. Each bit becomes a long pulse (`MOTOR_BIT_1`,
  14) or a short one (`MOTOR_BIT_0`, 7). Two zero slots follow.
- `dshot_prepare_dmabuffer_all` fills the static buffer of motor 1 from the
  first entry of the motor-value array.

The checksum is the XOR of the payload's three nibbles. It is inverted because
`USE_TEMLEMETRY` is defined in the header. That macro is modelled as the build
constant `DshotConfig.UseTelemetry`, fixed to `true`.

Files:

- `machine_words.dfy` (`MachineWords`): C unsigned words as bit sequences,
  least significant bit first. It defines the C operators the encoder uses
  (`<<`, `>>`, `&`, `|`, `^`, `~`, conversions between widths) and `ToNat`,
  the number a word denotes. C's integer promotion and the truncation back to
  `uint16_t` are written out explicitly.
- `dshot_config.dfy` (`DshotConfig`): the header macros.
- `dshot_packet.dfy` (`DshotPacket`): the frame as a function (`Frame`), and
  `dshot_prepare_packet` as a method with its checksum loop (`PreparePacket`).
  It also holds the properties of frames.
- `dshot_dma.dfy` (`DshotDma`): the pulse train as a function (`DmaBuffer`),
  `dshot_prepare_dmabuffer` as an in-place array method, and the driver's
  static buffer as the class `MotorDriver`.
- `dshot_receiver.dfy` (`DshotReceiver`): what the receiving ESC does, which
  is check the checksum, split the frame, and read the pulses back. These are
  independent inverses, and the encoder is proved against them.

The DSHOT convention inverts the checksum only when bidirectional telemetry
is in use, so in plain DSHOT command 0 without a telemetry request is frame
`0x0000`. This driver inverts under a build switch that is on, so command 0
gives frame `0x000F` (`DshotPacket.IdleFrame`). The model follows the code.

The header declares `dshot_write(uint16_t*, bool)`, but the definition takes
only the motor-value array; the model follows the definition.

## Model

| member | source | states |
|---|---|---|
| DshotPacket.Payload | User/Src/dshot_test.c:18 | Bit 0 of the `uint16_t` payload is the request, and `payload >> 1` is `value & 0x7FFF`: the top value bit is lost to the truncation. |
| DshotPacket.Checksum | User/Src/dshot_test.c:21-31 | The 4-bit checksum, XOR-ed with the payload's three low nibbles, gives `0xF` (inverted under `USE_TEMLEMETRY`). |
| DshotPacket.ChecksumValid | User/Src/dshot_test.c:21-33 | Receiver side: the acceptance test on a frame (all four nibbles XOR to `0xF`) holds exactly when the low nibble is the checksum of the frame's upper twelve bits. |
| DshotPacket.Frame | User/Src/dshot_test.c:16-35 | The frame keeps value bits 0..10 in frame bits 5..15 and the request in bit 4. It always passes the receiver's check that the four nibbles XOR to `0xF` (inverted checksum). |
| DshotPacket.FrameAt | User/Src/dshot_test.c:18-33 | Each frame bit, stated in terms of the value bits and the request: checksum bit k is the complement of payload bits k, k+4 and k+8 XOR-ed together. |
| DshotPacket.PreparePacket | User/Src/dshot_test.c:16-35 | The C routine returns exactly `Frame(value, requestTelemetry)`. Its three-round fold of the checksum is carried by the loop invariant `csum == data ^ (data >> 4) ^ ...`. It promotes to `int`, complements under `USE_TEMLEMETRY`, masks with `0xf` and truncates to 16 bits. |
| DshotPacket.FoldedChecksum | User/Src/dshot_test.c:21-33 | The low nibble of the folded accumulator, complemented and masked, is the checksum. Appended below the shifted payload, it gives the frame. |
| DshotPacket.FoldedBit | User/Src/dshot_test.c:23-26 | After three rounds, accumulator bit k (k < 4) is the XOR of payload bits k, k+4 and k+8. |
| DshotPacket.CommandFieldRoundTrip | User/Src/dshot_test.c:18-33 | `(frame >> 5) & 0x7FF` equals `value & 0x7FF`, and equals `value` itself when `value <= 2047`. |
| DshotPacket.TelemetryBit | User/Src/dshot_test.c:18-33 | `frame & 0x10` is nonzero exactly when telemetry was requested. |
| DshotPacket.ChecksumIsInvertedNibbleXor | User/Src/dshot_test.c:21-31 | `frame & 0xF == ((p ^ (p >> 4) ^ (p >> 8)) & 0xF) ^ 0xF`, where `p` is the payload. |
| DshotPacket.PayloadIntact | User/Src/dshot_test.c:31-33 | The checksum is below 16, and `frame >> 4 == payload & 0xFFF`. For `value <= 2047` this is `frame >> 4 == payload`. |
| DshotPacket.FrameValue | User/Src/dshot_test.c:18-33 | For `value <= 2047` the frame denotes `32 * value + 16 * requestTelemetry + checksum`. |
| DshotPacket.TruncatesToCommandField | User/Src/dshot_test.c:18-33 | Any 16-bit value gives the same frame as its low 11 bits, `value - 2048 * (value >> 11)`. The higher bits are lost to the truncating shifts and never reach the checksum. |
| DshotPacket.ChecksumBits | User/Src/dshot_test.c:21-31 | The four checksum bits of a payload, written out one by one. |
| DshotPacket.IdleFrame | User/Src/dshot_test.c:18-33 | Command 0 without telemetry gives payload 0, checksum `0xF` and frame `0x000F`. With telemetry it gives `0x001E`. |
| DshotPacket.FullScaleBits | User/Src/dshot_test.c:11 | Command 2047 is the word whose low 11 bits are set. |
| DshotPacket.FullScaleFrame | User/Src/dshot_test.c:18-33 | Command 2047 gives frame `0xFFE1`, or `0xFFF0` with telemetry. |
| DshotDma.DutyCode | User/Src/dshot_test.c:43 | A bit's compare value is `MOTOR_BIT_1` exactly when the bit is set and `MOTOR_BIT_0` exactly when it is clear. |
| DshotDma.DmaBuffer | User/Src/dshot_test.c:42-48 | The pulse train of a frame has 18 entries. Entry i < 16 is `MOTOR_BIT_1` exactly when frame bit 15 - i is set, and entries 16 and 17 are 0. |
| DshotDma.DmaBufferAt | User/Src/dshot_test.c:42-48 | The pulse train has 18 entries. Entry i < 16 is the duty of frame bit 15 - i, and entries 16 and 17 are 0. |
| DshotDma.DmaBufferEncodesFrame | User/Src/dshot_test.c:40-48 | Entry i < 16 is `MOTOR_BIT_1` exactly when frame bit 15 - i is set, and `MOTOR_BIT_0` exactly when it is clear. Entry 11 carries the request bit (short when none is requested), and entries 16 and 17 are 0. |
| DshotDma.PrepareDmaBuffer | User/Src/dshot_test.c:38-49 | The first 18 entries of the buffer become the pulse train of `Frame(value, false)`. Every later entry is unchanged. |
| DshotDma.WritePulses | User/Src/dshot_test.c:42-48 | The test-and-shift loop writes the pulse train of the packet into entries 0..17 and leaves the rest of the buffer unchanged. |
| DshotDma.ShiftStep | User/Src/dshot_test.c:43-44 | After i shifts, `packet & 0x8000` tests frame bit 15 - i. The promoted `packet <<= 1` is the 16-bit shift by i + 1. |
| DshotDma.DmaBufferFromEntries | User/Src/dshot_test.c:42-48 | A sequence of 18 entries with the duty of each frame bit (top bit first) followed by two zeros is the pulse train of that frame. |
| DshotDma.MotorDriver.constructor | User/Src/dshot_test.c:7 | The static `motor1_dmabuffer` has `DSHOT_DMA_BUFFER_SIZE` entries and starts zeroed. |
| DshotDma.MotorDriver.PrepareDmaBufferAll | User/Src/dshot_test.c:53-55 | Only motor 1's buffer changes. It becomes the pulse train of `motorValue[0]` without telemetry, so the other motor values have no effect. |
| DshotDma.MotorDriver.Write | User/Src/dshot_test.c:105-109 | The buffer is prepared as above, and the 18 words handed to the DMA are that pulse train. |
| DshotReceiver.ParseFrame | User/Src/dshot_test.c:16-35 | A frame is accepted exactly when its nibbles XOR to `0xF`. An accepted frame yields a command of at most 2047 whose frame is the input. |
| DshotReceiver.ParseFrameSound | User/Src/dshot_test.c:16-35 | A frame that passes the check is the frame of its own fields, `frame >> 5` and bit 4. |
| DshotReceiver.CommandFieldBound | User/Src/dshot_test.c:33 | `frame >> 5` is at most 2047. |
| DshotReceiver.FrameFieldsAt | User/Src/dshot_test.c:21-33 | Bit by bit, a frame that passes the check equals the frame rebuilt from its fields. |
| DshotReceiver.ParseFrameInverse | User/Src/dshot_test.c:16-35 | For every value up to 2047 and every request flag, the frame is accepted and gives back exactly that value and flag. |
| DshotReceiver.CommandFieldOfFrame | User/Src/dshot_test.c:18-33 | `frame >> 5 == value` for a value of at most 2047. |
| DshotReceiver.DecodeDmaBuffer | User/Src/dshot_test.c:42-48 | Reading a pulse train back: whatever it accepts is the pulse train of the frame it returns. |
| DshotReceiver.DmaBufferInverse | User/Src/dshot_test.c:42-48 | Reading back the pulse train of any frame gives that frame. |

## Left out

- Timer, DMA and interrupt plumbing (`User/Src/dshot_test.c:58-82`). These are calls into the HAL with nothing to compute. `MotorDriver.Write` returns the words the DMA would be given.
- `esc_unlock` (`User/Src/dshot_test.c:85-93`): a wall-clock loop over `HAL_GetTick` and `HAL_Delay`. The frame it sends repeatedly is covered by `DshotPacket.IdleFrame`.
- `dshot_init` and `dshot_loop` (`User/Src/dshot_test.c:96-119`): `printf`, delays and the order of HAL calls.
- Telemetry decoding (eRPM, GCR, RPM conversion). The driver does not implement it, and its constants (`User/Inc/dshot.h:24-30`) are unused and partly floating point.
- `dshot_send` and the two-argument `dshot_write` (`User/Inc/dshot.h:60-61`): declared without a definition. `dshot_send` is not part of this model.
- Pin, timer and protocol-speed macros (`User/Inc/dshot.h:19-23,32-36,50-57`): hardware configuration only.
- Words are sequences of bits, not machine integers. C's `int` promotion is modelled as a 32-bit word. This is exact here, because a shifted `uint16_t` never overflows 32 bits.
- DshotDma.PrepareDmaBuffer: calls `WritePulses` for its loop instead of holding the loop itself. Both perform the same assignments in the same order.
- DshotDma.MotorDriver.PrepareDmaBufferAll: has the static buffer as a field of the driver object, not a global. The model does not capture the DMA reading this buffer concurrently with a later write.
