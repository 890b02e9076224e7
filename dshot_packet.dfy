/** The 16-bit DSHOT frame built by `dshot_prepare_packet`: bits 15..5 carry
    the 11-bit command value, bit 4 the telemetry request, bits 3..0 the
    checksum, which is the XOR of the 12-bit payload's three nibbles, inverted
    because the driver is built for bidirectional DSHOT. */
module DshotPacket {
  import opened MachineWords
  import opened DshotConfig

  /** The 12-bit payload `(value << 1) | requestTelemetry`, as the `uint16_t` it
      is stored in: bit 0 is the request, bits 1..15 are value bits 0..14. */
  function Payload(value: Word16, requestTelemetry: bool): (p: Word16)
    ensures p[0] == requestTelemetry
    ensures Shr(p, 1) == And(value, LowMask(15, 16))
  {
    var p := seq(16, k requires 0 <= k < 16 => if k == 0 then requestTelemetry else value[k - 1]);
    assert forall k :: 0 <= k < 16 ==> Shr(p, 1)[k] == And(value, LowMask(15, 16))[k];
    p
  }

  /** Bit k of the XOR of the payload's nibbles 0, 1 and 2. */
  function NibbleXor(p: Word16): Bits {
    seq(4, k requires 0 <= k < 4 => (p[k] != p[k + 4]) != p[k + 8])
  }

  /** The 4-bit checksum: XOR-ed with the payload's three nibbles it gives
      0xF when inverted and 0 otherwise. */
  function Checksum(p: Word16): (c: Bits)
    ensures |c| == 4
    ensures forall k {:trigger c[k]} :: 0 <= k < 4 ==> (((c[k] != p[k]) != p[k + 4]) != p[k + 8]) == UseTelemetry
  {
    if UseTelemetry then Not(NibbleXor(p)) else NibbleXor(p)
  }

  /** What a receiving ESC checks: the XOR of all four nibbles of the frame is
      0xF under the inverted checksum and 0 under the plain one, that is, the
      low nibble is the checksum of the twelve bits above it. */
  function ChecksumValid(f: Word16): (valid: bool)
    ensures valid <==> f[..4] == Checksum(Shr(f, 4))
  {
    var c := Checksum(Shr(f, 4));
    assert forall k :: 0 <= k < 4 ==> (c[k] == f[k] <==> NibbleParity(f, k) == UseTelemetry);
    assert f[..4] == c <==> forall k :: 0 <= k < 4 ==> c[k] == f[k];
    forall k :: 0 <= k < 4 ==> NibbleParity(f, k) == UseTelemetry
  }

  /** Bit `k` of the XOR of the four nibbles of `f`. */
  function NibbleParity(f: Word16, k: nat): bool
    requires k < 4
  {
    ((f[k] != f[k + 4]) != f[k + 8]) != f[k + 12]
  }

  /** The frame: payload in bits 15..4, checksum in bits 3..0. */
  function Frame(value: Word16, requestTelemetry: bool): (f: Word16)
    ensures forall k :: 5 <= k < 16 ==> f[k] == value[k - 5]
    ensures f[4] == requestTelemetry
    ensures ChecksumValid(f)
  {
    var p := Payload(value, requestTelemetry);
    var c := Checksum(p);
    seq(16, k requires 0 <= k < 16 => if k < 4 then c[k] else p[k - 4])
  }

  /** Bit `k` of a frame in terms of the command value's bits. */
  lemma FrameAt(value: Word16, requestTelemetry: bool, k: nat)
    requires k < 16
    ensures Frame(value, requestTelemetry)[k]
            == if k < 4 then !(((if k == 0 then requestTelemetry else value[k - 1]) != value[k + 3]) != value[k + 7])
               else if k == 4 then requestTelemetry
               else value[k - 5]
  {
    var p := Payload(value, requestTelemetry);
    assert Checksum(p) == Not(NibbleXor(p));
  }

  /** The accumulator of the checksum loop after `n` rounds:
      `data ^ (data >> 4) ^ ... ^ (data >> 4(n-1))`. */
  ghost function XorOfShifts(data: Word32, n: nat): Word32 {
    if n == 0 then Zeros(32) else Xor(XorOfShifts(data, n - 1), Shr(data, 4 * (n - 1)))
  }

  /** `dshot_prepare_packet` as written. The payload and the final frame are
      computed in C `int` (32 bits, no overflow possible for a `uint16_t`
      operand) and truncated to `uint16_t`; the checksum is folded into a
      32-bit `unsigned` over three rounds, complemented because
      `USE_TEMLEMETRY` is defined, and masked with `0xf`. */
  method PreparePacket(value: Word16, requestTelemetry: bool) returns (packet: Word16)
    ensures packet == Frame(value, requestTelemetry)
  {
    packet := Resize(Or(Shl(Resize(value, 32), 1), FromBool(requestTelemetry, 32)), 16);
    assert packet == Payload(value, requestTelemetry);
    var csum: Word32 := Zeros(32);
    var csumData: Word32 := Resize(packet, 32);
    ghost var data := csumData;
    for i := 0 to 3
      invariant csumData == Shr(data, 4 * i)
      invariant csum == XorOfShifts(data, i)
    {
      csum := Xor(csum, csumData);
      ShrShr(data, 4 * i, 4);
      csumData := Shr(csumData, 4);
    }
    ghost var folded := csum;
    if UseTelemetry {
      csum := Not(csum);
    }
    csum := And(csum, LowMask(4, 32));
    ghost var p := packet;
    packet := Resize(Or(Shl(Resize(packet, 32), 4), csum), 16);
    FoldedChecksum(p, folded);
  }

  /** The low nibble of the folded accumulator, complemented and masked, is
      the checksum of the payload. */
  lemma FoldedChecksum(p: Word16, folded: Word32)
    requires folded == XorOfShifts(Resize(p, 32), 3)
    ensures var c := And(if UseTelemetry then Not(folded) else folded, LowMask(4, 32));
            Resize(Or(Shl(Resize(p, 32), 4), c), 16)
            == seq(16, k requires 0 <= k < 16 => if k < 4 then Checksum(p)[k] else p[k - 4])
  {
    var c := And(if UseTelemetry then Not(folded) else folded, LowMask(4, 32));
    var lhs := Resize(Or(Shl(Resize(p, 32), 4), c), 16);
    var rhs := seq(16, k requires 0 <= k < 16 => if k < 4 then Checksum(p)[k] else p[k - 4]);
    assert Checksum(p) == Not(NibbleXor(p));
    forall k | 0 <= k < 16
      ensures lhs[k] == rhs[k]
    {
      if k < 4 {
        FoldedBit(p, folded, k);
        assert c[k] == !folded[k];
      } else {
        assert c[k] == false;
      }
    }
    assert lhs == rhs;
  }

  /** Bit `k` of the low nibble after three rounds is the XOR of bits `k`,
      `k + 4` and `k + 8` of the payload. */
  lemma FoldedBit(p: Word16, folded: Word32, k: nat)
    requires folded == XorOfShifts(Resize(p, 32), 3) && k < 4
    ensures folded[k] == NibbleXor(p)[k]
  {
    var data := Resize(p, 32);
    assert XorOfShifts(data, 1) == Xor(Zeros(32), data);
    assert XorOfShifts(data, 2) == Xor(XorOfShifts(data, 1), Shr(data, 4));
    assert XorOfShifts(data, 3) == Xor(XorOfShifts(data, 2), Shr(data, 8));
    assert XorOfShifts(data, 2)[k] == (data[k] != data[k + 4]);
  }

  /** `(frame >> 5) & 0x7FF` gives back the command value's low 11 bits, and
      the value itself when it is at most 2047. */
  lemma CommandFieldRoundTrip(value: Word16, requestTelemetry: bool)
    ensures And(Shr(Frame(value, requestTelemetry), 5), LowMask(11, 16)) == And(value, LowMask(11, 16))
    ensures ToNat(value) <= 2047 ==> And(Shr(Frame(value, requestTelemetry), 5), LowMask(11, 16)) == value
  {
    var f := Frame(value, requestTelemetry);
    assert And(Shr(f, 5), LowMask(11, 16)) == And(value, LowMask(11, 16));
    if ToNat(value) <= 2047 {
      assert Pow2(11) == 2048;
      MaskBelow(value, 11);
    }
  }

  /** `frame & 0x10` is set exactly when telemetry was requested. */
  lemma TelemetryBit(value: Word16, requestTelemetry: bool)
    ensures NonZero(And(Frame(value, requestTelemetry), SingleBit(4, 16))) == requestTelemetry
  {
    SingleBitTest(Frame(value, requestTelemetry), 4);
  }

  /** `frame & 0xF == ((p ^ (p >> 4) ^ (p >> 8)) & 0xF) ^ 0xF` for the payload
      `p`: the nibble XOR, complemented. */
  lemma ChecksumIsInvertedNibbleXor(value: Word16, requestTelemetry: bool)
    ensures var p := Payload(value, requestTelemetry);
            And(Frame(value, requestTelemetry), LowMask(4, 16))
            == Xor(And(Xor(Xor(p, Shr(p, 4)), Shr(p, 8)), LowMask(4, 16)), LowMask(4, 16))
  {
    var p := Payload(value, requestTelemetry);
    assert Checksum(p) == Not(NibbleXor(p));
    var lhs := And(Frame(value, requestTelemetry), LowMask(4, 16));
    var rhs := Xor(And(Xor(Xor(p, Shr(p, 4)), Shr(p, 8)), LowMask(4, 16)), LowMask(4, 16));
    assert forall k :: 0 <= k < 16 ==> lhs[k] == rhs[k];
  }

  /** The checksum is below 16 and leaves the payload alone:
      `frame >> 4 == p & 0xFFF`, which is `p` itself for a value of at most 2047. */
  lemma PayloadIntact(value: Word16, requestTelemetry: bool)
    ensures ToNat(Checksum(Payload(value, requestTelemetry))) < 16
    ensures Shr(Frame(value, requestTelemetry), 4) == And(Payload(value, requestTelemetry), LowMask(12, 16))
    ensures ToNat(value) <= 2047 ==> Shr(Frame(value, requestTelemetry), 4) == Payload(value, requestTelemetry)
  {
    var p := Payload(value, requestTelemetry);
    ToNatBound(Checksum(p));
    assert Pow2(4) == 16;
    assert Shr(Frame(value, requestTelemetry), 4) == And(p, LowMask(12, 16));
    if ToNat(value) <= 2047 {
      assert Pow2(11) == 2048;
      HighBitsClear(value, 11);
      assert And(p, LowMask(12, 16)) == p;
    }
  }

  /** Numerically, a frame is `value * 32 + requestTelemetry * 16 + checksum`
      for a value of at most 2047. */
  lemma FrameValue(value: Word16, requestTelemetry: bool)
    requires ToNat(value) <= 2047
    ensures ToNat(Frame(value, requestTelemetry))
            == 32 * ToNat(value) + (if requestTelemetry then 16 else 0)
               + ToNat(Checksum(Payload(value, requestTelemetry)))
  {
    var f := Frame(value, requestTelemetry);
    var c := Checksum(Payload(value, requestTelemetry));
    var t := if requestTelemetry then 1 else 0;
    assert f[..4] == c;
    assert f[4..][..1] == [requestTelemetry];
    assert f[4..][1..] == value[..11];
    assert ToNat([requestTelemetry]) == t by {
      assert [requestTelemetry][1..] == [];
    }
    assert Pow2(1) == 2 && Pow2(4) == 16 && Pow2(11) == 2048;
    ToNatSplit(value, 11);
    HighBitsClear(value, 11);
    ToNatZero(value[11..]);
    assert ToNat(value[..11]) == ToNat(value);
    ToNatSplit(f[4..], 1);
    assert ToNat(f[4..]) == t + 2 * ToNat(value);
    ToNatSplit(f, 4);
    assert ToNat(f) == ToNat(c) + 16 * ToNat(f[4..]);
  }

  /** A command value wider than 11 bits loses its top bits in the two
      truncating shifts, and the payload's fourth nibble never enters the
      checksum: the frame is that of the value's low 11 bits,
      `value - 2048 * (value >> 11)`. */
  lemma TruncatesToCommandField(value: Word16, requestTelemetry: bool)
    ensures Frame(value, requestTelemetry) == Frame(And(value, LowMask(11, 16)), requestTelemetry)
    ensures ToNat(value) == ToNat(And(value, LowMask(11, 16))) + 2048 * ToNat(Shr(value, 11))
  {
    var low := And(value, LowMask(11, 16));
    var f, g := Frame(value, requestTelemetry), Frame(low, requestTelemetry);
    forall k | 0 <= k < 16
      ensures f[k] == g[k]
    {
      FrameAt(value, requestTelemetry, k);
      FrameAt(low, requestTelemetry, k);
    }
    assert f == g;
    MaskShiftSplit(value, 11);
    assert Pow2(11) == 2048;
  }

  /** The four checksum bits of payload `p`, written out. */
  lemma ChecksumBits(p: Word16)
    ensures Checksum(p) == [!((p[0] != p[4]) != p[8]), !((p[1] != p[5]) != p[9]),
                            !((p[2] != p[6]) != p[10]), !((p[3] != p[7]) != p[11])]
  {
    assert Checksum(p) == Not(NibbleXor(p));
  }

  /** The nibbles the vectors below need. */
  lemma NibbleValues()
    ensures ToNat([true, true, true, true]) == 15
    ensures ToNat([false, true, true, true]) == 14
    ensures ToNat([true, false, false, false]) == 1
    ensures ToNat([false, false, false, false]) == 0
  {
    assert [true, true, true, true][1..] == [true, true, true];
    assert [true, true, true][1..] == [true, true];
    assert [true, true][1..] == [true];
    assert [false, true, true, true][1..] == [true, true, true];
    assert [true, false, false, false][1..] == [false, false, false];
    assert [false, false, false, false][1..] == [false, false, false];
    assert [false, false, false][1..] == [false, false];
    assert [false, false][1..] == [false];
    assert [true][1..] == [] && [false][1..] == [];
  }

  /** The frame of command 0, which `esc_unlock` and `dshot_loop` send:
      payload 0, checksum 0xF, frame 0x000F (0x001E with the request bit). */
  lemma IdleFrame(value: Word16)
    requires ToNat(value) == 0
    ensures ToNat(Payload(value, false)) == 0
    ensures ToNat(Checksum(Payload(value, false))) == 0xF
    ensures ToNat(Frame(value, false)) == 0x000F
    ensures ToNat(Frame(value, true)) == 0x001E
  {
    NibbleValues();
    ToNatZero(value);
    var p, q := Payload(value, false), Payload(value, true);
    assert forall k :: 1 <= k < 16 ==> !p[k] && !q[k];
    ToNatZero(p);
    ChecksumBits(p);
    ChecksumBits(q);
    FrameValue(value, false);
    FrameValue(value, true);
  }

  /** 2047 is the word whose low 11 bits are set. */
  lemma FullScaleBits(value: Word16)
    requires ToNat(value) == 2047
    ensures forall k :: 0 <= k < 16 ==> value[k] == (k < 11)
  {
    assert Pow2(11) == 2048;
    LowMaskValue(11, 16);
    ToNatInjective(value, LowMask(11, 16));
  }

  /** The frame of the largest command, 2047: 0xFFE1 (0xFFF0 with the request bit). */
  lemma FullScaleFrame(value: Word16)
    requires ToNat(value) == 2047
    ensures ToNat(Frame(value, false)) == 0xFFE1
    ensures ToNat(Frame(value, true)) == 0xFFF0
  {
    NibbleValues();
    FullScaleBits(value);
    var p, q := Payload(value, false), Payload(value, true);
    ChecksumBits(p);
    assert Checksum(p) == [true, false, false, false] by {
      assert !p[0] && p[4] && p[8] && p[1] && p[5] && p[9];
      assert p[2] && p[6] && p[10] && p[3] && p[7] && p[11];
    }
    ChecksumBits(q);
    assert Checksum(q) == [false, false, false, false] by {
      assert q[0] && q[4] && q[8] && q[1] && q[5] && q[9];
      assert q[2] && q[6] && q[10] && q[3] && q[7] && q[11];
    }
    FrameValue(value, false);
    FrameValue(value, true);
  }
}
