/** The TMP102 sensor reader: one combined write-then-read transaction on
    the I2C bus that selects the temperature register and reads it, and the
    decode of the returned register into millidegrees Celsius.

    The temperature register holds a 12-bit two's-complement count in the
    upper 12 bits of a 16-bit word sent most significant byte first; one
    count is 0.0625 degrees Celsius, that is 62.5 millidegrees. */
module Tmp102 {
  import opened CInt

  /** 7-bit bus address of the sensor. */
  const TMP102_ADDR: int := 0x48
  /** Register selector of the temperature register. */
  const TMP102_REG_TEMP: uint8 := 0x00

  /** One combined transaction: write `write` to the target at `addr`, then,
      after a repeated start, read `readLen` bytes from it. */
  datatype Request = Request(addr: int, write: seq<uint8>, readLen: nat)

  /** What the bus driver reports: a nonzero (negative errno) status, or the
      bytes received, in bus order. */
  datatype Reply = Failed(status: int) | Completed(data: seq<uint8>)

  /** The bus driver's promise for a request: a failure carries a nonzero
      `int` status, and a completed transfer brings exactly the requested
      number of bytes. */
  predicate Conforms(rq: Request, reply: Reply) {
    match reply
    case Failed(status) => status != 0 && IsInt32(status)
    case Completed(data) => |data| == rq.readLen
  }

  /** The one transaction the reader issues: select the temperature register
      at the sensor's address, then read its two bytes. */
  const TempRequest: Request := Request(TMP102_ADDR, [TMP102_REG_TEMP], 2)

  // ---------------------------------------------------------------------
  // The register format

  /** The value of a 12-bit two's-complement field. */
  function FromTwosComplement12(field: int): (c: int)
    requires 0 <= field < 0x1000
    ensures -0x800 <= c < 0x800
    ensures c == field || c == field - 0x1000
    ensures c < 0 <==> field >= 0x800
  {
    if field < 0x800 then field else field - 0x1000
  }

  /** The sensor's count: the upper 12 bits of the big-endian register
      `msb:lsb`, read as two's complement. It is negative exactly when bit 7
      of the most significant byte (the register's sign bit) is set. */
  function Count(msb: uint8, lsb: uint8): (c: int)
    ensures -0x800 <= c < 0x800
    ensures c < 0 <==> msb >= 0x80
    ensures c == msb * 16 + lsb / 16 || c == msb * 16 + lsb / 16 - 0x1000
  {
    FromTwosComplement12(msb * 16 + lsb / 16)
  }

  /** A count in millidegrees Celsius, 62.5 per count, rounded toward zero. */
  function MilliC(count: int): (t: int)
    ensures count >= 0 ==> 0 <= t && t * 10 <= count * 625 < t * 10 + 10
    ensures count < 0 ==> t < 0 && t * 10 - 10 < count * 625 <= t * 10
  {
    TruncDiv(count * 625, 10)
  }

  /** The temperature the register `msb:lsb` stands for, in millidegrees. */
  function Temperature(msb: uint8, lsb: uint8): (t: int)
    ensures -128000 <= t <= 127937
    ensures t < 0 <==> msb >= 0x80
  {
    MilliC(Count(msb, lsb))
  }

  /** The register contents the sensor sends for a count; the four unused
      low bits are zero. */
  function RegisterBytes(count: int): (bytes: (uint8, uint8))
    requires -0x800 <= count < 0x800
    ensures bytes.1 % 16 == 0
  {
    var field := count % 0x1000;
    (field / 16, (field % 16) * 16)
  }

  // ---------------------------------------------------------------------
  // The reader

  /** `tmp102_read_temp_mC`: reads the temperature register through `bus`
      and converts it. `prior` is the value `*temp_mC` holds on entry and
      `tempMilliC` the value it holds on return; `ret` is the return value.
      A failed transaction returns the bus status unchanged and leaves
      `*temp_mC` alone. The decode uses `shift`'s treatment of `>>` on a
      negative operand, and the result does not depend on it. */
  method ReadTempMilliC(bus: Request -> Reply, shift: ShiftKind, prior: int)
    returns (ret: int, tempMilliC: int)
    requires Conforms(TempRequest, bus(TempRequest))
    ensures bus(TempRequest).Failed? ==>
              ret == bus(TempRequest).status && ret != 0 && tempMilliC == prior
    ensures bus(TempRequest).Completed? ==>
              var data := bus(TempRequest).data;
              ret == 0 && tempMilliC == Temperature(data[0], data[1])
  {
    var reply := bus(TempRequest);
    tempMilliC := prior;
    if reply.Failed? {
      ret := reply.status;
      return;
    }
    var buf := reply.data;
    Pow2Values();
    ComposeBigEndian(buf[0], buf[1]);
    var raw := ToInt16(Or(Shl(buf[0], 8), buf[1]));
    raw := ToInt16(Shr4(shift, raw));
    ShiftedRegister(shift, buf[0], buf[1]);
    assert raw == Count(buf[0], buf[1]);
    SignExtensionKeepsCount(raw);
    if And(raw, 0x0800) != 0 {
      raw := ToInt16(Or(raw, 0xF000));
    }
    tempMilliC := TruncDiv(raw * 625, 10);
    ret := 0;
  }

  // ---------------------------------------------------------------------
  // Lemmas about the decode steps

  /** `((uint16_t)msb << 8) | lsb` is the big-endian word `msb * 256 + lsb`. */
  lemma ComposeBigEndian(msb: uint8, lsb: uint8)
    ensures Pow2(8) == 0x100
    ensures Or(Shl(msb, 8), lsb) == msb * 0x100 + lsb
  {
    Pow2Values();
    var word := msb * 0x100 + lsb;
    NatOrCommutes(msb * 0x100, lsb);
    NatOrAbove(0, lsb, msb, 8);
    assert NatOr(0, msb) == msb;
    assert Bits32(Or(Shl(msb, 8), lsb)) == word;
  }

  /** Reading the word as `int16_t` and shifting it right by 4, then storing
      the result back into the `int16_t`, gives the count, whichever way the
      compiler shifts a negative value: on a 32-bit `int` the bits a logical
      shift clears are above bit 15 and the store drops them. */
  lemma ShiftedRegister(kind: ShiftKind, msb: uint8, lsb: uint8)
    ensures Count(msb, lsb) == ToInt16(msb * 0x100 + lsb) / 16
    ensures ToInt16(Shr4(kind, ToInt16(msb * 0x100 + lsb))) == Count(msb, lsb)
  {
    var word := msb * 0x100 + lsb;
    var raw16 := ToInt16(word);
    assert raw16 == if word < 0x8000 then word else word - 0x1_0000;
    assert raw16 / 16 == Count(msb, lsb);
    if kind.Logical? && raw16 < 0 {
      var shifted := Shr4(kind, raw16);
      assert Bits32(raw16) / 16 == raw16 / 16 + 0x1000_0000;
      assert shifted == raw16 / 16 + 0x1000_0000;
      assert ToInt16(shifted) == raw16 / 16;
    }
  }

  /** After an arithmetic shift the sign-extension step of the driver,
      `if (raw & 0x0800) raw |= 0xF000;`, changes nothing: bit 11 of a count
      is set exactly when the count is negative, and then bits 12 to 15 are
      already set. */
  lemma SignExtensionKeepsCount(raw: int)
    requires -0x800 <= raw < 0x800
    ensures And(raw, 0x0800) != 0 <==> raw < 0
    ensures raw < 0 ==> ToInt16(Or(raw, 0xF000)) == raw
  {
    Pow2Values();
    var u := Bits32(raw);
    if raw < 0 {
      assert u == (Pow2(20) - 1) * Pow2(12) + 1 * Pow2(11) + (raw + 0x800);
      NatAndBit(Pow2(20) - 1, 1, raw + 0x800, 11);
      assert u == (Pow2(20) - 1) * Pow2(12) + (raw + 0x1000);
      NatOrAbove(Pow2(20) - 1, raw + 0x1000, 15, 12);
      NatOrOnes(20, 15);
      assert Bits32(Or(raw, 0xF000)) == u;
    } else {
      assert u == 0 * Pow2(12) + 0 * Pow2(11) + raw;
      NatAndBit(0, 0, raw, 11);
    }
  }

  /** The step the sign extension exists for: a 16-bit register shifted
      right without sign (a 12-bit field `field`), sign-extended by the
      driver's `if (raw & 0x0800) raw |= 0xF000;` and stored into an
      `int16_t`, is the field's two's-complement value. */
  lemma SignExtensionOfField(field: int)
    requires 0 <= field < 0x1000
    ensures (if And(field, 0x0800) != 0 then ToInt16(Or(field, 0xF000)) else field)
            == FromTwosComplement12(field)
  {
    Pow2Values();
    if field < 0x800 {
      assert field == 0 * Pow2(12) + 0 * Pow2(11) + field;
      NatAndBit(0, 0, field, 11);
    } else {
      assert field == 0 * Pow2(12) + 1 * Pow2(11) + (field - 0x800);
      NatAndBit(0, 1, field - 0x800, 11);
      assert field == 0 * Pow2(12) + field;
      NatOrAbove(0, field, 15, 12);
      assert NatOr(0, 15) == 15;
      assert Bits32(Or(field, 0xF000)) == 0xF000 + field;
    }
  }

  // ---------------------------------------------------------------------
  // Lemmas about the conversion

  /** The four low bits of the second byte are not part of the measurement:
      two registers that differ only there give the same temperature. */
  lemma LowNibbleIgnored(msb: uint8, lsb: uint8, lsb': uint8)
    requires lsb / 16 == lsb' / 16
    ensures Count(msb, lsb) == Count(msb, lsb')
    ensures Temperature(msb, lsb) == Temperature(msb, lsb')
  {
  }

  /** The decode inverts the sensor's encoding of a count. */
  lemma DecodeEncoded(count: int)
    requires -0x800 <= count < 0x800
    ensures Count(RegisterBytes(count).0, RegisterBytes(count).1) == count
  {
  }

  /** Encoding a decoded register gives the register back with its unused
      low bits cleared. */
  lemma EncodeDecoded(msb: uint8, lsb: uint8)
    ensures RegisterBytes(Count(msb, lsb)) == (msb, lsb - lsb % 16)
  {
  }

  /** The conversion is monotone in the count, and strictly so: one count
      is worth 62 or 63 millidegrees, so distinct counts never give the same
      temperature. */
  lemma MilliCMonotone(a: int, b: int)
    ensures a <= b ==> MilliC(a) <= MilliC(b)
    ensures a < b ==> MilliC(a) < MilliC(b)
  {
  }

  /** Register values and the temperatures they decode to: 25 and -25
      degrees, the largest and the smallest reading, one count below zero,
      and zero. */
  lemma ConcreteReadings()
    ensures Temperature(0x19, 0x00) == 25000
    ensures Temperature(0xE7, 0x00) == -25000
    ensures Temperature(0x7F, 0xF0) == 127937
    ensures Temperature(0x80, 0x00) == -128000
    ensures Temperature(0xFF, 0xF0) == -62
    ensures Temperature(0x00, 0x00) == 0
  {
  }
}
