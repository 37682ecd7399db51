# TMP102 temperature reader, modelled in Dafny

The program polls a TMP102 temperature sensor on I2C bus 1 of a Zephyr
board. Each poll runs one combined transaction: it writes the register
selector `0x00` to address `0x48`, then reads two bytes after a repeated
start. It decodes that 16-bit temperature register, which holds a 12-bit
two's-complement count in its upper 12 bits, sent most significant byte
first. It converts the count to millidegrees Celsius at 62.5 m°C per count.
The loop then logs the reading as whole degrees and a three-digit fraction.

The model has three modules:

- `CInt` (`c_int.dfy`) holds the C integer semantics the driver depends on,
  for a 32-bit two's-complement `int`. It covers the conversion to
  `int16_t` (wrap modulo 2^16), `<<`, `>>` on a possibly negative operand,
  bitwise `|` and `&` (defined bit by bit on naturals and lifted to 32-bit
  patterns), and `/` and `%` truncating toward zero. Dafny's own `/` and
  `%` are Euclidean, so the model never uses them for C division.
- `Tmp102` (`tmp102.dfy`) holds `tmp102_read_temp_mC` as the method
  `ReadTempMilliC`. The method keeps the source's step-by-step updates of
  `raw`, its early return and its out-pointer. Beside it sit the
  specification functions (`Count`, `MilliC`, `Temperature`), the sensor's
  encoding of a count (`RegisterBytes`) as the decode's inverse, and
  lemmas about each decode step.
- `Display` (`display.dfy`) holds the whole/fraction split of the polling
  loop (`Show`), and a corrected split (`ShowSigned`) for the finding below.

How the method stands in for the C function:

- The bus is a parameter `bus: Request -> Reply`, the driver's
  `i2c_write_read` seen as an oracle. A reply is either a nonzero status or
  the bytes read, and the method's precondition says the reply to the
  temperature request keeps that promise (`Conforms`).
- The pointee `*temp_mC` is the pair `prior` (its value on entry) and
  `tempMilliC` (its value on return).
- C leaves `>>` of a negative value implementation-defined. The method takes
  the compiler's choice as a parameter `shift: ShiftKind`, and its
  postcondition does not mention `shift`. So the decode gives the same
  count whether the shift is arithmetic or logical.

## Model

| member | source | states |
|---|---|---|
| Tmp102.ReadTempMilliC | src/main.c:37-73 | Under `Conforms` for the bus's reply, the request `TempRequest` goes to address 0x48, writes the single byte 0x00 and reads 2 bytes. A failed transfer returns its nonzero status unchanged and leaves `*temp_mC` as it was. A completed one returns 0 and stores `Temperature(buf[0], buf[1])`. This holds for either shift kind. |
| Tmp102.Count | src/main.c:61-68 | The decoded count lies in -2048..2047. It is negative exactly when bit 7 of the first byte is set. It is the two's-complement value of the upper 12 bits `msb*16 + lsb/16`, so it equals that field or the field minus 4096. |
| Tmp102.FromTwosComplement12 | src/main.c:65-68 | A 12-bit field's value lies in -2048..2047. It equals the field or the field minus 4096, and it is negative exactly when bit 11 is set. |
| Tmp102.MilliC | src/main.c:70-71 | `(raw * 625) / 10` is 62.5 m°C per count rounded toward zero. For a non-negative count `t*10 <= count*625 < t*10+10`. For a negative count `t*10-10 < count*625 <= t*10`. |
| Tmp102.Temperature | src/main.c:61-71 | Every register decodes to a temperature in -128000..127937 m°C. The temperature is negative exactly when the sign bit is set. |
| Tmp102.RegisterBytes | src/main.c:63-64 | The sensor's encoding of a count (the decode's inverse) leaves the four unused low bits zero. |
| Tmp102.ComposeBigEndian | src/main.c:62 | `(uint16_t)buf[0] << 8` or-ed with `buf[1]` is the big-endian word `buf[0]*256 + buf[1]`. The shift goes through `CInt.Shl`, which is `<<` as C99 6.5.7 defines it: the operand times 2^n. |
| Tmp102.ShiftedRegister | src/main.c:62-64 | The count is the signed 16-bit word divided by 16, rounded down. `(int16_t)word >> 4`, stored back into the `int16_t`, equals the count for an arithmetic shift and for a logical shift alike. |
| Tmp102.SignExtensionKeepsCount | src/main.c:64-68 | After the shift, `raw & 0x0800` is nonzero exactly when the count is negative. For a negative count, or-ing `0xF000` into `raw` changes nothing, because bits 12-15 are already set. |
| Tmp102.SignExtensionOfField | src/main.c:65-68 | Applied to an unsigned 12-bit field, the conditional or-ing of `0xF000` and the store to `int16_t` give the field's two's-complement value. This is the case the step exists for. |
| Tmp102.LowNibbleIgnored | src/main.c:63-64 | Two registers that differ only in the low 4 bits of `buf[1]` decode to the same count and the same temperature. |
| Tmp102.DecodeEncoded | src/main.c:61-68 | Decoding the sensor's encoding of any count in -2048..2047 gives that count back. |
| Tmp102.EncodeDecoded | src/main.c:61-68 | Encoding a decoded register gives the register back, with the low 4 bits of `buf[1]` cleared. |
| Tmp102.MilliCMonotone | src/main.c:70-71 | The conversion is monotone in the count, and strictly so: `a <= b` implies `MilliC(a) <= MilliC(b)`, and `a < b` implies `MilliC(a) < MilliC(b)`. |
| Tmp102.ConcreteReadings | src/main.c:61-71 | `{0x19,0x00}` gives 25000 and `{0xE7,0x00}` gives -25000. `{0x7F,0xF0}` gives 127937 and `{0x80,0x00}` gives -128000. `{0xFF,0xF0}` gives -62 and `{0x00,0x00}` gives 0. |
| CInt.ToInt16 | src/main.c:62 | Conversion to `int16_t` lands in -32768..32767. It is congruent to its operand modulo 2^16, and it keeps values already in range. |
| CInt.Or | src/main.c:67 | The 32-bit pattern of C's bitwise or of `a` and `b` is the bitwise or of the operands' patterns. |
| CInt.And | src/main.c:66 | The 32-bit pattern of `a & b` is the bitwise and of the operands' patterns. |
| CInt.Shr4 | src/main.c:64 | `x >> 4` stays in `int`. For a non-negative operand, or for an arithmetic shift, it is `x` divided by 16 rounded down. |
| CInt.TruncDiv | src/main.c:71 | C `/` by a positive divisor truncates toward zero. `q*d <= a < q*d+d` when `a >= 0`, and `q*d-d < a <= q*d` when `a < 0`. |
| CInt.TruncMod | src/main.c:91 | C `%` gives `a - (a/d)*d`. It lies in 0..d-1 for a non-negative dividend and in -(d-1)..0 for a negative one. |
| Display.Show | src/main.c:90-91 | The fraction lies in 0..999 and `Abs(whole)*1000 + frac == Abs(t)`. A nonzero whole part has the sign of `t`. The requires excludes only the `int32_t` minimum, where `-t_mC` would overflow. |
| Display.ReadingsAreShowable | src/main.c:88-90 | Every temperature the reader produces, and its negation, fits in `int32_t`, so `Show`'s requires always holds in the loop. |
| Display.ShowExample | src/main.c:90-91 | -1500 is shown as whole -1 and fraction 500, and 25000 as 25 and 0. |
| Display.ShowDropsSign | src/main.c:90-91 | As written, any `t` with -1000 < t < 0 is shown exactly as `-t` is: whole 0 and fraction `-t`. |
| Display.ShowSigned | src/main.c:90-91 | The corrected split keeps the sign apart from the whole part. It gives `negative` exactly when `t < 0`, and sign times `(whole*1000 + frac)` equals `t`. |
| Display.ShowSignedFaithful | src/main.c:90-91 | The corrected split is injective. It agrees with the loop's split whenever `t <= -1000` or `t >= 0`. |

## Left out

- `app_i2c_init` (src/main.c:13-35) is not modelled. It only looks up the device, calls `device_is_ready` and calls `i2c_configure`, all in the Zephyr driver, and it has no logic of its own.
- The electrical I2C sequence inside `i2c_write_read` (START, address, register byte, repeated START, two data bytes, STOP) is not modelled. The bus is an oracle, and `Tmp102.Conforms` says what it may answer: a nonzero `int` status, or exactly the requested number of bytes.
- The polling loop, `k_sleep`, and the `LOG_INF`/`LOG_ERR` output (src/main.c:84-96) are timing and I/O, so they are left out. Only the numbers handed to the log line (src/main.c:90-91) are modelled, by `Show`.
- Concurrency is not modelled, because the source has none. Each call to `ReadTempMilliC` depends only on the bus reply and on `*temp_mC`'s prior value, so one read leaves nothing behind for the next.
- CInt.Shr4: the contract states only the value of the arithmetic form and the non-negative case. The value of a logical shift of a negative operand is used through `Tmp102.ShiftedRegister`.

## Findings

| source | as written | input that shows it | evidently intended | confidence | as-written member | corrected member |
|---|---|---|---|---|---|---|
| src/main.c:90-91 | The sign is carried only by `t_mC / 1000`. For -1000 < t_mC < 0 that whole part is 0, so the line shows no minus sign. | t_mC = -500 (register `{0xFF,0x80}`, -0.5 °C) is logged as `0.500 C`, the same as +500. | `-0.500 C`: the sign kept apart from the whole part, so that no two readings print alike. | not executed; high | Display.ShowDropsSign | Display.ShowSigned |

The polling loop's model, `Show`, follows the code as written. `ShowSigned`
is the corrected split, and `ShowSignedFaithful` proves it loses nothing.
