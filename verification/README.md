# JBD BMS basic-info decoder

BatteryHub polls a JBD battery management system over Bluetooth Low Energy. Every poll,
`read_battery_data` in `monitor.py` does three things. It writes the "read basic info" request
`DD A5 03 00 FF FD 77` to the BMS. It reads the response bytes back. It turns them into the
text record that the dashboard shows: voltage, current, state of charge (SOC), cycle count
and remaining capacity.

This project models the request constant and the decoding step as pure Dafny functions over
byte sequences, and proves properties of them:

- `BasicInfo.Decode` is the decoder. It maps a response (`seq<byte>`) to `None` or to a
  `Reading`. A `Reading` holds exact integer fields: centivolts, centiamps, centi-amp-hours,
  cycles and SOC.
- `Text` models how Python renders these values: `str(n)`, `f"{x:.2f}"` and
  `f"{x:+.2f}"`. Each renderer has a parser that inverts it.
- `Monitor.ReadBatteryData` builds the record from the response, like the source does.
  `Monitor.BasicInfoRequest` is the request frame.

What the proofs establish:

- A response shorter than 27 bytes gives no reading. Every response of 27 bytes or more decodes.
- Voltage, capacity and cycles are the big-endian 16-bit values at bytes 4-5, 8-9 and 12-13.
- SOC is byte 23 taken as is. It ranges over 0..255 and is not clamped to 100.
- The current rule subtracts 30000 from a raw value above 30000. So the current is always in
  0..35535 and is never negative. The current text therefore always starts with `+`.
- The reading depends only on bytes 4-9, 12-13 and 23. Changing any other byte, or appending
  bytes, leaves it unchanged. Changing any one of those bytes always changes it.
- `InRange` describes exactly the set of readings a response can produce. Writing a reading
  into a response with `Embed` and decoding it gives the same reading back. Decoding and
  re-embedding gives back the response, except when the raw current is in 30001..60000.
- Each parser reads its renderer's output back as the rendered value. So the text record
  determines the reading, and two responses give the same record exactly when they decode
  alike. In the other direction, every digit string without a leading zero is `str` of its
  value, and every text the two-decimal parser accepts is the two-decimal text of its value.
  The signed text is exactly what its parser accepts, except for `-0.00`, which the renderer
  never writes.

Python computes `raw / 100` as a binary float and formats it with two decimals. That double
lies much closer than 0.005 to the exact value `raw / 100`. The output is therefore the exact
two-decimal text of the integer hundredths, which is what `Text.FixedTwo` produces.

The current rule is not a signed 16-bit reading, where a negative value would mean
discharge. The code uses the offset-30000 rule instead, so no negative current can come out.
The model follows the code.

## Model

| member | source | states |
|---|---|---|
| Bytes.U16BE | monitor.py:332 | the value read by `struct.unpack('>H', ...)` is below 65536, and its high and low bytes are the two bytes read |
| BasicInfo.Field16 | monitor.py:332-337 | the field at an offset is the 16-bit value whose high byte is at that offset and whose low byte follows it |
| BasicInfo.CurrentFromRaw | monitor.py:333-334 | the current rule yields a value in 0..35535; the value is the raw value itself exactly when raw <= 30000, and raw minus 30000 otherwise |
| BasicInfo.CurrentRoundTrip | monitor.py:334 | every current in 0..35535 is produced by the rule from some raw value |
| BasicInfo.CurrentPreimage | monitor.py:334 | the raw values that decode to current c are c (when c <= 30000) and c + 30000 (when c >= 1); no raw value gives a negative current |
| BasicInfo.Decode | monitor.py:331-347 | no reading exactly when the response is shorter than 27 bytes; otherwise a reading in range with voltage from bytes 4-5, current from the rule on bytes 6-7, capacity from 8-9, cycles from 12-13 and SOC from byte 23 verbatim |
| BasicInfo.DecodeDependsOnlyOnFieldBytes | monitor.py:331-337 | two decodable responses that agree on bytes 4-9, 12-13 and 23 decode to the same reading |
| BasicInfo.DecodeIgnoresOtherBytes | monitor.py:331-337 | overwriting any byte outside 4-9, 12-13 and 23 leaves the outcome unchanged, at any response length |
| BasicInfo.DecodeIgnoresSuffix | monitor.py:331-337 | bytes appended to a decodable response do not change its reading |
| BasicInfo.DecodeSeesFieldBytes | monitor.py:332-337 | changing any one of bytes 4-9, 12-13 or 23 changes the reading, the current included |
| BasicInfo.Embed | monitor.py:332-337 | writing a reading into a response changes only bytes 4-9, 12-13 and 23 and keeps the length |
| BasicInfo.DecodeEmbed | monitor.py:332-337 | a response built by writing an in-range reading over any base of 27 or more bytes decodes to that reading |
| BasicInfo.DecodeImage | monitor.py:332-337 | a reading is produced by some response if and only if it is in range (SOC up to 255, current 0..35535, the other fields below 65536) |
| BasicInfo.EmbedDecode | monitor.py:333-334 | re-embedding the decoded reading restores the response exactly when the raw current is not in 30001..60000 |
| Text.Decimal | monitor.py:342-343 | `str(n)` is a non-empty digit string with no leading zero; it has one digit exactly when n < 10, and it starts with 0 exactly when n = 0 |
| Text.ParseDecimalOfDecimal | monitor.py:342-343 | parsing `str(n)` gives back n |
| Text.DecimalOfParseDecimal | monitor.py:342-343 | every digit string without a leading zero is `str` of its value |
| Text.DecimalInjective | monitor.py:342-343 | `str(m) == str(n)` exactly when m = n |
| Text.FixedTwo | monitor.py:340 | the two-decimal text is the integer part without a leading zero, a point, and two digits |
| Text.ParseFixedTwoOfFixedTwo | monitor.py:340 | the two-decimal text of v hundredths is read back as v |
| Text.FixedTwoOfParseFixedTwo | monitor.py:340 | any text read back as v is exactly the two-decimal text of v |
| Text.FixedTwoInjective | monitor.py:340 | distinct counts of hundredths give distinct two-decimal texts |
| Text.SignedFixedTwo | monitor.py:341 | the signed text starts with `+` exactly when the value is not negative and with `-` exactly when it is; the two-decimal text of the magnitude follows |
| Text.ParseSignedOfSigned | monitor.py:341 | the signed two-decimal text of c is read back as c |
| Text.SignedOfParseSigned | monitor.py:341 | any signed text read back as c, other than `-0.00`, is exactly the signed two-decimal text of c |
| Monitor.BasicInfoRequest | monitor.py:325 | the request is 7 bytes, starts with 0xDD, ends with 0x77, addresses register 0x03, its length is its declared payload length plus 7, and its checksum `FF FD` is 0x10000 minus the sum of the register and length bytes |
| Monitor.Render | monitor.py:339-344 | each text of the record parses back to its field of the reading; the current text starts with `+` exactly when the current is not negative |
| Monitor.RenderInjective | monitor.py:339-344 | two readings give the same record exactly when they are equal |
| Monitor.ReadBatteryData | monitor.py:331-347 | no record exactly when the response is shorter than 27 bytes; otherwise the current text starts with `+` and reads back as the current rule applied to bytes 6-7, and the voltage, SOC, cycle and capacity entries read back as the values at bytes 4-5, 23, 12-13 and 8-9 |
| Monitor.ReadBatteryDataMatchesDecode | monitor.py:331-347 | two responses give the same record exactly when they decode to the same reading |

## Left out

- The BLE calls around the decoder (`write_gatt_char`, the 0.5 s sleep, `read_gatt_char`, `BleakClient`). They are foreign asynchronous I/O. The model takes the bytes read back as its input.
- The timestamp (`datetime.now()`). It is wall-clock I/O, so `Monitor.Report` has no timestamp field.
- Monitor.Render: the capacity entry of `Monitor.Report` is the exact count of centi-amp-hours, not the `f"{capacity:.1f}"` text, for the reason given on the next line.
- Monitor.ReadBatteryData: the capacity entry of `Monitor.Report` is the exact count of centi-amp-hours, not the `f"{capacity:.1f}"` text. That text rounds a binary float to one decimal, so its digits depend on float representation.
- `monitor_loop`, `run_ble`, the thread, and the global `latest_data` and `running` state. Their only content is concurrency and the polling cadence.
- The Flask routes, the HTML template, and the pandas CSV loading and filtering (`load_last_reading`, `api_data`). They are web and file I/O built on library behaviour that is not part of this model.
- `setup_wizard.py`. It is interactive console input, BLE scanning and JSON file rewriting.
- Features that `monitor.py` has no code for are not modelled: frame reassembly from fragmented notifications, checking the 0x77 terminator of responses, cell-voltage, temperature, protection and balancer decoding, plausibility rejection, power and time-to-target estimates, and a reconnect state machine.
