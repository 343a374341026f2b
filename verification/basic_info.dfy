/** The decoder for the JBD BMS "basic info" response: the fixed-offset field extraction
    inside `read_battery_data`, lifted out of the BLE write, settle delay and read. */
module BasicInfo {
  import opened Wrappers
  import opened Bytes

  /** A response shorter than this yields no reading. */
  const MinResponseLength: nat := 27

  /** Offsets of the high byte of each big-endian field, and of the SOC byte. */
  const VoltageAt: nat := 4
  const CurrentAt: nat := 6
  const CapacityAt: nat := 8
  const CyclesAt: nat := 12
  const SocAt: nat := 23

  /** A raw current above this value has it subtracted; at or below it, it is used as is. */
  const CurrentOffset: nat := 30000

  /** The largest current the rule can produce: `0xFFFF - 30000`. */
  const MaxCentiamps: nat := U16Limit - 1 - CurrentOffset

  /** One decoded reading, every quantity an exact integer: the source's `x / 100` floats are
      kept as counts of hundredths. The timestamp is not part of the record. */
  datatype Reading = Reading(
    centivolts: nat,   // pack voltage, 0.01 V
    centiamps: int,    // current, 0.01 A
    centiAh: nat,      // remaining capacity, 0.01 Ah
    cycles: nat,       // charge cycle count
    soc: nat           // state of charge byte, taken verbatim
  )

  /** The readings some response can decode to. */
  predicate InRange(r: Reading)
  {
    && r.centivolts < U16Limit
    && 0 <= r.centiamps <= MaxCentiamps
    && r.centiAh < U16Limit
    && r.cycles < U16Limit
    && r.soc < 256
  }

  /** The vendor's current rule applied to the raw big-endian value at bytes 6-7. */
  function CurrentFromRaw(raw: nat): (c: int)
    requires raw < U16Limit
    ensures 0 <= c <= MaxCentiamps
    ensures c == raw <==> raw <= CurrentOffset
    ensures c != raw ==> c + CurrentOffset == raw
  {
    if raw > CurrentOffset then raw - CurrentOffset else raw
  }

  /** The raw value a BMS would send for current `c`: the unshifted value when the rule
      leaves it unchanged, the shifted one only when no unshifted value can produce it. */
  function CurrentToRaw(c: int): (raw: nat)
    requires 0 <= c <= MaxCentiamps
    ensures raw < U16Limit
  {
    if c <= CurrentOffset then c else c + CurrentOffset
  }

  /** Every current in 0..35535 is produced by the rule, from the raw value `CurrentToRaw`. */
  lemma CurrentRoundTrip(c: int)
    requires 0 <= c <= MaxCentiamps
    ensures CurrentFromRaw(CurrentToRaw(c)) == c
  {
  }

  /** The raw values that decode to a given current: `c` itself when `c <= 30000`, and
      `c + 30000` when `c >= 1`. So a current in 1..30000 has two encodings, 0 and
      30001..35535 have one, and a negative (discharging) current has none. */
  lemma CurrentPreimage(raw: nat, c: int)
    requires raw < U16Limit
    ensures CurrentFromRaw(raw) == c <==>
              (raw == c && c <= CurrentOffset) || (raw == c + CurrentOffset && c >= 1)
  {
  }

  /** The unsigned big-endian 16-bit field whose high byte is at offset `at`. */
  function Field16(resp: seq<byte>, at: nat): (v: nat)
    requires at + 1 < |resp|
    ensures v < U16Limit
    ensures v / 256 == resp[at] && v % 256 == resp[at + 1]
  {
    U16BE(resp[at], resp[at + 1])
  }

  /** Decodes a basic-info response; `None` exactly when it is too short. */
  function Decode(resp: seq<byte>): (r: Option<Reading>)
    ensures r.None? <==> |resp| < MinResponseLength
    ensures r.Some? ==> InRange(r.value)
    ensures r.Some? ==> r.value.centivolts == Field16(resp, VoltageAt)
    ensures r.Some? ==> r.value.centiAh == Field16(resp, CapacityAt)
    ensures r.Some? ==> r.value.cycles == Field16(resp, CyclesAt)
    ensures r.Some? ==> r.value.soc == resp[SocAt]
    ensures r.Some? ==> r.value.centiamps == CurrentFromRaw(Field16(resp, CurrentAt))
  {
    if |resp| >= MinResponseLength then
      Some(Reading(
        centivolts := Field16(resp, VoltageAt),
        centiamps := CurrentFromRaw(Field16(resp, CurrentAt)),
        centiAh := Field16(resp, CapacityAt),
        cycles := Field16(resp, CyclesAt),
        soc := resp[SocAt]))
    else
      None
  }

  /** The indices `Decode` reads: voltage 4-5, current 6-7, capacity 8-9, cycles 12-13 and
      SOC 23. Bytes 10-11 lie between the fields but are not read. */
  predicate IsFieldByte(i: int)
  {
    (VoltageAt <= i < CapacityAt + 2) || (CyclesAt <= i < CyclesAt + 2) || i == SocAt
  }

  /** Two responses long enough to decode that agree on every field byte decode alike. */
  lemma DecodeDependsOnlyOnFieldBytes(a: seq<byte>, b: seq<byte>)
    requires |a| >= MinResponseLength && |b| >= MinResponseLength
    requires forall i :: 0 <= i < MinResponseLength && IsFieldByte(i) ==> a[i] == b[i]
    ensures Decode(a) == Decode(b)
  {
  }

  /** Overwriting a byte that is not a field byte never changes the outcome, whatever the
      length of the response. */
  lemma DecodeIgnoresOtherBytes(resp: seq<byte>, i: nat, x: byte)
    requires i < |resp| && !IsFieldByte(i)
    ensures Decode(resp[i := x]) == Decode(resp)
  {
  }

  /** Trailing bytes after a decodable response are ignored. */
  lemma DecodeIgnoresSuffix(resp: seq<byte>, tail: seq<byte>)
    requires |resp| >= MinResponseLength
    ensures Decode(resp + tail) == Decode(resp)
  {
  }

  /** Conversely every field byte matters: changing any one of them changes the reading.
      For the current this holds because a single byte moves the raw value by a multiple
      of 1 (low byte) or 256 (high byte) below 65536, never by exactly 30000. */
  lemma DecodeSeesFieldBytes(resp: seq<byte>, i: nat, x: byte)
    requires |resp| >= MinResponseLength && IsFieldByte(i) && x != resp[i]
    ensures Decode(resp[i := x]) != Decode(resp)
  {
  }

  /** Writes the fields of `r` into `base` at the offsets `Decode` reads, leaving every other
      byte as it was: the response a BMS reporting `r` could have sent. */
  function Embed(base: seq<byte>, r: Reading): (resp: seq<byte>)
    requires |base| >= MinResponseLength && InRange(r)
    ensures |resp| == |base|
    ensures forall i :: 0 <= i < |base| && !IsFieldByte(i) ==> resp[i] == base[i]
  {
    var raw := CurrentToRaw(r.centiamps);
    base[VoltageAt := HighByte(r.centivolts)][VoltageAt + 1 := LowByte(r.centivolts)]
        [CurrentAt := HighByte(raw)][CurrentAt + 1 := LowByte(raw)]
        [CapacityAt := HighByte(r.centiAh)][CapacityAt + 1 := LowByte(r.centiAh)]
        [CyclesAt := HighByte(r.cycles)][CyclesAt + 1 := LowByte(r.cycles)]
        [SocAt := r.soc]
  }

  /** Every reading in range is decoded from the response that embeds it, whatever the other
      bytes are. */
  lemma DecodeEmbed(base: seq<byte>, r: Reading)
    requires |base| >= MinResponseLength && InRange(r)
    ensures Decode(Embed(base, r)) == Some(r)
  {
  }

  /** `InRange` is exactly the set of readings `Decode` can produce. */
  lemma DecodeImage(r: Reading)
    ensures (exists resp :: Decode(resp) == Some(r)) <==> InRange(r)
  {
    if InRange(r) {
      var base := seq(MinResponseLength, _ => 0);
      DecodeEmbed(base, r);
    }
  }

  /** Re-embedding the decoded reading restores the response exactly when the raw current is
      not in 30001..60000, the raw values whose current also has an unshifted encoding. */
  lemma EmbedDecode(resp: seq<byte>)
    requires |resp| >= MinResponseLength
    ensures var raw := Field16(resp, CurrentAt);
            Embed(resp, Decode(resp).value) == resp <==>
              !(CurrentOffset < raw <= 2 * CurrentOffset)
  {
  }
}
