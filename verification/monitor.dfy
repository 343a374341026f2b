/** `read_battery_data` of the monitor without its BLE calls: the request it writes and the
    text record it builds from the response it reads back. */
module Monitor {
  import opened Wrappers
  import opened Bytes
  import opened Text
  import BasicInfo

  /** JBD frame delimiters. */
  const StartByte: byte := 0xDD
  const EndByte: byte := 0x77

  /** The "read basic info" request `DD A5 03 00 FF FD 77`: start marker, read marker A5,
      register 03, an empty payload, the checksum `FF FD` and the end marker. Its length is the
      declared payload length plus the seven framing bytes, and the checksum is 0x10000 minus
      the sum of the register and length bytes. */
  function BasicInfoRequest(): (cmd: seq<byte>)
    ensures |cmd| == 7 && |cmd| == cmd[3] as int + 7
    ensures cmd[0] == StartByte && cmd[|cmd| - 1] == EndByte
    ensures cmd[2] == 0x03
    ensures U16BE(cmd[4], cmd[5]) + cmd[2] as int + cmd[3] as int == 0x1_0000
  {
    [0xDD, 0xA5, 0x03, 0x00, 0xFF, 0xFD, 0x77]
  }

  /** The record `read_battery_data` returns, without its timestamp. Voltage, current, SOC
      and cycles are the texts the source builds; the remaining capacity is kept as its exact
      count of hundredths instead of the one-decimal float text. */
  datatype Report = Report(
    voltage: string,
    current: string,
    soc: string,
    cycles: string,
    capacityCentiAh: nat
  )

  /** The text record of a decoded reading. */
  function Render(r: BasicInfo.Reading): (rep: Report)
    ensures ParseFixedTwo(rep.voltage) == Some(r.centivolts)
    ensures ParseSignedFixedTwo(rep.current) == Some(r.centiamps)
    ensures (rep.current[0] == '+') <==> r.centiamps >= 0
    ensures IsCanonical(rep.soc) && ParseDecimal(rep.soc) == r.soc
    ensures IsCanonical(rep.cycles) && ParseDecimal(rep.cycles) == r.cycles
    ensures rep.capacityCentiAh == r.centiAh
  {
    ParseFixedTwoOfFixedTwo(r.centivolts);
    ParseSignedOfSigned(r.centiamps);
    ParseDecimalOfDecimal(r.soc);
    ParseDecimalOfDecimal(r.cycles);
    Report(
      voltage := FixedTwo(r.centivolts),
      current := SignedFixedTwo(r.centiamps),
      soc := Decimal(r.soc),
      cycles := Decimal(r.cycles),
      capacityCentiAh := r.centiAh)
  }

  /** Distinct readings render to distinct records, so the record loses nothing. */
  lemma RenderInjective(r: BasicInfo.Reading, s: BasicInfo.Reading)
    ensures Render(r) == Render(s) <==> r == s
  {
  }

  /** The decode step of `read_battery_data` on the response bytes read back from the BMS:
      no record for a short response, and otherwise a record whose current text always
      starts with `+`, because the current rule never yields a negative value. */
  function ReadBatteryData(resp: seq<byte>): (rep: Option<Report>)
    ensures rep.None? <==> |resp| < BasicInfo.MinResponseLength
    ensures rep.Some? ==> |rep.value.current| > 0 && rep.value.current[0] == '+'
    ensures rep.Some? ==> IsCanonical(rep.value.soc) && IsCanonical(rep.value.cycles)
    ensures rep.Some? ==> ParseFixedTwo(rep.value.voltage) == Some(U16BE(resp[4], resp[5]))
    ensures rep.Some? ==>
              ParseSignedFixedTwo(rep.value.current) ==
                Some(BasicInfo.CurrentFromRaw(U16BE(resp[6], resp[7])))
    ensures rep.Some? ==> ParseDecimal(rep.value.soc) == resp[23]
    ensures rep.Some? ==> ParseDecimal(rep.value.cycles) == U16BE(resp[12], resp[13])
    ensures rep.Some? ==> rep.value.capacityCentiAh == U16BE(resp[8], resp[9])
  {
    match BasicInfo.Decode(resp)
    case None => None
    case Some(r) => Some(Render(r))
  }

  /** Two decodable responses give the same record exactly when they decode to the same
      reading, so every fact about `Decode` carries over to the record. */
  lemma ReadBatteryDataMatchesDecode(a: seq<byte>, b: seq<byte>)
    ensures ReadBatteryData(a) == ReadBatteryData(b) <==> BasicInfo.Decode(a) == BasicInfo.Decode(b)
  {
  }
}
