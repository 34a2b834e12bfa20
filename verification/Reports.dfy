/** LLRP messages and RO_ACCESS_REPORT contents: app/llrp.py down to tag events. */
module Reports {
  import opened Wrappers
  import opened Bytes
  import opened Sequences
  import opened Epc
  import opened Parameters
  import opened Rfid

  const RO_ACCESS_REPORT: nat := 61
  const PARAM_TAG_REPORT_DATA: nat := 240
  const PARAM_EPC_DATA: nat := 241

  // ----- message headers (LLRP 1.0.1, section 16.1) -----

  function MessageType(frame: seq<byte>): Option<nat> {
    if |frame| < 10 then None else Some(U16(frame[..2]) % 1024)
  }

  function MessageId(frame: seq<byte>): Option<nat> {
    if |frame| < 10 then None else Some(U32(frame[6..10]))
  }

  /** The packing fails outside these ranges, so they are the caller's duty. */
  function BuildMessage(messageType: nat, messageId: nat, payload: seq<byte>): (frame: seq<byte>)
    requires messageId < 0x1_0000_0000 && 10 + |payload| < 0x1_0000_0000
    ensures |frame| == 10 + |payload|
  {
    Pack16(1024 + messageType % 1024) + Pack32(10 + |payload|) + Pack32(messageId) + payload
  }

  /** A built message declares its own length and gives back type, id and payload. */
  lemma MessageRoundTrip(messageType: nat, messageId: nat, payload: seq<byte>)
    requires messageType < 1024
    requires messageId < 0x1_0000_0000 && 10 + |payload| < 0x1_0000_0000
    ensures var frame := BuildMessage(messageType, messageId, payload);
            && MessageType(frame) == Some(messageType)
            && MessageId(frame) == Some(messageId)
            && U32(frame[2..6]) == |frame|
            && frame[10..] == payload
  {
    var frame := BuildMessage(messageType, messageId, payload);
    FourParts(Pack16(1024 + messageType), Pack32(10 + |payload|), Pack32(messageId), payload, 2, 6, 10);
  }

  lemma TenBits(n: nat)
    ensures (1024 + n % 1024) / 256 == 4 + n / 256 % 4 && (1024 + n % 1024) % 256 == n % 256
  {
    var q, r := n / 1024, n % 1024;
    assert n == 1024 * q + r && n / 256 == 4 * q + r / 256;
  }

  lemma HighBytes(high: nat, low: nat)
    requires low < 0x1_0000
    ensures (0x1_0000 * high + low) / 0x100_0000 == high / 256
    ensures (0x1_0000 * high + low) / 256 % 256 == low / 256
    ensures (0x1_0000 * high + low) % 256 == low % 256
  {
    assert high == 256 * (high / 256) + high % 256 && low == 256 * (low / 256) + low % 256;
    assert (0x1_0000 * high + low) / 256 == 256 * high + low / 256;
  }

  lemma PackedBytes(n: nat)
    requires n < 0x1_0000_0000
    ensures Pack32(n) == [n / 0x100_0000, n / 0x1_0000 % 256, n / 256 % 256, n % 256]
  {
    var high, low := n / 0x1_0000, n % 0x1_0000;
    HighBytes(high, low);
    assert n == 0x1_0000 * high + low;
  }

  /** The header, byte by byte: version 1 and the low ten bits of the type, length, message id. */
  lemma MessageBytes(messageType: nat, messageId: nat, payload: seq<byte>)
    requires messageId < 0x1_0000_0000 && 10 + |payload| < 0x1_0000_0000
    ensures var length := 10 + |payload|;
            BuildMessage(messageType, messageId, payload) ==
            [4 + messageType / 256 % 4, messageType % 256,
             length / 0x100_0000, length / 0x1_0000 % 256, length / 256 % 256, length % 256,
             messageId / 0x100_0000, messageId / 0x1_0000 % 256, messageId / 256 % 256, messageId % 256] + payload
  {
    PackedBytes(10 + |payload|);
    PackedBytes(messageId);
    TenBits(messageType);
  }

  /** The type and length that a header declares, byte by byte. */
  lemma HeaderBytes(frame: seq<byte>)
    requires |frame| >= 10
    ensures MessageType(frame) == Some((frame[0] as int) % 4 * 256 + frame[1] as int)
    ensures MessageId(frame) ==
            Some(0x100_0000 * (frame[6] as int) + 0x1_0000 * (frame[7] as int) + 0x100 * (frame[8] as int)
                 + frame[9] as int)
    ensures U32(frame[2..6]) ==
            0x100_0000 * (frame[2] as int) + 0x1_0000 * (frame[3] as int) + 0x100 * (frame[4] as int) + frame[5] as int
  {
    BigEndian(frame[..2]);
    BigEndian(frame[2..6]);
    BigEndian(frame[6..10]);
  }

  // ----- fields of a tag report -----

  function EpcField(p: Parameter): Option<string> {
    if p.encoding == Tlv && p.kind == PARAM_EPC_DATA && |p.value| >= 2 then
      var byteLength := (U16(p.value[..2]) + 7) / 8;
      if |p.value| >= 2 + byteLength then Some(HexOf(p.value[2..2 + byteLength])) else None
    else if p.encoding == Tv && p.kind == 13 && |p.value| == 12 then Some(HexOf(p.value))
    else None
  }

  function AntennaField(p: Parameter): Option<int> {
    if p.encoding == Tv && p.kind == 1 && |p.value| == 2 then Some(U16(p.value)) else None
  }

  function TimestampField(p: Parameter): Option<int> {
    if p.encoding == Tv && (p.kind == 2 || p.kind == 4) && |p.value| == 8 then Some(U64(p.value)) else None
  }

  /** The microseconds that, divided by a million as a float, give the year 10000 or later. */
  const TIMESTAMP_LIMIT: nat := 253_402_300_799_999_985

  datatype ReportError = TimestampOutOfRange

  /** The conversion to a datetime raises for this parameter. */
  predicate BadTimestamp(p: Parameter) {
    TimestampField(p).Some? && TimestampField(p).value >= TIMESTAMP_LIMIT
  }

  predicate HasBadTimestamp(ps: seq<Parameter>) {
    Any(ps, BadTimestamp)
  }

  function RssiField(p: Parameter): Option<real> {
    if p.encoding == Tv && p.kind == 6 && |p.value| == 1 then Some(Signed(p.value[0]) as real) else None
  }

  /** The field of the last parameter that has it. */
  function LastField<T>(ps: seq<Parameter>, field: Parameter -> Option<T>): Option<T> {
    if ps == [] then None
    else if field(Last(ps)).Some? then field(Last(ps))
    else LastField(Front(ps), field)
  }

  function LowerHex(data: seq<byte>): string {
    var text := HexOf(data);
    seq(|text|, i requires 0 <= i < |text| => if 'A' <= text[i] <= 'F' then text[i] - 'A' + 'a' else text[i])
  }

  function LlrpDetails(rssi: Option<real>, readerTimestamp: Option<int>, data: seq<byte>): Details {
    Details(rssi, None, None, None, None, None, None, None, None, None, None, readerTimestamp, LowerHex(data), None)
  }

  /** The local variables of `parse_tag_report`. */
  datatype Fields = Fields(
    epcHex: Option<string>, antenna: Option<int>, rssi: Option<real>, readerTimestamp: Option<int>)

  function FieldsOf(ps: seq<Parameter>): Fields {
    Fields(LastField(ps, EpcField), LastField(ps, AntennaField), LastField(ps, RssiField),
           LastField(ps, TimestampField))
  }

  function EventFrom(fields: Fields, readerId: int, readerIp: Address, data: seq<byte>): Option<TagEvent> {
    match fields.epcHex
    case None => None
    case Some(epc) =>
      Some(TagEvent(readerId, epc, fields.antenna, readerIp, LlrpDetails(fields.rssi, fields.readerTimestamp, data)))
  }

  /** Each field of a report is that of the last valid parameter of its kind; no EPC, no event. */
  function ReportEvent(data: seq<byte>, readerId: int, readerIp: Address): Option<TagEvent> {
    EventFrom(FieldsOf(ParametersOf(data)), readerId, readerIp, data)
  }

  function Or<T>(field: Option<T>, otherwise: Option<T>): Option<T> {
    if field.Some? then field else otherwise
  }

  lemma FieldsStep(ps: seq<Parameter>, i: nat)
    requires i < |ps|
    ensures var p, before := ps[i], FieldsOf(ps[..i]);
            FieldsOf(ps[..i + 1]) ==
            Fields(Or(EpcField(p), before.epcHex), Or(AntennaField(p), before.antenna),
                   Or(RssiField(p), before.rssi), Or(TimestampField(p), before.readerTimestamp))
  {
    assert Front(ps[..i + 1]) == ps[..i];
  }

  /** One turn of the loop: a valid parameter replaces the field of its kind. */
  method ReadField(p: Parameter, before: Fields) returns (r: Result<Fields, ReportError>)
    ensures r == if BadTimestamp(p) then Err(TimestampOutOfRange)
                 else Ok(Fields(Or(EpcField(p), before.epcHex), Or(AntennaField(p), before.antenna),
                                Or(RssiField(p), before.rssi), Or(TimestampField(p), before.readerTimestamp)))
  {
    var fields := before;
    if p.encoding == Tlv && p.kind == PARAM_EPC_DATA && |p.value| >= 2 {
      var byteLength := (U16(p.value[..2]) + 7) / 8;
      if |p.value| >= 2 + byteLength {
        fields := fields.(epcHex := Some(HexOf(p.value[2..2 + byteLength])));
      }
    } else if p.encoding == Tv && p.kind == 13 && |p.value| == 12 {
      fields := fields.(epcHex := Some(HexOf(p.value)));
    } else if p.encoding == Tv && p.kind == 1 && |p.value| == 2 {
      fields := fields.(antenna := Some(U16(p.value)));
    } else if p.encoding == Tv && (p.kind == 2 || p.kind == 4) && |p.value| == 8 {
      var microseconds := U64(p.value);
      if microseconds >= TIMESTAMP_LIMIT {
        return Err(TimestampOutOfRange);
      }
      fields := fields.(readerTimestamp := Some(microseconds));
    } else if p.encoding == Tv && p.kind == 6 && |p.value| == 1 {
      fields := fields.(rssi := Some(Signed(p.value[0]) as real));
    }
    return Ok(fields);
  }

  /** The loop of `parse_tag_report`. */
  method ReadFields(parameters: seq<Parameter>) returns (r: Result<Fields, ReportError>)
    ensures r == if HasBadTimestamp(parameters) then Err(TimestampOutOfRange) else Ok(FieldsOf(parameters))
  {
    var fields := Fields(None, None, None, None);
    for i := 0 to |parameters|
      invariant fields == FieldsOf(parameters[..i])
      invariant !HasBadTimestamp(parameters[..i])
    {
      var next := ReadField(parameters[i], fields);
      FieldsStep(parameters, i);
      AnyTake(parameters, i, BadTimestamp);
      if next.Err? {
        assert BadTimestamp(parameters[i]);
        return Err(next.error);
      }
      fields := next.value;
    }
    assert parameters[..|parameters|] == parameters;
    return Ok(fields);
  }

  /** Raises for any timestamp out of range, even in a report without an EPC. */
  method ParseTagReport(data: seq<byte>, readerId: int, readerIp: Address)
    returns (r: Result<Option<TagEvent>, ReportError>)
    ensures r == if HasBadTimestamp(ParametersOf(data)) then Err(TimestampOutOfRange)
                 else Ok(ReportEvent(data, readerId, readerIp))
  {
    var parameters := ParseParameters(data);
    var read := ReadFields(parameters);
    if read.Err? {
      return Err(read.error);
    }
    var fields := read.value;
    if fields.epcHex.None? {
      return Ok(None);
    }
    return Ok(Some(TagEvent(readerId, fields.epcHex.value, fields.antenna, readerIp,
                            LlrpDetails(fields.rssi, fields.readerTimestamp, data))));
  }

  // ----- the fields, byte by byte -----

  /** The text, two digits a byte, of what the parameter holds. */
  ghost predicate WritesBytes(text: string, data: seq<byte>, digits: string)
    requires |digits| == 16
  {
    && |text| == 2 * |data|
    && forall i :: 0 <= i < |data| ==> text[2 * i] == digits[data[i] / 16] && text[2 * i + 1] == digits[data[i] % 16]
  }

  lemma HexWrites(data: seq<byte>)
    ensures WritesBytes(HexOf(data), data, "0123456789ABCDEF")
  {
    forall i | 0 <= i < |data|
      ensures HexOf(data)[2 * i] == "0123456789ABCDEF"[data[i] / 16]
      ensures HexOf(data)[2 * i + 1] == "0123456789ABCDEF"[data[i] % 16]
    {
      HexOfAt(data, i);
    }
  }

  lemma LowerDigit(n: nat, c: char)
    requires n < 16 && c == "0123456789ABCDEF"[n]
    ensures (if 'A' <= c <= 'F' then c - 'A' + 'a' else c) == "0123456789abcdef"[n]
  {
  }

  /** The raw payload is the report in lower-case hexadecimal. */
  lemma LowerHexWrites(data: seq<byte>)
    ensures WritesBytes(LowerHex(data), data, "0123456789abcdef")
  {
    HexWrites(data);
    forall i | 0 <= i < |data|
      ensures LowerHex(data)[2 * i] == "0123456789abcdef"[data[i] / 16]
      ensures LowerHex(data)[2 * i + 1] == "0123456789abcdef"[data[i] % 16]
    {
      LowerDigit(data[i] / 16, HexOf(data)[2 * i]);
      LowerDigit(data[i] % 16, HexOf(data)[2 * i + 1]);
    }
  }

  /** EPCData: so many bytes as its bit count calls for, if there are that many. */
  lemma EpcDataExactly(value: seq<byte>, bytes: nat)
    requires |value| >= 2 && bytes == (0x100 * (value[0] as int) + value[1] as int + 7) / 8
    ensures var epc := EpcField(Parameter(Tlv, 241, value));
            if bytes <= |value| - 2
            then epc.Some? && WritesBytes(epc.value, value[2..2 + bytes], "0123456789ABCDEF")
            else epc.None?
  {
    BigEndian(value[..2]);
    if bytes <= |value| - 2 {
      HexWrites(value[2..2 + bytes]);
    }
  }

  /** EPC-96: all of its twelve bytes. */
  lemma Epc96Exactly(value: seq<byte>)
    requires |value| == 12
    ensures var epc := EpcField(Parameter(Tv, 13, value));
            epc.Some? && WritesBytes(epc.value, value, "0123456789ABCDEF")
  {
    HexWrites(value);
  }

  /** No other parameter holds an EPC. */
  lemma NoEpcElsewhere(p: Parameter)
    ensures EpcField(p).Some? ==>
              || (p.encoding == Tlv && p.kind == 241 && |p.value| >= 2)
              || (p.encoding == Tv && p.kind == 13 && |p.value| == 12)
  {
  }

  /** The other fields: antenna of kind 1, RSSI of kind 6, times of kinds 2 and 4. */
  lemma OtherFieldsExactly(p: Parameter)
    ensures AntennaField(p) == if p.encoding == Tv && p.kind == 1 && |p.value| == 2
                               then Some(0x100 * (p.value[0] as int) + p.value[1] as int) else None
    ensures p.encoding == Tv && p.kind == 6 && |p.value| == 1 <==> RssiField(p).Some?
    ensures RssiField(p).Some? ==>
              RssiField(p).value == (if p.value[0] < 128 then p.value[0] as int else p.value[0] as int - 256) as real
    ensures p.encoding == Tv && (p.kind == 2 || p.kind == 4) && |p.value| == 8 <==> TimestampField(p).Some?
    ensures TimestampField(p).Some? ==> TimestampField(p).value == U64(p.value)
    ensures BadTimestamp(p) <==> TimestampField(p).Some? && TimestampField(p).value >= 253_402_300_799_999_985
  {
    if |p.value| == 2 {
      BigEndian(p.value);
    }
  }

  // ----- reports of a frame -----

  predicate IsTagReport(p: Parameter) {
    p.encoding == Tlv && p.kind == PARAM_TAG_REPORT_DATA
  }

  function EventOf(p: Parameter, readerId: int, readerIp: Address): seq<TagEvent> {
    if !IsTagReport(p) then []
    else
      match ReportEvent(p.value, readerId, readerIp)
      case None => []
      case Some(event) => [event]
  }

  /** The events of the tag reports in a list of parameters, in order. */
  function EventsOf(ps: seq<Parameter>, readerId: int, readerIp: Address): seq<TagEvent> {
    if ps == [] then []
    else EventsOf(Front(ps), readerId, readerIp) + EventOf(Last(ps), readerId, readerIp)
  }

  predicate FailingReport(p: Parameter) {
    IsTagReport(p) && HasBadTimestamp(ParametersOf(p.value))
  }

  predicate HasFailingReport(ps: seq<Parameter>) {
    Any(ps, FailingReport)
  }

  /** A report message that declares its own length. */
  predicate IsReportFrame(frame: seq<byte>) {
    |frame| >= 10 && U32(frame[2..6]) == |frame| && MessageType(frame) == Some(RO_ACCESS_REPORT)
  }

  /** Parsing the frame raises, and then gives none of its events. */
  predicate FrameFails(frame: seq<byte>) {
    IsReportFrame(frame) && HasFailingReport(ParametersOf(frame[10..]))
  }

  function FrameEvents(frame: seq<byte>, readerId: int, readerIp: Address): seq<TagEvent> {
    if IsReportFrame(frame) then EventsOf(ParametersOf(frame[10..]), readerId, readerIp) else []
  }

  /** The event of a report, value by value: those of its fields, the report itself, and nothing else. */
  lemma EventExactly(data: seq<byte>, readerId: int, readerIp: Address)
    ensures var ps := ParametersOf(data);
            ReportEvent(data, readerId, readerIp) ==
            match LastField(ps, EpcField)
            case None => None
            case Some(epc) =>
              Some(TagEvent(readerId, epc, LastField(ps, AntennaField), readerIp,
                            Details(LastField(ps, RssiField), None, None, None, None, None, None, None, None, None,
                                    None, LastField(ps, TimestampField), LowerHex(data), None)))
  {
  }

  lemma {:induction false} LastFieldHolds<T>(ps: seq<Parameter>, field: Parameter -> Option<T>) returns (i: nat)
    requires LastField(ps, field).Some?
    ensures i < |ps| && field(ps[i]) == LastField(ps, field)
    ensures forall j :: i < j < |ps| ==> field(ps[j]).None?
  {
    if field(Last(ps)).Some? {
      i := |ps| - 1;
    } else {
      i := LastFieldHolds(Front(ps), field);
    }
  }

  lemma {:induction false} NoLastField<T>(ps: seq<Parameter>, field: Parameter -> Option<T>)
    requires LastField(ps, field).None?
    ensures forall i :: 0 <= i < |ps| ==> field(ps[i]).None?
  {
    if ps != [] {
      NoLastField(Front(ps), field);
    }
  }

  /** The last parameter of a kind counts. */
  lemma LastFieldExactly<T>(ps: seq<Parameter>, field: Parameter -> Option<T>)
    ensures LastField(ps, field).None? <==> forall i :: 0 <= i < |ps| ==> field(ps[i]).None?
    ensures LastField(ps, field).Some? ==>
              exists i :: 0 <= i < |ps| && field(ps[i]) == LastField(ps, field)
                          && forall j :: i < j < |ps| ==> field(ps[j]).None?
  {
    if LastField(ps, field).Some? {
      var i := LastFieldHolds(ps, field);
    } else {
      NoLastField(ps, field);
    }
  }

  /** Only TLV parameters of kind 240 are tag reports, and they are read as such. */
  lemma TagReportsExactly(p: Parameter, readerId: int, readerIp: Address)
    ensures p.encoding != Tlv || p.kind != 240 ==> EventOf(p, readerId, readerIp) == [] && !FailingReport(p)
    ensures p.encoding == Tlv && p.kind == 240 ==>
              && EventOf(p, readerId, readerIp) ==
                 (match ReportEvent(p.value, readerId, readerIp) case None => [] case Some(event) => [event])
              && (FailingReport(p) <==>
                    exists i :: 0 <= i < |ParametersOf(p.value)| && BadTimestamp(ParametersOf(p.value)[i]))
  {
  }

  /** Which frames are reports: the right declared length, and type 61. */
  lemma ReportFrameExactly(frame: seq<byte>)
    ensures IsReportFrame(frame) <==>
            && |frame| >= 10
            && 0x100_0000 * (frame[2] as int) + 0x1_0000 * (frame[3] as int) + 0x100 * (frame[4] as int)
               + frame[5] as int == |frame|
            && (frame[0] as int) % 4 * 256 + frame[1] as int == 61
  {
    if |frame| >= 10 {
      HeaderBytes(frame);
    }
  }

  function FrameResult(frame: seq<byte>, readerId: int, readerIp: Address): Result<seq<TagEvent>, ReportError> {
    if FrameFails(frame) then Err(TimestampOutOfRange) else Ok(FrameEvents(frame, readerId, readerIp))
  }

  lemma EventsStep(ps: seq<Parameter>, i: nat, readerId: int, readerIp: Address)
    requires i < |ps|
    ensures EventsOf(ps[..i + 1], readerId, readerIp) ==
            EventsOf(ps[..i], readerId, readerIp) + EventOf(ps[i], readerId, readerIp)
  {
    assert Front(ps[..i + 1]) == ps[..i];
  }

  method ParseRoAccessReport(frame: seq<byte>, readerId: int, readerIp: Address)
    returns (r: Result<seq<TagEvent>, ReportError>)
    ensures r == FrameResult(frame, readerId, readerIp)
  {
    if |frame| < 10 || U32(frame[2..6]) != |frame| {
      return Ok([]);
    }
    if MessageType(frame) != Some(RO_ACCESS_REPORT) {
      return Ok([]);
    }
    var events: seq<TagEvent> := [];
    var parameters := ParseParameters(frame[10..]);
    for i := 0 to |parameters|
      invariant events == EventsOf(parameters[..i], readerId, readerIp)
      invariant !HasFailingReport(parameters[..i])
    {
      var p := parameters[i];
      EventsStep(parameters, i, readerId, readerIp);
      AnyTake(parameters, i, FailingReport);
      if p.encoding != Tlv || p.kind != PARAM_TAG_REPORT_DATA {
        continue;
      }
      var event := ParseTagReport(p.value, readerId, readerIp);
      if event.Err? {
        assert FailingReport(parameters[i]);
        return Err(event.error);
      }
      if event.value.Some? {
        events := events + [event.value.value];
      }
    }
    assert parameters[..|parameters|] == parameters;
    return Ok(events);
  }

  // ----- nested round trip -----

  /** What a sender puts into a report message: tag reports, and parameters that are none. */
  datatype Item = Report(params: seq<Wire>) | Other(wire: Wire)

  predicate ItemFits(item: Item) {
    match item
    case Report(params) => AllWellFormed(params) && |EncodeAll(params)| + 4 < 0x1_0000
    case Other(wire) => WellFormed(wire) && !IsTagReport(wire.param)
  }

  function ItemWire(item: Item): (x: Wire)
    requires ItemFits(item)
    ensures WellFormed(x)
  {
    match item
    case Report(params) => Wire(0, Parameter(Tlv, PARAM_TAG_REPORT_DATA, EncodeAll(params)))
    case Other(wire) => wire
  }

  function ItemWires(items: seq<Item>): (xs: seq<Wire>)
    requires forall i :: 0 <= i < |items| ==> ItemFits(items[i])
    ensures AllWellFormed(xs) && |xs| == |items|
  {
    seq(|items|, i requires 0 <= i < |items| => ItemWire(items[i]))
  }

  /** The event a sender means by an item, read off the item itself. */
  function ItemEvent(item: Item, readerId: int, readerIp: Address): seq<TagEvent>
    requires ItemFits(item)
  {
    match item
    case Other(_) => []
    case Report(params) =>
      var ps := Params(params);
      match LastField(ps, EpcField)
      case None => []
      case Some(epc) =>
        [TagEvent(readerId, epc, LastField(ps, AntennaField), readerIp,
                  LlrpDetails(LastField(ps, RssiField), LastField(ps, TimestampField), EncodeAll(params)))]
  }

  function ItemEvents(items: seq<Item>, readerId: int, readerIp: Address): seq<TagEvent>
    requires forall i :: 0 <= i < |items| ==> ItemFits(items[i])
  {
    if items == [] then []
    else ItemEvents(Front(items), readerId, readerIp) + ItemEvent(Last(items), readerId, readerIp)
  }

  lemma ItemIsRead(item: Item, readerId: int, readerIp: Address)
    requires ItemFits(item)
    ensures EventOf(ItemWire(item).param, readerId, readerIp) == ItemEvent(item, readerId, readerIp)
  {
    if item.Report? {
      ParameterRoundTrip(item.params);
    }
  }

  lemma {:induction false} ItemsAreRead(items: seq<Item>, readerId: int, readerIp: Address)
    requires forall i :: 0 <= i < |items| ==> ItemFits(items[i])
    ensures EventsOf(Params(ItemWires(items)), readerId, readerIp) == ItemEvents(items, readerId, readerIp)
  {
    if items != [] {
      ItemsAreRead(Front(items), readerId, readerIp);
      ItemIsRead(Last(items), readerId, readerIp);
      assert Front(Params(ItemWires(items))) == Params(ItemWires(Front(items)));
      assert Last(Params(ItemWires(items))) == ItemWire(Last(items)).param;
    }
  }

  /** The item is a tag report with a timestamp that cannot be converted. */
  predicate FailingItem(item: Item) {
    item.Report? && HasBadTimestamp(Params(item.params))
  }

  lemma ItemsFail(items: seq<Item>)
    requires forall i :: 0 <= i < |items| ==> ItemFits(items[i])
    ensures HasFailingReport(Params(ItemWires(items))) <==> exists i :: 0 <= i < |items| && FailingItem(items[i])
  {
    var ps := Params(ItemWires(items));
    forall i | 0 <= i < |items|
      ensures FailingReport(ps[i]) <==> FailingItem(items[i])
    {
      if items[i].Report? {
        ParameterRoundTrip(items[i].params);
      }
    }
  }

  /**
   * Nested round trip: a report message built from any list of items yields one event per tag
   * report with a valid EPC, in order, each field taken from the last valid parameter of its kind;
   * and raises exactly when one of the tag reports has a timestamp out of range.
   */
  lemma ReportRoundTrip(items: seq<Item>, messageId: nat, readerId: int, readerIp: Address)
    requires forall i :: 0 <= i < |items| ==> ItemFits(items[i])
    requires messageId < 0x1_0000_0000 && 10 + |EncodeAll(ItemWires(items))| < 0x1_0000_0000
    ensures FrameResult(BuildMessage(RO_ACCESS_REPORT, messageId, EncodeAll(ItemWires(items))), readerId, readerIp)
         == if exists i :: 0 <= i < |items| && FailingItem(items[i]) then Err(TimestampOutOfRange)
            else Ok(ItemEvents(items, readerId, readerIp))
    ensures FrameEvents(BuildMessage(RO_ACCESS_REPORT, messageId, EncodeAll(ItemWires(items))), readerId, readerIp)
         == ItemEvents(items, readerId, readerIp)
  {
    var payload := EncodeAll(ItemWires(items));
    MessageRoundTrip(RO_ACCESS_REPORT, messageId, payload);
    ParameterRoundTrip(ItemWires(items));
    ItemsAreRead(items, readerId, readerIp);
    ItemsFail(items);
  }

  // ----- readings of a sender -----

  /**
   * What a reader means to say of a tag: EPC, antenna, RSSI in dBm and time in microseconds; with
   * the EPC in compact form or not, and the time that of the first or the last sighting.
   */
  datatype Reading = Reading(
    epc: string, compact: bool, antenna: Option<nat>, rssi: Option<int>, time: Option<nat>, last: bool)

  /** The values fit the parameters: 65535 bits of EPC or 96, a 16-bit antenna, a signed byte, 64 bits. */
  predicate Sendable(r: Reading) {
    && Canonical(r.epc) && |r.epc| <= 16_382 && (r.compact ==> |r.epc| == 24)
    && (r.antenna.Some? ==> r.antenna.value < 0x1_0000)
    && (r.rssi.Some? ==> -128 <= r.rssi.value < 128)
    && (r.time.Some? ==> r.time.value < 0x1_0000_0000_0000_0000)
  }

  /** EPCData with the number of bits and the bytes; or EPC-96 with the twelve bytes. */
  function EpcWire(epc: string, compact: bool): Wire
    requires Canonical(epc) && |epc| <= 16_382
  {
    if compact then Wire(0, Parameter(Tv, 13, BytesOf(epc)))
    else Wire(0, Parameter(Tlv, 241, Pack16(4 * |epc|) + BytesOf(epc)))
  }

  function AntennaWire(antenna: nat): Wire
    requires antenna < 0x1_0000
  {
    Wire(0, Parameter(Tv, 1, Pack16(antenna)))
  }

  function RssiWire(rssi: int): Wire
    requires -128 <= rssi < 128
  {
    Wire(0, Parameter(Tv, 6, [if rssi < 0 then rssi + 256 else rssi]))
  }

  /** FirstSeenTimestampUTC, or LastSeenTimestampUTC. */
  function TimeWire(time: nat, last: bool): Wire
    requires time < 0x1_0000_0000_0000_0000
  {
    Wire(0, Parameter(Tv, if last then 4 else 2, Pack64(time)))
  }

  function WithAntenna(xs: seq<Wire>, antenna: Option<nat>): seq<Wire>
    requires antenna.Some? ==> antenna.value < 0x1_0000
  {
    if antenna.Some? then xs + [AntennaWire(antenna.value)] else xs
  }

  function WithRssi(xs: seq<Wire>, rssi: Option<int>): seq<Wire>
    requires rssi.Some? ==> -128 <= rssi.value < 128
  {
    if rssi.Some? then xs + [RssiWire(rssi.value)] else xs
  }

  function WithTime(xs: seq<Wire>, time: Option<nat>, last: bool): seq<Wire>
    requires time.Some? ==> time.value < 0x1_0000_0000_0000_0000
  {
    if time.Some? then xs + [TimeWire(time.value, last)] else xs
  }

  /** The parameters that a reader sends for a reading. */
  function ReadingWires(r: Reading): seq<Wire>
    requires Sendable(r)
  {
    WithTime(WithRssi(WithAntenna([EpcWire(r.epc, r.compact)], r.antenna), r.rssi), r.time, r.last)
  }

  /** The same values as an event holds them. */
  function ReadingFields(r: Reading): Fields {
    Fields(Some(r.epc),
           if r.antenna.Some? then Some(r.antenna.value) else None,
           if r.rssi.Some? then Some(r.rssi.value as real) else None,
           if r.time.Some? then Some(r.time.value) else None)
  }

  predicate TooLate(r: Reading) {
    r.time.Some? && r.time.value >= TIMESTAMP_LIMIT
  }

  lemma EpcFieldOfBytes(value: seq<byte>, bits: nat, data: seq<byte>)
    requires bits < 0x1_0000 && (bits + 7) / 8 == |data| && |value| == 2 + |data|
    requires value[..2] == Pack16(bits) && value[2..2 + |data|] == data
    ensures EpcField(Parameter(Tlv, PARAM_EPC_DATA, value)) == Some(HexOf(data))
  {
  }

  lemma EpcFieldOf(epc: string, p: Parameter)
    requires Canonical(epc) && |epc| <= 16_382 && p == EpcWire(epc, false).param
    ensures EpcField(p) == Some(epc)
  {
    var m := |epc| / 2;
    assert (4 * |epc| + 7) / 8 == (8 * m + 7) / 8 == m;
    SliceOfAppend(Pack16(4 * |epc|), BytesOf(epc), 2, m);
    EpcFieldOfBytes(p.value, 4 * |epc|, BytesOf(epc));
    HexOfBytes(epc);
  }

  /** The parameters are well formed, hold these fields, and a bad timestamp just if `bad`. */
  ghost predicate Carries(xs: seq<Wire>, fields: Fields, bad: bool) {
    AllWellFormed(xs) && FieldsOf(Params(xs)) == fields && (HasBadTimestamp(Params(xs)) <==> bad)
  }

  lemma CarriesEpc(epc: string, compact: bool)
    requires Canonical(epc) && |epc| <= 16_382 && (compact ==> |epc| == 24)
    ensures Carries([EpcWire(epc, compact)], Fields(Some(epc), None, None, None), false)
  {
    var ps, p := Params([EpcWire(epc, compact)]), EpcWire(epc, compact).param;
    if compact {
      HexOfBytes(epc);
    } else {
      EpcFieldOf(epc, p);
    }
    FrontOfSnoc([], p);
    assert ps == [p] == [] + [p];
    assert !BadTimestamp(p) && AntennaField(p).None? && RssiField(p).None? && TimestampField(p).None?;
    assert FieldsOf([]) == Fields(None, None, None, None);
  }

  lemma AddWire(xs: seq<Wire>, x: Wire, before: Fields, bad: bool) returns (after: Fields)
    requires Carries(xs, before, bad) && WellFormed(x)
    ensures var p := x.param;
            after == Fields(Or(EpcField(p), before.epcHex), Or(AntennaField(p), before.antenna),
                            Or(RssiField(p), before.rssi), Or(TimestampField(p), before.readerTimestamp))
    ensures Carries(xs + [x], after, bad || BadTimestamp(x.param))
  {
    var ps, p := Params(xs), x.param;
    FrontOfSnoc(ps, p);
    assert Params(xs + [x]) == ps + [p];
    assert (ps + [p])[..|ps|] == ps && (ps + [p])[..|ps| + 1] == ps + [p];
    AnyTake(ps + [p], |ps|, BadTimestamp);
    after := FieldsOf(ps + [p]);
  }

  lemma AddAntenna(xs: seq<Wire>, before: Fields, bad: bool, antenna: Option<nat>)
    requires Carries(xs, before, bad) && (antenna.Some? ==> antenna.value < 0x1_0000)
    ensures Carries(WithAntenna(xs, antenna),
                    before.(antenna := if antenna.Some? then Some(antenna.value) else before.antenna), bad)
  {
    if antenna.Some? {
      var _ := AddWire(xs, AntennaWire(antenna.value), before, bad);
    }
  }

  lemma AddRssi(xs: seq<Wire>, before: Fields, bad: bool, rssi: Option<int>)
    requires Carries(xs, before, bad) && (rssi.Some? ==> -128 <= rssi.value < 128)
    ensures Carries(WithRssi(xs, rssi),
                    before.(rssi := if rssi.Some? then Some(rssi.value as real) else before.rssi), bad)
  {
    if rssi.Some? {
      var _ := AddWire(xs, RssiWire(rssi.value), before, bad);
    }
  }

  lemma AddTime(xs: seq<Wire>, before: Fields, time: Option<nat>, last: bool)
    requires Carries(xs, before, false) && (time.Some? ==> time.value < 0x1_0000_0000_0000_0000)
    ensures Carries(WithTime(xs, time, last),
                    before.(readerTimestamp := if time.Some? then Some(time.value) else before.readerTimestamp),
                    time.Some? && time.value >= TIMESTAMP_LIMIT)
  {
    if time.Some? {
      var _ := AddWire(xs, TimeWire(time.value, last), before, false);
    }
  }

  /** The fields of a reading are read back from its parameters. */
  lemma ReadingIsRead(r: Reading)
    requires Sendable(r)
    ensures Carries(ReadingWires(r), ReadingFields(r), TooLate(r))
  {
    var xs, fields := [EpcWire(r.epc, r.compact)], Fields(Some(r.epc), None, None, None);
    CarriesEpc(r.epc, r.compact);
    AddAntenna(xs, fields, false, r.antenna);
    xs, fields := WithAntenna(xs, r.antenna), fields.(antenna := ReadingFields(r).antenna);
    AddRssi(xs, fields, false, r.rssi);
    xs, fields := WithRssi(xs, r.rssi), fields.(rssi := ReadingFields(r).rssi);
    AddTime(xs, fields, r.time, r.last);
  }

  /** One tag report per reading. */
  function ReadingItems(rs: seq<Reading>): (items: seq<Item>)
    requires forall i :: 0 <= i < |rs| ==> Sendable(rs[i])
    ensures |items| == |rs| && forall i :: 0 <= i < |rs| ==> items[i] == Report(ReadingWires(rs[i]))
  {
    seq(|rs|, i requires 0 <= i < |rs| => Report(ReadingWires(rs[i])))
  }

  /** The event that a reading should become. */
  function ReadingEvent(r: Reading, readerId: int, readerIp: Address): TagEvent
    requires Sendable(r) && AllWellFormed(ReadingWires(r))
  {
    var fields := ReadingFields(r);
    TagEvent(readerId, r.epc, fields.antenna, readerIp,
             Details(fields.rssi, None, None, None, None, None, None, None, None, None, None, fields.readerTimestamp,
                     LowerHex(EncodeAll(ReadingWires(r))), None))
  }

  /** Readings that fit a message: each fits its report. */
  predicate AllSendable(rs: seq<Reading>) {
    forall i :: 0 <= i < |rs| ==> Sendable(rs[i]) && ItemFits(Report(ReadingWires(rs[i])))
  }

  function ReadingEvents(rs: seq<Reading>, readerId: int, readerIp: Address): seq<TagEvent>
    requires AllSendable(rs)
  {
    if rs == [] then []
    else ReadingEvents(Front(rs), readerId, readerIp) + [ReadingEvent(Last(rs), readerId, readerIp)]
  }

  lemma ReadingMeans(r: Reading, readerId: int, readerIp: Address)
    requires Sendable(r) && ItemFits(Report(ReadingWires(r)))
    ensures ItemEvent(Report(ReadingWires(r)), readerId, readerIp) == [ReadingEvent(r, readerId, readerIp)]
  {
    ReadingIsRead(r);
  }

  lemma ReadingItemsFront(rs: seq<Reading>)
    requires rs != [] && AllSendable(rs)
    ensures Front(ReadingItems(rs)) == ReadingItems(Front(rs))
    ensures Last(ReadingItems(rs)) == Report(ReadingWires(Last(rs)))
  {
  }

  lemma {:induction false} ReadingsMean(rs: seq<Reading>, readerId: int, readerIp: Address)
    requires AllSendable(rs)
    ensures ItemEvents(ReadingItems(rs), readerId, readerIp) == ReadingEvents(rs, readerId, readerIp)
  {
    if rs != [] {
      assert Last(rs) == rs[|rs| - 1];
      ReadingsMean(Front(rs), readerId, readerIp);
      ReadingMeans(Last(rs), readerId, readerIp);
      ReadingItemsFront(rs);
    }
  }

  lemma {:induction false} ReadingEventAt(rs: seq<Reading>, readerId: int, readerIp: Address, i: nat)
    requires AllSendable(rs) && i < |rs|
    ensures |ReadingEvents(rs, readerId, readerIp)| == |rs|
    ensures ReadingEvents(rs, readerId, readerIp)[i].epcHex == rs[i].epc
  {
    assert AllSendable(Front(rs)) && ReadingEvent(Last(rs), readerId, readerIp).epcHex == rs[|rs| - 1].epc;
    if i < |rs| - 1 {
      ReadingEventAt(Front(rs), readerId, readerIp, i);
    } else if i > 0 {
      ReadingEventAt(Front(rs), readerId, readerIp, i - 1);
    }
  }

  lemma ReadingsFail(rs: seq<Reading>)
    requires AllSendable(rs)
    ensures (exists i :: 0 <= i < |rs| && FailingItem(ReadingItems(rs)[i])) <==> Any(rs, TooLate)
  {
    forall i | 0 <= i < |rs|
      ensures FailingItem(ReadingItems(rs)[i]) <==> TooLate(rs[i])
    {
      ReadingIsRead(rs[i]);
    }
  }

  /**
   * Field-level round trip: the report message of any readings yields for each, in order, the
   * event with its EPC, antenna, RSSI and time; unless one of the times is too late for a
   * datetime, when it yields none at all.
   */
  lemma ReadingsRoundTrip(rs: seq<Reading>, messageId: nat, readerId: int, readerIp: Address)
    requires AllSendable(rs)
    requires messageId < 0x1_0000_0000 && 10 + |EncodeAll(ItemWires(ReadingItems(rs)))| < 0x1_0000_0000
    ensures FrameResult(BuildMessage(RO_ACCESS_REPORT, messageId, EncodeAll(ItemWires(ReadingItems(rs)))),
                        readerId, readerIp)
         == if Any(rs, TooLate) then Err(TimestampOutOfRange) else Ok(ReadingEvents(rs, readerId, readerIp))
    ensures FrameEvents(BuildMessage(RO_ACCESS_REPORT, messageId, EncodeAll(ItemWires(ReadingItems(rs)))),
                        readerId, readerIp) == ReadingEvents(rs, readerId, readerIp)
  {
    ReportRoundTrip(ReadingItems(rs), messageId, readerId, readerIp);
    ReadingsMean(rs, readerId, readerIp);
    ReadingsFail(rs);
  }

  // ----- key coherence -----

  /** An event as LLRP readers report it: coherent, and without most of the details of JSON events. */
  predicate Reported(event: TagEvent) {
    var d := event.details;
    && KeyCoherent(event)
    && d.channel.None? && d.direction.None? && d.zone.None? && d.location.None? && d.gpsTimestamp.None?
  }

  lemma EpcFieldText(p: Parameter)
    requires EpcField(p).Some?
    ensures IsHex(EpcField(p).value) && |EpcField(p).value| % 2 == 0
  {
  }

  lemma HexIsCoherent(epc: string)
    requires IsHex(epc) && |epc| % 2 == 0
    ensures Canonical(epc) || epc == ""
    ensures NormalizeEpc(epc) == if epc == "" then Err(EmptyEpc) else Ok(epc)
  {
    if epc == "" {
      NoEpcInNothing();
    } else {
      CanonicalIsFixed(epc);
    }
  }

  /**
   * The EPC text of any report is left alone by normalising, or is empty, which normalising
   * refuses: the latter is what an EPC parameter of no bits gives.
   */
  lemma ReportsAreCoherent(data: seq<byte>, event: TagEvent)
    requires ReportEvent(data, event.readerId, event.readerIp) == Some(event)
    ensures KeyCoherent(event)
    ensures NormalizeEpc(event.epcHex) == if event.epcHex == "" then Err(EmptyEpc) else Ok(event.epcHex)
  {
    var ps := ParametersOf(data);
    var i := LastFieldHolds(ps, EpcField);
    EpcFieldText(ps[i]);
    HexIsCoherent(event.epcHex);
  }

  lemma {:induction false} EventsAreCoherent(ps: seq<Parameter>, readerId: int, readerIp: Address)
    ensures forall i :: 0 <= i < |EventsOf(ps, readerId, readerIp)| ==>
              Reported(EventsOf(ps, readerId, readerIp)[i])
  {
    if ps != [] {
      EventsAreCoherent(Front(ps), readerId, readerIp);
      if IsTagReport(Last(ps)) {
        var event := ReportEvent(Last(ps).value, readerId, readerIp);
        if event.Some? {
          ReportsAreCoherent(Last(ps).value, event.value);
        }
      }
    }
  }

  /**
   * Whatever bytes arrive, the events of a frame are stored under the key they are aggregated by,
   * and hold no text, channel or GPS time.
   */
  lemma FramesAreCoherent(frame: seq<byte>, readerId: int, readerIp: Address)
    ensures forall i :: 0 <= i < |FrameEvents(frame, readerId, readerIp)| ==>
              Reported(FrameEvents(frame, readerId, readerIp)[i])
  {
    if |frame| >= 10 {
      EventsAreCoherent(ParametersOf(frame[10..]), readerId, readerIp);
    }
  }
}
