/**
 * SSCC-96: the binary layout of section 14.5.2 of GS1 EPC Tag Data Standard 1.13 and the
 * decimal SSCC that app/epc.py reads out of it.
 */
module Sscc {
  import opened Wrappers
  import opened Bytes
  import opened Epc
  import opened Arithmetic
  import D = Decimal

  // ----- bit fields of a 96-bit number, lowest bit first: 24 low, 58 payload, 3 partition, 3 filter, 8 header -----

  function LowBits(n: nat): (r: nat)
    ensures r < 0x100_0000
  {
    n % 0x100_0000
  }

  function PayloadBits(n: nat): (r: nat)
    ensures r < 0x400_0000_0000_0000
  {
    n / 0x100_0000 % 0x400_0000_0000_0000
  }

  function PartitionBits(n: nat): (r: nat)
    ensures r < 8
  {
    n / 0x4_0000_0000_0000_0000_0000 % 8
  }

  function FilterBits(n: nat): (r: nat)
    ensures r < 8
  {
    n / 0x20_0000_0000_0000_0000_0000 % 8
  }

  function HeaderBits(n: nat): nat {
    n / 0x100_0000_0000_0000_0000_0000
  }

  /** The number with header 0x31 and the given fields. */
  function Assemble(filter: nat, partition: nat, payload: nat, low: nat): nat {
    0x3100_0000_0000_0000_0000_0000
      + filter * 0x20_0000_0000_0000_0000_0000
      + partition * 0x4_0000_0000_0000_0000_0000
      + payload * 0x100_0000
      + low
  }

  lemma AssembledFields(filter: nat, partition: nat, payload: nat, low: nat)
    requires filter < 8 && partition < 8 && payload < 0x400_0000_0000_0000 && low < 0x100_0000
    ensures var n := Assemble(filter, partition, payload, low);
            && HeaderBits(n) == 0x31 && FilterBits(n) == filter && PartitionBits(n) == partition
            && PayloadBits(n) == payload && LowBits(n) == low
            && n < 0x1_0000_0000_0000_0000_0000_0000
  {
    var n := Assemble(filter, partition, payload, low);
    var top := 0x31 * 64 + filter * 8 + partition;
    assert n == (top * 0x400_0000_0000_0000 + payload) * 0x100_0000 + low;
    assert n / 0x100_0000 == top * 0x400_0000_0000_0000 + payload;
  }

  lemma FieldsAssembled(n: nat)
    requires HeaderBits(n) == 0x31
    ensures n == Assemble(FilterBits(n), PartitionBits(n), PayloadBits(n), LowBits(n))
  {
    var a := n / 0x100_0000;
    var b := a / 0x400_0000_0000_0000;
    assert n / 0x4_0000_0000_0000_0000_0000 == b;
    assert n / 0x20_0000_0000_0000_0000_0000 == b / 8;
    assert n / 0x100_0000_0000_0000_0000_0000 == b / 64;
  }

  /** How a partition divides the payload between company prefix and serial reference. */
  datatype Layout = Layout(companyBits: nat, companyDigits: nat, serialBits: nat, serialDigits: nat)

  function LayoutOf(partition: nat): Option<Layout> {
    match partition
    case 0 => Some(Layout(40, 12, 18, 5))
    case 1 => Some(Layout(37, 11, 21, 6))
    case 2 => Some(Layout(34, 10, 24, 7))
    case 3 => Some(Layout(30, 9, 28, 8))
    case 4 => Some(Layout(27, 8, 31, 9))
    case 5 => Some(Layout(24, 7, 34, 10))
    case 6 => Some(Layout(20, 6, 38, 11))
    case _ => None
  }

  function Pow2(k: nat): (p: nat)
    ensures p > 0
  {
    if k == 0 then 1 else 2 * Pow2(k - 1)
  }

  /** The two numbers an SSCC-96 carries, with the partition that says how to write them. */
  datatype Fields = Fields(partition: nat, company: nat, serial: nat)

  function SplitPayload(partition: nat, payload: nat, unit: nat): Fields
    requires unit > 0
  {
    Fields(partition, payload / unit, payload % unit)
  }

  /** The fields of a normalised EPC; None when it is not an SSCC-96. */
  function FieldsOf(epc: string): Option<Fields>
    requires Canonical(epc)
  {
    if |epc| != 24 || !("31" <= epc) then None
    else
      var n := HexValue(epc);
      match LayoutOf(PartitionBits(n))
      case None => None
      case Some(layout) => Some(SplitPayload(PartitionBits(n), PayloadBits(n), Pow2(layout.serialBits)))
  }

  /** The digits before the check digit: extension digit, company prefix, rest of the serial. */
  function Body(f: Fields): (s: string)
    requires LayoutOf(f.partition).Some?
    ensures D.AllDigits(s)
  {
    var layout := LayoutOf(f.partition).value;
    var serial := D.Pad(f.serial, layout.serialDigits);
    [serial[0]] + D.Pad(f.company, layout.companyDigits) + serial[1..]
  }

  /** The full SSCC of the fields. */
  function Full(f: Fields): string
    requires LayoutOf(f.partition).Some?
  {
    Body(f) + [D.Digit(D.CheckDigit(Body(f)))]
  }

  /** The serial reference without its first digit, which is the extension digit. */
  function ShortSerial(f: Fields): string
    requires LayoutOf(f.partition).Some?
  {
    D.Pad(f.serial, LayoutOf(f.partition).value.serialDigits)[1..]
  }

  /** The partition table of `sscc96_without_check_digit`, which the source writes out again. */
  function SerialLayoutOf(partition: nat): Option<Layout> {
    match partition
    case 0 => Some(Layout(40, 12, 18, 5))
    case 1 => Some(Layout(37, 11, 21, 6))
    case 2 => Some(Layout(34, 10, 24, 7))
    case 3 => Some(Layout(30, 9, 28, 8))
    case 4 => Some(Layout(27, 8, 31, 9))
    case 5 => Some(Layout(24, 7, 34, 10))
    case 6 => Some(Layout(20, 6, 38, 11))
    case _ => None
  }

  function Sscc96WithoutCheckDigit(value: string): Result<Option<string>, EpcError> {
    match NormalizeEpc(value)
    case Err(e) => Err(e)
    case Ok(epc) =>
      if |epc| != 24 || !("31" <= epc) then Ok(None)
      else
        var n := HexValue(epc);
        match SerialLayoutOf(PartitionBits(n))
        case None => Ok(None)
        case Some(layout) => Ok(Some(D.Pad(PayloadBits(n) % Pow2(layout.serialBits), layout.serialDigits)[1..]))
  }

  function Sscc96WithCheckDigit(value: string): Result<Option<string>, EpcError> {
    match NormalizeEpc(value)
    case Err(e) => Err(e)
    case Ok(epc) =>
      NormalizeIsIdempotent(value);
      match FieldsOf(epc)
      case None => Ok(None)
      case Some(f) => Ok(Some(Full(f)))
  }

  // ----- the encoder, as a specification -----

  /** Both numbers fit into the digits the standard gives them. */
  predicate InBudget(f: Fields) {
    && LayoutOf(f.partition).Some?
    && f.company < D.Pow10(LayoutOf(f.partition).value.companyDigits)
    && f.serial < D.Pow10(LayoutOf(f.partition).value.serialDigits)
  }

  /** Both numbers fit into the bits the standard gives them. */
  predicate InBits(f: Fields) {
    && LayoutOf(f.partition).Some?
    && f.company < Pow2(LayoutOf(f.partition).value.companyBits)
    && f.serial < Pow2(LayoutOf(f.partition).value.serialBits)
  }

  /** The payload bits: company prefix, then serial reference. */
  function Payload(f: Fields): nat
    requires LayoutOf(f.partition).Some?
  {
    f.company * Pow2(LayoutOf(f.partition).value.serialBits) + f.serial
  }

  /** The 24 hexadecimal digits of a tag with the given fields. */
  function Pack(filter: nat, f: Fields, low: nat): string
    requires LayoutOf(f.partition).Some?
  {
    ToHex(Assemble(filter, f.partition, Payload(f), low), 24)
  }

  // ----- facts about the layouts -----

  lemma LayoutValues(partition: nat)
    requires LayoutOf(partition).Some?
    ensures var l := LayoutOf(partition).value;
            && partition < 7
            && l.companyDigits >= 1 && l.serialDigits >= 2
            && l.companyDigits + l.serialDigits == 17
            && Pow2(l.companyBits) * Pow2(l.serialBits) == 0x400_0000_0000_0000
            && D.Pow10(l.companyDigits) <= Pow2(l.companyBits)
            && D.Pow10(l.serialDigits) < Pow2(l.serialBits)
  {
    assert Pow2(10) == 1024 && D.Pow10(5) == 100000;
    assert Pow2(18) == 262144 && Pow2(20) == 1048576 && Pow2(21) == 2097152 && Pow2(24) == 16777216;
    assert Pow2(27) == 134217728 && Pow2(28) == 268435456 && Pow2(30) == 1073741824;
    assert Pow2(31) == 2147483648 && Pow2(34) == 17179869184;
    assert Pow2(37) == 137438953472 && Pow2(38) == 274877906944 && Pow2(40) == 1099511627776;
    assert D.Pow10(6) == 1000000 && D.Pow10(7) == 10000000 && D.Pow10(8) == 100000000;
    assert D.Pow10(9) == 1000000000 && D.Pow10(10) == 10000000000;
    assert D.Pow10(11) == 100000000000 && D.Pow10(12) == 1000000000000;
  }

  lemma PayloadBound(f: Fields)
    requires InBits(f)
    ensures Payload(f) < 0x400_0000_0000_0000
  {
    LayoutValues(f.partition);
    var l := LayoutOf(f.partition).value;
    MulBounds(f.company, Pow2(l.companyBits), Pow2(l.serialBits));
  }

  lemma TwoDigits(h: string)
    requires IsHex(h) && |h| == 2
    ensures HexValue(h) == 0x31 <==> h == "31"
  {
    assert h[..1] == [h[0]] && h[..1][..0] == "";
    assert HexValue(h[..1]) == HexDigitValue(h[0]);
    assert HexValue(h) == 16 * HexDigitValue(h[0]) + HexDigitValue(h[1]);
    if HexValue(h) == 0x31 {
      assert h == [HexDigit(3), HexDigit(1)];
    }
  }

  lemma ByteAbove(top: nat, p: nat, low: nat)
    requires p == 0x100_0000_0000_0000_0000_0000 && low < p
    ensures HeaderBits(top * p + low) == top
  {
    assert top * p == top * 0x100_0000_0000_0000_0000_0000;
  }

  lemma TopByte(epc: string)
    requires IsHex(epc) && |epc| == 24
    ensures HeaderBits(HexValue(epc)) == HexValue(epc[..2])
  {
    var head, tail := epc[..2], epc[2..];
    assert epc == head + tail;
    HexConcat(head, tail);
    HexTextRoundTrip(tail);
    Pow16Values();
    ByteAbove(HexValue(head), Pow16(22), HexValue(tail));
  }

  lemma HeaderText(epc: string)
    requires Canonical(epc) && |epc| == 24
    ensures "31" <= epc <==> HeaderBits(HexValue(epc)) == 0x31
  {
    TopByte(epc);
    TwoDigits(epc[..2]);
  }

  // ----- main results -----

  lemma PayloadSplits(f: Fields)
    requires InBits(f)
    ensures SplitPayload(f.partition, Payload(f), Pow2(LayoutOf(f.partition).value.serialBits)) == f
  {
    DivMod(f.company, f.serial, Pow2(LayoutOf(f.partition).value.serialBits));
  }

  lemma TwentyFourDigits(n: nat, text: string)
    requires n < 0x1_0000_0000_0000_0000_0000_0000 && text == ToHex(n, 24)
    ensures Canonical(text) && HexValue(text) == n
  {
    Pow16Values();
    HexRoundTrip(n, 24);
    assert |text| == 24 && IsHex(text);
  }

  lemma PackText(filter: nat, f: Fields, low: nat) returns (n: nat)
    requires filter < 8 && low < 0x100_0000 && InBits(f)
    ensures n == Assemble(filter, f.partition, Payload(f), low)
    ensures Canonical(Pack(filter, f, low)) && HexValue(Pack(filter, f, low)) == n
    ensures HeaderBits(n) == 0x31 && PartitionBits(n) == f.partition && PayloadBits(n) == Payload(f)
  {
    PayloadBound(f);
    AssembledFields(filter, f.partition, Payload(f), low);
    n := Assemble(filter, f.partition, Payload(f), low);
    TwentyFourDigits(n, Pack(filter, f, low));
  }

  /** Packing is inverted by field extraction, whatever the filter and the low 24 bits. */
  lemma PackedFields(filter: nat, f: Fields, low: nat)
    requires filter < 8 && low < 0x100_0000 && InBits(f)
    ensures Canonical(Pack(filter, f, low))
    ensures FieldsOf(Pack(filter, f, low)) == Some(f)
  {
    var n := PackText(filter, f, low);
    HeaderText(Pack(filter, f, low));
    PayloadSplits(f);
  }

  lemma PayloadInBits(partition: nat, payload: nat)
    requires LayoutOf(partition).Some? && payload < 0x400_0000_0000_0000
    ensures var f := SplitPayload(partition, payload, Pow2(LayoutOf(partition).value.serialBits));
            InBits(f) && Payload(f) == payload
  {
    LayoutValues(partition);
    var c, u := Pow2(LayoutOf(partition).value.companyBits), Pow2(LayoutOf(partition).value.serialBits);
    QuotientBound(payload, c, u);
  }

  /** Every EPC read as an SSCC-96 is the packing of its fields: there are no others. */
  lemma EverySsccIsPacked(epc: string)
    requires Canonical(epc) && FieldsOf(epc).Some?
    ensures InBits(FieldsOf(epc).value)
    ensures epc == Pack(FilterBits(HexValue(epc)), FieldsOf(epc).value, LowBits(HexValue(epc)))
  {
    var n, f := HexValue(epc), FieldsOf(epc).value;
    HeaderText(epc);
    HexTextRoundTrip(epc);
    FieldsAssembled(n);
    PayloadInBits(f.partition, PayloadBits(n));
  }

  /**
   * The full SSCC is the extension digit, the padded company prefix, the short serial and a
   * correct check digit; the serial reference is read back from the first and the third.
   */
  lemma SsccShape(f: Fields)
    requires LayoutOf(f.partition).Some?
    ensures var full, company := Full(f), D.Pad(f.company, LayoutOf(f.partition).value.companyDigits);
            && D.Checked(full)
            && |full| == 1 + |company| + |ShortSerial(f)| + 1
            && full[1..1 + |company|] == company
            && full[1 + |company|..|full| - 1] == ShortSerial(f)
            && D.Value([full[0]] + ShortSerial(f)) == f.serial
  {
    var l := LayoutOf(f.partition).value;
    var serial := D.Pad(f.serial, l.serialDigits);
    D.CheckDigitIsUnique(Body(f), D.CheckDigit(Body(f)));
    D.PadValue(f.serial, l.serialDigits);
    assert [serial[0]] + serial[1..] == serial;
  }

  lemma TablesAgree(partition: nat)
    ensures LayoutOf(partition) == SerialLayoutOf(partition)
  {
  }

  /** Both functions read the same partition table and the same serial reference. */
  lemma SerialsAgree(epc: string)
    requires Canonical(epc)
    ensures Sscc96WithoutCheckDigit(epc) ==
            match FieldsOf(epc) { case None => Ok(None) case Some(f) => Ok(Some(ShortSerial(f))) }
  {
    CanonicalIsFixed(epc);
    TablesAgree(PartitionBits(HexValue(epc)));
  }

  /** The cut of a full SSCC before its serial: an extension digit and a padded company prefix. */
  ghost predicate CutAt(full: string, short: string, epc: string)
    requires Canonical(epc)
  {
    && FieldsOf(epc).Some?
    && var f := FieldsOf(epc).value;
       var company := D.Pad(f.company, LayoutOf(f.partition).value.companyDigits);
       && |full| == 1 + |company| + |short| + 1
       && full[1..1 + |company|] == company
       && full[1 + |company|..|full| - 1] == short
       && D.Checked(full)
       && D.Value([full[0]] + short) == f.serial
  }

  lemma ShapeIsCut(epc: string)
    requires Canonical(epc) && FieldsOf(epc).Some?
    ensures CutAt(Full(FieldsOf(epc).value), ShortSerial(FieldsOf(epc).value), epc)
  {
    SsccShape(FieldsOf(epc).value);
  }

  /**
   * The two SSCC functions on one value, each with its own table and extraction: they raise the
   * same error, both give None, or give a full SSCC and exactly its slice between the company
   * prefix and the check digit.
   */
  lemma SsccFunctionsAgree(value: string)
    ensures NormalizeEpc(value).Err? ==>
              Sscc96WithCheckDigit(value) == Sscc96WithoutCheckDigit(value) == Err(NormalizeEpc(value).error)
    ensures Sscc96WithCheckDigit(value) == Ok(None) <==> Sscc96WithoutCheckDigit(value) == Ok(None)
    ensures forall full :: Sscc96WithCheckDigit(value) == Ok(Some(full)) ==>
              && NormalizeEpc(value).Ok? && Canonical(NormalizeEpc(value).value)
              && Sscc96WithoutCheckDigit(value).Ok? && Sscc96WithoutCheckDigit(value).value.Some?
              && CutAt(full, Sscc96WithoutCheckDigit(value).value.value, NormalizeEpc(value).value)
  {
    if NormalizeEpc(value).Ok? {
      var epc := NormalizeEpc(value).value;
      NormalizeIsIdempotent(value);
      SerialsAgree(epc);
      if FieldsOf(epc).Some? {
        ShapeIsCut(epc);
      }
    }
  }

  /** A full SSCC has the 18 digits of the standard exactly when both fields are in budget. */
  lemma EighteenDigits(f: Fields)
    requires LayoutOf(f.partition).Some?
    ensures |Full(f)| >= 18
    ensures |Full(f)| == 18 <==> InBudget(f)
  {
    var l := LayoutOf(f.partition).value;
    LayoutValues(f.partition);
    D.PadLength(f.company, l.companyDigits);
    D.PadLength(f.serial, l.serialDigits);
  }

  /** Every SSCC that is ever returned is that of fields within their bits. */
  lemma ReturnedIsFull(value: string) returns (f: Fields)
    ensures Sscc96WithCheckDigit(value).Ok? && Sscc96WithCheckDigit(value).value.Some? ==>
              InBits(f) && Sscc96WithCheckDigit(value) == Ok(Some(Full(f)))
  {
    if Sscc96WithCheckDigit(value).Ok? && Sscc96WithCheckDigit(value).value.Some? {
      NormalizeIsIdempotent(value);
      f := FieldsOf(NormalizeEpc(value).value).value;
      EverySsccIsPacked(NormalizeEpc(value).value);
    } else {
      f := Fields(0, 0, 0);
    }
  }

  /** The fields written in an 18-digit SSCC of a given partition. */
  function ReadFields(partition: nat, sscc: string): Fields
    requires LayoutOf(partition).Some?
    requires |sscc| == 18 && D.AllDigits(sscc)
  {
    var k := LayoutOf(partition).value.companyDigits;
    LayoutValues(partition);
    Fields(partition, D.Value(sscc[1..1 + k]), D.Value([sscc[0]] + sscc[1 + k..17]))
  }

  /** Both numbers are read back from the SSCC of in-budget fields. */
  lemma FullIsRead(f: Fields)
    requires InBudget(f)
    ensures |Full(f)| == 18 && D.Checked(Full(f))
    ensures ReadFields(f.partition, Full(f)) == f
  {
    SsccShape(f);
    EighteenDigits(f);
    LayoutValues(f.partition);
    var l := LayoutOf(f.partition).value;
    D.PadLength(f.company, l.companyDigits);
    D.PadValue(f.company, l.companyDigits);
  }

  /** Decoding a packed tag gives the SSCC of its fields, whatever the filter and low bits. */
  lemma DecodedPack(filter: nat, f: Fields, low: nat)
    requires filter < 8 && low < 0x100_0000 && InBits(f)
    ensures Sscc96WithCheckDigit(Pack(filter, f, low)) == Ok(Some(Full(f)))
    ensures Sscc96WithoutCheckDigit(Pack(filter, f, low)) == Ok(Some(ShortSerial(f)))
  {
    PackedFields(filter, f, low);
    CanonicalIsFixed(Pack(filter, f, low));
    SerialsAgree(Pack(filter, f, low));
  }

  /**
   * Fields within their bits need not be in budget: in every partition the tag with the largest
   * serial reference is accepted, and shows an SSCC of more than 18 digits.
   */
  lemma OverlongSscc(partition: nat, filter: nat, low: nat) returns (f: Fields)
    requires partition < 7 && filter < 8 && low < 0x100_0000
    ensures f.partition == partition && InBits(f) && !InBudget(f)
    ensures Sscc96WithCheckDigit(Pack(filter, f, low)) == Ok(Some(Full(f)))
    ensures |Full(f)| > 18
  {
    LayoutValues(partition);
    f := Fields(partition, 0, Pow2(LayoutOf(partition).value.serialBits) - 1);
    DecodedPack(filter, f, low);
    EighteenDigits(f);
  }

  lemma BudgetFitsBits(f: Fields)
    requires InBudget(f)
    ensures InBits(f)
  {
    LayoutValues(f.partition);
  }

  /** Pack a company prefix and serial reference into 96 bits, decode, and both are read back. */
  lemma SsccRoundTrip(filter: nat, f: Fields, low: nat) returns (sscc: string)
    requires filter < 8 && low < 0x100_0000 && InBudget(f)
    ensures Sscc96WithCheckDigit(Pack(filter, f, low)) == Ok(Some(sscc))
    ensures |sscc| == 18 && D.Checked(sscc) && ReadFields(f.partition, sscc) == f
  {
    BudgetFitsBits(f);
    DecodedPack(filter, f, low);
    FullIsRead(f);
    sscc := Full(f);
  }

  /**
   * Within one partition a tag shows the same SSCC as one whose fields are in budget exactly when
   * it carries the same company prefix and serial reference: filter value and low bits never matter.
   */
  lemma SsccIsInjective(filter1: nat, f1: Fields, low1: nat, filter2: nat, f2: Fields, low2: nat)
    requires filter1 < 8 && low1 < 0x100_0000 && InBudget(f1)
    requires filter2 < 8 && low2 < 0x100_0000 && InBits(f2)
    requires f1.partition == f2.partition
    ensures Sscc96WithCheckDigit(Pack(filter1, f1, low1)) == Sscc96WithCheckDigit(Pack(filter2, f2, low2)) <==> f1 == f2
  {
    BudgetFitsBits(f1);
    DecodedPack(filter1, f1, low1);
    DecodedPack(filter2, f2, low2);
    FullIsRead(f1);
    EighteenDigits(f1);
    EighteenDigits(f2);
    if InBudget(f2) {
      FullIsRead(f2);
    }
  }

  lemma TenThousand()
    ensures D.Text(10_000) == "10000"
  {
    assert D.Text(1) == "1" && D.Text(10) == "10" && D.Text(100) == "100";
    assert D.Text(1_000) == "1000";
  }

  lemma TenTimes(n: nat, width: nat)
    requires width >= 1 && 1 <= n && D.Pow10(width) <= 10 * n
    ensures D.Pad(n, width) == D.Text(n) && D.Pad(10 * n, width) == D.Text(n) + "0"
  {
    D.PadLength(10 * n, width);
    assert (10 * n) / 10 == n && (10 * n) % 10 == 0;
    assert D.Text(10 * n) == D.Text(n) + [D.Digit(0)];
  }

  lemma MovedZero(company: string, serial: string)
    requires serial == "10000"
    ensures [serial[0]] + (company + "0") + serial[1..] == [(serial + "0")[0]] + company + (serial + "0")[1..]
  {
    assert serial[1..] == "0000" && (serial + "0")[1..] == "0" + serial[1..];
  }

  lemma SameSscc(f1: Fields, f2: Fields)
    requires f1 == Fields(0, 1_000_000_000_000, 10_000) && f2 == Fields(0, 100_000_000_000, 100_000)
    ensures Full(f1) == Full(f2)
  {
    TenThousand();
    LayoutValues(0);
    TenTimes(100_000_000_000, 12);
    TenTimes(10_000, 5);
    MovedZero(D.Text(100_000_000_000), D.Text(10_000));
  }

  lemma InTheirBits(f1: Fields, f2: Fields)
    requires f1 == Fields(0, 1_000_000_000_000, 10_000) && f2 == Fields(0, 100_000_000_000, 100_000)
    ensures InBits(f1) && InBits(f2)
  {
    assert Pow2(10) == 1024 && Pow2(18) == 262144 && Pow2(20) == 1048576 && Pow2(30) == 1073741824;
    assert Pow2(40) == 1099511627776;
  }

  /** Outside the budget different tags of one partition can show the same SSCC. */
  lemma SsccsCollide(filter1: nat, low1: nat, filter2: nat, low2: nat) returns (f1: Fields, f2: Fields)
    requires filter1 < 8 && low1 < 0x100_0000 && filter2 < 8 && low2 < 0x100_0000
    ensures f1 != f2 && f1.partition == f2.partition && InBits(f1) && InBits(f2)
    ensures Sscc96WithCheckDigit(Pack(filter1, f1, low1)) == Sscc96WithCheckDigit(Pack(filter2, f2, low2))
    ensures Sscc96WithCheckDigit(Pack(filter1, f1, low1)) == Ok(Some(Full(f1)))
  {
    f1, f2 := Fields(0, 1_000_000_000_000, 10_000), Fields(0, 100_000_000_000, 100_000);
    InTheirBits(f1, f2);
    SameSscc(f1, f2);
    DecodedPack(filter1, f1, low1);
    DecodedPack(filter2, f2, low2);
  }

  /** Whatever its length, an SSCC detects any wrong digit, and any swap of digits not 5 apart. */
  lemma SsccDetectsErrors(f: Fields, i: nat, c: char)
    requires LayoutOf(f.partition).Some?
    ensures D.Checked(Full(f))
    ensures i < |Full(f)| && D.IsDigit(c) && c != Full(f)[i] ==> !D.Checked(Full(f)[i := c])
    ensures i + 1 < |Full(f)| ==>
              (!D.Checked(D.Swapped(Full(f), i)) <==>
                 (D.DigitValue(Full(f)[i]) - D.DigitValue(Full(f)[i + 1])) % 5 != 0)
  {
    var full := Full(f);
    assert D.Checked(full) by {
      SsccShape(f);
    }
    D.CheckedDetects(full, i, c);
  }

  /** A tag that is read as an SSCC-96 is of that scheme: its first byte is the scheme's header. */
  lemma SsccTagsHaveSsccScheme(epc: string)
    requires Canonical(epc)
    ensures FieldsOf(epc).Some? ==> SchemeOf(epc) == Some("SSCC-96")
  {
    if FieldsOf(epc).Some? {
      assert epc[..2] == "31";
      assert HexValue("31") == 0x31;
      assert FirstScheme(EPC_SCHEMES, 0x31) == Some("SSCC-96");
    }
  }

  // ----- the layout, in numbers -----

  /** The partition table, in numbers: the units that the bits of a serial reference leave to the company. */
  const SERIAL_UNITS: seq<nat> :=
    [0x4_0000, 0x20_0000, 0x100_0000, 0x1000_0000, 0x8000_0000, 0x4_0000_0000, 0x40_0000_0000]

  const COMPANY_UNITS: seq<nat> :=
    [0x100_0000_0000, 0x20_0000_0000, 0x4_0000_0000, 0x4000_0000, 0x800_0000, 0x100_0000, 0x10_0000]

  lemma LayoutInNumbers(partition: nat)
    requires partition < 7
    ensures LayoutOf(partition).Some?
    ensures var l := LayoutOf(partition).value;
            && l.companyDigits == 12 - partition && l.serialDigits == 5 + partition
            && Pow2(l.serialBits) == SERIAL_UNITS[partition] && Pow2(l.companyBits) == COMPANY_UNITS[partition]
  {
    assert Pow2(10) == 1024;
    assert Pow2(18) == 262144 && Pow2(20) == 1048576 && Pow2(21) == 2097152 && Pow2(24) == 16777216;
    assert Pow2(27) == 134217728 && Pow2(28) == 268435456 && Pow2(30) == 1073741824;
    assert Pow2(31) == 2147483648 && Pow2(34) == 17179869184;
    assert Pow2(37) == 137438953472 && Pow2(38) == 274877906944 && Pow2(40) == 1099511627776;
  }

  /** The 96 bits of a tag, in numbers: header 0x31, filter, partition, company, serial and 24 low bits. */
  predicate HoldsNumbers(epc: string, filter: nat, partition: nat, company: nat, serial: nat, low: nat) {
    && Canonical(epc) && |epc| == 24
    && filter < 8 && partition < 7 && low < 0x100_0000
    && company < COMPANY_UNITS[partition] && serial < SERIAL_UNITS[partition]
    && HexValue(epc) == 0x3100_0000_0000_0000_0000_0000
                        + filter * 0x20_0000_0000_0000_0000_0000
                        + partition * 0x4_0000_0000_0000_0000_0000
                        + (company * SERIAL_UNITS[partition] + serial) * 0x100_0000
                        + low
  }

  lemma PackedText(epc: string, filter: nat, f: Fields, low: nat)
    requires LayoutOf(f.partition).Some? && IsHex(epc) && |epc| == 24
    requires HexValue(epc) == Assemble(filter, f.partition, Payload(f), low)
    ensures epc == Pack(filter, f, low)
  {
    HexTextRoundTrip(epc);
  }

  lemma NumbersArePacked(epc: string, filter: nat, f: Fields, low: nat)
    requires HoldsNumbers(epc, filter, f.partition, f.company, f.serial, low)
    ensures InBits(f) && epc == Pack(filter, f, low)
  {
    LayoutInNumbers(f.partition);
    assert Payload(f) == f.company * SERIAL_UNITS[f.partition] + f.serial;
    PackedText(epc, filter, f, low);
  }

  /** Decimal text of a number, with leading zeros up to a width that holds it. */
  predicate Writes(text: string, number: nat, width: nat) {
    |text| == width && D.AllDigits(text) && D.Value(text) == number
  }

  lemma PadWrites(number: nat, width: nat)
    requires width >= 1 && number < D.Pow10(width)
    ensures Writes(D.Pad(number, width), number, width)
  {
    D.PadLength(number, width);
    D.PadValue(number, width);
  }

  /**
   * Decoding by hand: the SSCC of a tag with these numbers, if each fits its digits, has eighteen
   * digits. The first digit of the serial reference comes first, then the company prefix in 12
   * less the partition of them, then the other digits of the serial reference, which are also the
   * short form, and then the digit that makes the check sum.
   */
  lemma SsccByHand(epc: string, filter: nat, partition: nat, company: nat, serial: nat, low: nat)
    returns (sscc: string, companyText: string, serialText: string)
    requires HoldsNumbers(epc, filter, partition, company, serial, low)
    requires company < D.Pow10(12 - partition) && serial < D.Pow10(5 + partition)
    ensures Writes(companyText, company, 12 - partition) && Writes(serialText, serial, 5 + partition)
    ensures D.AllDigits(sscc) && |sscc| == 18 && D.SumsToTens(sscc)
    ensures sscc[..17] == [serialText[0]] + companyText + serialText[1..]
    ensures Sscc96WithCheckDigit(epc) == Ok(Some(sscc))
    ensures Sscc96WithoutCheckDigit(epc) == Ok(Some(serialText[1..]))
  {
    var f := Fields(partition, company, serial);
    NumbersArePacked(epc, filter, f, low);
    LayoutInNumbers(partition);
    DecodedPack(filter, f, low);
    sscc, companyText, serialText := Full(f), D.Pad(company, 12 - partition), D.Pad(serial, 5 + partition);
    PadWrites(company, 12 - partition);
    PadWrites(serial, 5 + partition);
    FullIsRead(f);
    D.EighteenByHand(sscc);
  }

  lemma NoFieldsExactly(epc: string)
    requires Canonical(epc)
    ensures FieldsOf(epc).None? <==>
            |epc| != 24 || epc[..2] != "31" || HexValue(epc) / 0x4_0000_0000_0000_0000_0000 % 8 == 7
  {
    assert "31" <= epc <==> epc[..2] == "31";
    assert LayoutOf(PartitionBits(HexValue(epc))).None? <==> PartitionBits(HexValue(epc)) == 7;
  }

  /** Which canonical EPCs are no SSCC-96: other lengths, other headers, and partition 7. */
  lemma NoSsccExactly(epc: string)
    requires Canonical(epc)
    ensures Sscc96WithCheckDigit(epc) == Ok(None) <==>
            |epc| != 24 || epc[..2] != "31" || HexValue(epc) / 0x4_0000_0000_0000_0000_0000 % 8 == 7
    ensures Sscc96WithoutCheckDigit(epc) == Ok(None) <==> Sscc96WithCheckDigit(epc) == Ok(None)
  {
    CanonicalIsFixed(epc);
    NoFieldsExactly(epc);
    SerialsAgree(epc);
  }

  /** The check sum of every SSCC, of any length. */
  lemma SsccSumsByHand(value: string, sscc: string)
    requires Sscc96WithCheckDigit(value) == Ok(Some(sscc))
    ensures D.AllDigits(sscc)
    ensures (D.EverySecond(sscc, |sscc|, true) + 3 * D.EverySecond(sscc, |sscc|, false)) % 10 == 0
  {
    var f := ReturnedIsFull(value);
    SsccShape(f);
    D.CheckedByHand(sscc);
  }

  // ----- a tag and its SSCC -----

  lemma ThreeDigits(s: string, a: nat, b: nat, c: nat)
    requires a < 16 && b < 16 && c < 16 && s == [HexDigit(a), HexDigit(b), HexDigit(c)]
    ensures IsHex(s) && HexValue(s) == 0x100 * a + 0x10 * b + c
  {
    assert s[..2] == [HexDigit(a), HexDigit(b)] && s[..2][..1] == [HexDigit(a)] && s[..2][..1][..0] == "";
    assert HexValue(s[..2][..1]) == a;
    assert HexValue(s[..2]) == 0x10 * a + b;
  }

  lemma SixDigits(s: string, a: nat, b: nat, c: nat, d: nat, e: nat, f: nat)
    requires a < 16 && b < 16 && c < 16 && d < 16 && e < 16 && f < 16
    requires s == [HexDigit(a), HexDigit(b), HexDigit(c), HexDigit(d), HexDigit(e), HexDigit(f)]
    ensures IsHex(s) && HexValue(s) == 0x10_0000 * a + 0x1_0000 * b + 0x1000 * c + 0x100 * d + 0x10 * e + f
  {
    ThreeDigits(s[..3], a, b, c);
    ThreeDigits(s[3..], d, e, f);
    assert s == s[..3] + s[3..];
    HexConcat(s[..3], s[3..]);
    assert Pow16(3) == 0x1000;
  }

  lemma TwentyFour(a: string, b: string, c: string, d: string)
    requires IsHex(a) && IsHex(b) && IsHex(c) && IsHex(d) && |a| == |b| == |c| == |d| == 6
    ensures IsHex(a + b + c + d)
    ensures HexValue(a + b + c + d) ==
            ((HexValue(a) * 0x100_0000 + HexValue(b)) * 0x100_0000 + HexValue(c)) * 0x100_0000 + HexValue(d)
  {
    assert Pow16(6) == 0x100_0000;
    HexConcat(a, b);
    HexConcat(a + b, c);
    HexConcat(a + b + c, d);
  }

  lemma ExampleNumbers(epc: string)
    requires epc == "31D55C" + "D1D800" + "000001" + "000000"
    ensures HoldsNumbers(epc, 6, 5, 5_715_062, 1, 0)
  {
    SixDigits("31D55C", 3, 1, 13, 5, 5, 12);
    SixDigits("D1D800", 13, 1, 13, 8, 0, 0);
    SixDigits("000001", 0, 0, 0, 0, 0, 1);
    SixDigits("000000", 0, 0, 0, 0, 0, 0);
    TwentyFour("31D55C", "D1D800", "000001", "000000");
  }

  lemma ExampleCompany(company: nat)
    requires company == 5_715_062
    ensures D.Text(company) == "5715062"
  {
    D.TextStep(5, 7, "5");
    D.TextStep(57, 1, "57");
    D.TextStep(571, 5, "571");
    D.TextStep(5_715, 0, "5715");
    D.TextStep(57_150, 6, "57150");
    D.TextStep(571_506, 2, "571506");
  }

  lemma ExampleSerial(serial: nat)
    requires serial == 1
    ensures D.Pad(serial, 10) == "0000000001"
  {
    assert D.Text(serial) == "1" && D.Zeros(9) == "000000000";
  }

  lemma ExampleBody(f: Fields)
    requires f == Fields(5, 5_715_062, 1)
    ensures Body(f) == "05715062000000001" && ShortSerial(f) == "000000001"
  {
    ExampleCompany(f.company);
    ExampleSerial(f.serial);
    assert "0000000001"[1..] == "000000001";
  }

  lemma ExampleCheck(body: string)
    requires body == "05715062000000001"
    ensures D.AllDigits(body) && D.CheckDigit(body) == 5
  {
    var sscc := body + [D.Digit(5)];
    D.EighteenByHand(sscc);
    D.CheckDigitIsUnique(body, 5);
  }

  lemma ExampleFull(f: Fields)
    requires f == Fields(5, 5_715_062, 1)
    ensures Full(f) == "057150620000000015" && ShortSerial(f) == "000000001"
  {
    ExampleBody(f);
    ExampleCheck(Body(f));
  }

  /** The SSCC of an example tag. */
  lemma SsccExample(epc: string)
    requires epc == "31D55C" + "D1D800" + "000001" + "000000"
    ensures Sscc96WithCheckDigit(epc) == Ok(Some("057150620000000015"))
    ensures Sscc96WithoutCheckDigit(epc) == Ok(Some("000000001"))
  {
    var f := Fields(5, 5_715_062, 1);
    ExampleNumbers(epc);
    NumbersArePacked(epc, 6, f, 0);
    DecodedPack(6, f, 0);
    ExampleFull(f);
  }
}
