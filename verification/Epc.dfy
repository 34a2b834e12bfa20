/** EPC text: normalisation, the scheme header and the per-reader scheme filter. */
module Epc {
  import opened Wrappers
  import opened Bytes
  import D = Decimal

  datatype EpcError = EmptyEpc | OddLength | NotHexadecimal | TooManyDigits

  // ----- normalize_epc -----

  /** The ASCII characters that `str.strip` removes. */
  predicate IsSpace(c: char) {
    c == ' ' || 9 <= c as int <= 13 || 28 <= c as int <= 31
  }

  function StripLeft(s: string): string {
    if s != "" && IsSpace(s[0]) then StripLeft(s[1..]) else s
  }

  function StripRight(s: string): string {
    if s != "" && IsSpace(s[|s| - 1]) then StripRight(s[..|s| - 1]) else s
  }

  function RemoveBlanks(s: string): string {
    if s == "" then ""
    else if s[0] == ' ' then RemoveBlanks(s[1..])
    else [s[0]] + RemoveBlanks(s[1..])
  }

  function UpperChar(c: char): char {
    if 'a' <= c <= 'z' then c - 'a' + 'A' else c
  }

  function Upper(s: string): (u: string)
    ensures |u| == |s|
    ensures forall i :: 0 <= i < |s| ==> u[i] == UpperChar(s[i])
  {
    seq(|s|, i requires 0 <= i < |s| => UpperChar(s[i]))
  }

  function Compact(value: string): string {
    Upper(RemoveBlanks(StripRight(StripLeft(value))))
  }

  function NormalizeEpc(value: string): Result<string, EpcError> {
    var text := Compact(value);
    var normalized := if "0X" <= text then text[2..] else text;
    if normalized == "" then Err(EmptyEpc)
    else if |normalized| % 2 != 0 then Err(OddLength)
    else if !IsHex(normalized) then Err(NotHexadecimal)
    else Ok(normalized)
  }

  /** The text form in which EPCs are stored: whole bytes of upper-case hexadecimal digits. */
  predicate Canonical(epc: string) {
    epc != "" && |epc| % 2 == 0 && IsHex(epc)
  }

  lemma {:induction false} RemoveBlanksOfHex(s: string)
    requires IsHex(s)
    ensures RemoveBlanks(s) == s
  {
    if s != "" {
      RemoveBlanksOfHex(s[1..]);
      assert s == [s[0]] + s[1..];
    }
  }

  lemma CanonicalIsFixed(epc: string)
    requires Canonical(epc)
    ensures NormalizeEpc(epc) == Ok(epc)
  {
    assert StripLeft(epc) == epc && StripRight(epc) == epc;
    RemoveBlanksOfHex(epc);
    assert Upper(epc) == epc;
    assert !("0X" <= epc) by {
      assert epc[1] != 'X';
    }
  }

  /**
   * Normalisation produces canonical text only, and a text is left alone by it exactly when it
   * is canonical; in particular normalising twice is normalising once.
   */
  lemma NormalizeIsIdempotent(value: string)
    ensures NormalizeEpc(value) == Ok(value) <==> Canonical(value)
    ensures NormalizeEpc(value).Ok? ==>
              && Canonical(NormalizeEpc(value).value)
              && NormalizeEpc(NormalizeEpc(value).value) == NormalizeEpc(value)
  {
    if Canonical(value) {
      CanonicalIsFixed(value);
    }
    if NormalizeEpc(value).Ok? {
      CanonicalIsFixed(NormalizeEpc(value).value);
    }
  }

  lemma NoEpcInNothing()
    ensures NormalizeEpc("") == Err(EmptyEpc)
  {
    assert StripLeft("") == "" && StripRight("") == "" && RemoveBlanks("") == "" && Upper("") == "";
  }

  // Spellings of one EPC

  predicate AllSpace(s: string) {
    forall i :: 0 <= i < |s| ==> IsSpace(s[i])
  }

  lemma {:induction false} StripLeftPadding(left: string, s: string)
    requires AllSpace(left)
    requires s != "" && !IsSpace(s[0])
    ensures StripLeft(left + s) == s
  {
    if left == "" {
      assert left + s == s;
    } else {
      assert (left + s)[1..] == left[1..] + s;
      StripLeftPadding(left[1..], s);
    }
  }

  lemma {:induction false} StripRightPadding(s: string, right: string)
    requires AllSpace(right)
    requires s != "" && !IsSpace(s[|s| - 1])
    ensures StripRight(s + right) == s
  {
    if right == "" {
      assert s + right == s;
    } else {
      var t := s + right;
      assert t[|t| - 1] == right[|right| - 1];
      assert t[..|t| - 1] == s + right[..|right| - 1];
      StripRightPadding(s, right[..|right| - 1]);
    }
  }

  /** The optional hexadecimal prefix that normalisation drops. */
  predicate IsPrefix(prefix: string) {
    prefix == "" || prefix == "0x" || prefix == "0X"
  }

  lemma UpperPrefix(prefix: string, spelled: string, epc: string)
    requires IsPrefix(prefix) && Canonical(epc) && Upper(spelled) == epc
    ensures Upper(prefix + spelled) == if prefix == "" then epc else "0X" + epc
  {
    if prefix == "" {
      assert prefix + spelled == spelled;
    } else {
      assert Upper(prefix + spelled) == Upper(prefix) + epc;
    }
  }

  /**
   * Letter case, white space around the text, blanks inside it and a leading "0x" make no
   * difference: every such spelling of an EPC normalises to the same canonical text.
   */
  lemma {:induction false} SpellingsAgree(
    left: string, core: string, right: string, prefix: string, spelled: string, epc: string)
    requires AllSpace(left) && AllSpace(right)
    requires core != "" && !IsSpace(core[0]) && !IsSpace(core[|core| - 1])
    requires RemoveBlanks(core) == prefix + spelled
    requires IsPrefix(prefix) && Canonical(epc) && Upper(spelled) == epc
    ensures NormalizeEpc(left + core + right) == Ok(epc)
  {
    assert left + core + right == left + (core + right);
    assert (core + right)[0] == core[0];
    StripLeftPadding(left, core + right);
    StripRightPadding(core, right);
    UpperPrefix(prefix, spelled, epc);
    if prefix == "" {
      assert epc[1] != 'X';
    } else {
      assert ("0X" + epc)[2..] == epc;
    }
  }

  // ----- exactly the spellings -----

  /** White space, letter by letter. */
  const WHITE_SPACE: string := " \t\n\U{0b}\U{0c}\r\U{1c}\U{1d}\U{1e}\U{1f}"

  lemma SpacesAreListed(c: char)
    ensures IsSpace(c) <==> c in WHITE_SPACE
  {
    var n := c as int;
    assert WHITE_SPACE[0] == ' ' && WHITE_SPACE[1] as int == 9 && WHITE_SPACE[2] as int == 10;
    assert WHITE_SPACE[3] as int == 11 && WHITE_SPACE[4] as int == 12 && WHITE_SPACE[5] as int == 13;
    assert WHITE_SPACE[6] as int == 28 && WHITE_SPACE[7] as int == 29;
    assert WHITE_SPACE[8] as int == 30 && WHITE_SPACE[9] as int == 31;
  }

  /** The text without the blanks of the core. */
  ghost predicate Blanked(core: string, text: string) {
    if core == "" then text == ""
    else if core[0] == ' ' then Blanked(core[1..], text)
    else text != "" && text[0] == core[0] && Blanked(core[1..], text[1..])
  }

  /** The same text but for the case of the digits A to F. */
  predicate SameDigits(text: string, epc: string) {
    && |text| == |epc|
    && forall i :: 0 <= i < |text| ==>
         text[i] == epc[i] || ('A' <= epc[i] <= 'F' && text[i] as int == epc[i] as int + 32)
  }

  /**
   * A spelling of an EPC: white space, then the digits in either case, perhaps after a "0x" and
   * perhaps with blanks in between, then white space.
   */
  ghost predicate SpelledAs(value: string, left: string, core: string, right: string, digits: string, epc: string) {
    && value == left + core + right
    && (forall i :: 0 <= i < |left| ==> left[i] in WHITE_SPACE)
    && (forall i :: 0 <= i < |right| ==> right[i] in WHITE_SPACE)
    && core != "" && core[0] !in WHITE_SPACE && core[|core| - 1] !in WHITE_SPACE
    && (Blanked(core, digits) || Blanked(core, "0x" + digits) || Blanked(core, "0X" + digits))
    && SameDigits(digits, epc)
  }

  lemma {:induction false} BlankedIsRemoved(core: string, text: string)
    ensures Blanked(core, text) <==> RemoveBlanks(core) == text
  {
    if core != "" {
      if core[0] == ' ' {
        BlankedIsRemoved(core[1..], text);
      } else if text != "" {
        BlankedIsRemoved(core[1..], text[1..]);
        assert text == [text[0]] + text[1..];
      }
    }
  }

  lemma SameDigitsIsUpper(text: string, epc: string)
    requires IsHex(epc)
    ensures SameDigits(text, epc) <==> Upper(text) == epc
  {
    if Upper(text) == epc {
      forall i | 0 <= i < |text|
        ensures text[i] == epc[i] || ('A' <= epc[i] <= 'F' && text[i] as int == epc[i] as int + 32)
      {
        assert Upper(text)[i] == UpperChar(text[i]) && IsHexDigit(epc[i]);
      }
    }
    if SameDigits(text, epc) {
      assert forall i :: 0 <= i < |text| ==> UpperChar(text[i]) == epc[i];
    }
  }

  lemma {:induction false} StrippedLeft(s: string) returns (left: string)
    ensures s == left + StripLeft(s) && AllSpace(left)
    ensures StripLeft(s) != "" ==> !IsSpace(StripLeft(s)[0])
  {
    left := "";
    if s != "" && IsSpace(s[0]) {
      var more := StrippedLeft(s[1..]);
      left := [s[0]] + more;
    }
  }

  lemma {:induction false} StrippedRight(s: string) returns (right: string)
    ensures s == StripRight(s) + right && AllSpace(right)
    ensures StripRight(s) <= s
    ensures StripRight(s) != "" ==> !IsSpace(StripRight(s)[|StripRight(s)| - 1])
  {
    right := "";
    if s != "" && IsSpace(s[|s| - 1]) {
      var more := StrippedRight(s[..|s| - 1]);
      right := more + [s[|s| - 1]];
    }
  }

  /** What normalising makes of a core, and the digits it takes from it. */
  lemma CoreDigits(core: string, epc: string) returns (digits: string)
    requires var text := Upper(RemoveBlanks(core)); Canonical(epc) && epc == if "0X" <= text then text[2..] else text
    ensures Blanked(core, digits) || Blanked(core, "0x" + digits) || Blanked(core, "0X" + digits)
    ensures SameDigits(digits, epc)
  {
    var raw := RemoveBlanks(core);
    BlankedIsRemoved(core, raw);
    if "0X" <= Upper(raw) {
      digits := raw[2..];
      assert raw == raw[..2] + digits && Upper(digits) == epc;
      assert Upper(raw)[0] == '0' && Upper(raw)[1] == 'X';
      assert raw[..2] == "0x" || raw[..2] == "0X";
    } else {
      digits := raw;
    }
    SameDigitsIsUpper(digits, epc);
  }

  lemma SpellingIsRead(value: string, left: string, core: string, right: string, digits: string, epc: string)
    requires Canonical(epc) && SpelledAs(value, left, core, right, digits, epc)
    ensures NormalizeEpc(value) == Ok(epc)
  {
    forall c: char
      ensures IsSpace(c) <==> c in WHITE_SPACE
    {
      SpacesAreListed(c);
    }
    SameDigitsIsUpper(digits, epc);
    BlankedIsRemoved(core, digits);
    BlankedIsRemoved(core, "0x" + digits);
    BlankedIsRemoved(core, "0X" + digits);
    var prefix := if Blanked(core, digits) then "" else if Blanked(core, "0x" + digits) then "0x" else "0X";
    assert "" + digits == digits;
    SpellingsAgree(left, core, right, prefix, digits, epc);
  }

  lemma SpellingWitness(value: string, left: string, core: string, right: string, digits: string, epc: string)
    requires value == left + (core + right) && AllSpace(left) && AllSpace(right)
    requires core != "" ==> !IsSpace(core[|core| - 1]) && !IsSpace((core + right)[0])
    requires Blanked(core, digits) || Blanked(core, "0x" + digits) || Blanked(core, "0X" + digits)
    requires SameDigits(digits, epc) && Canonical(epc)
    ensures SpelledAs(value, left, core, right, digits, epc)
  {
    assert core != "";
    forall c: char
      ensures IsSpace(c) <==> c in WHITE_SPACE
    {
      SpacesAreListed(c);
    }
    assert (core + right)[0] == core[0];
    assert value == left + core + right;
  }

  /**
   * Normalising accepts a text and gives an EPC exactly if the EPC is canonical and the text is a
   * spelling of it.
   */
  lemma NormalizeExactly(value: string, epc: string)
    ensures NormalizeEpc(value) == Ok(epc) <==>
            Canonical(epc) && exists left, core, right, digits :: SpelledAs(value, left, core, right, digits, epc)
  {
    if NormalizeEpc(value) == Ok(epc) {
      NormalizeIsIdempotent(value);
      var left := StrippedLeft(value);
      var right := StrippedRight(StripLeft(value));
      var core := StripRight(StripLeft(value));
      var digits := CoreDigits(core, epc);
      SpellingWitness(value, left, core, right, digits, epc);
    }
    if Canonical(epc) && exists left, core, right, digits :: SpelledAs(value, left, core, right, digits, epc) {
      var left, core, right, digits :| SpelledAs(value, left, core, right, digits, epc);
      SpellingIsRead(value, left, core, right, digits, epc);
    }
  }

  lemma EitherCase(c: char)
    ensures IsHexDigit(UpperChar(c)) <==> c in "0123456789ABCDEFabcdef"
  {
    HexDigits(c);
    var lower := "0123456789ABCDEFabcdef";
    assert lower == "0123456789ABCDEF" + "abcdef";
    if 'a' <= c <= 'f' {
      assert "abcdef"[c as int - 'a' as int] == c;
    }
  }

  lemma HexInEitherCase(digits: string)
    ensures IsHex(Upper(digits)) <==> forall i :: 0 <= i < |digits| ==> digits[i] in "0123456789ABCDEFabcdef"
  {
    forall i | 0 <= i < |digits|
      ensures IsHexDigit(Upper(digits)[i]) <==> digits[i] in "0123456789ABCDEFabcdef"
    {
      EitherCase(digits[i]);
    }
  }

  lemma PrefixDropped(raw: string, digits: string)
    requires digits == if |raw| >= 2 && raw[0] == '0' && (raw[1] == 'x' || raw[1] == 'X') then raw[2..] else raw
    ensures (if "0X" <= Upper(raw) then Upper(raw)[2..] else Upper(raw)) == Upper(digits)
  {
    var text := Upper(raw);
    if |raw| >= 2 {
      assert text[0] == UpperChar(raw[0]) && text[1] == UpperChar(raw[1]);
    }
    assert "0X" <= text <==> |raw| >= 2 && raw[0] == '0' && (raw[1] == 'x' || raw[1] == 'X');
  }

  /** Which texts are refused, and as what: nothing but white space and "0x", half a byte, other characters. */
  lemma RefusalsExactly(value: string, raw: string, digits: string)
    requires raw == RemoveBlanks(StripRight(StripLeft(value)))
    requires digits == if |raw| >= 2 && raw[0] == '0' && (raw[1] == 'x' || raw[1] == 'X') then raw[2..] else raw
    ensures NormalizeEpc(value) == Err(EmptyEpc) <==> |digits| == 0
    ensures NormalizeEpc(value) == Err(OddLength) <==> |digits| % 2 == 1
    ensures NormalizeEpc(value) == Err(NotHexadecimal) <==>
            |digits| > 0 && |digits| % 2 == 0 && exists i :: 0 <= i < |digits| && digits[i] !in "0123456789ABCDEFabcdef"
  {
    PrefixDropped(raw, digits);
    HexInEitherCase(digits);
  }

  // ----- parse_epc -----

  datatype EpcValue = EpcValue(hexValue: string, decimalValue: string, bitLength: nat)

  /** Python refuses to write an integer of more decimal digits than this. */
  const MAX_STR_DIGITS: nat := 4300

  function ParseEpc(value: string): Result<EpcValue, EpcError> {
    match NormalizeEpc(value)
    case Err(e) => Err(e)
    case Ok(hex) =>
      var decimal := D.Text(HexValue(hex));
      if |decimal| > MAX_STR_DIGITS then Err(TooManyDigits) else Ok(EpcValue(hex, decimal, 4 * |hex|))
  }

  /** A hexadecimal digit is worth at most two decimal ones. */
  lemma {:induction false} DecimalLength(n: nat, k: nat)
    requires n < Pow16(k)
    ensures |D.Text(n)| <= 2 * k + 1
  {
    if k > 0 && n >= 100 {
      DecimalLength(n / 100, k - 1);
      assert n / 10 / 10 == n / 100;
    }
  }

  /** Every canonical text of at most 2149 digits is parsed, so every one the table can hold is. */
  lemma {:induction false} ShortEpcsParse(epc: string)
    requires Canonical(epc) && |epc| <= 2149
    ensures ParseEpc(epc).Ok? && ParseEpc(epc).value.hexValue == epc && ParseEpc(epc).value.bitLength == 4 * |epc|
    ensures D.Value(ParseEpc(epc).value.decimalValue) == HexValue(epc)
  {
    CanonicalIsFixed(epc);
    HexTextRoundTrip(epc);
    DecimalLength(HexValue(epc), |epc|);
    D.TextValue(HexValue(epc));
  }

  lemma LongerThan(n: nat, limit: nat)
    requires limit >= 1
    ensures |D.Text(n)| > limit <==> n >= D.Pow10(limit)
  {
    D.PadLength(n, limit);
  }

  lemma ParsedHex(value: string, hex: string, limit: nat)
    requires limit == 4300 && NormalizeEpc(value) == Ok(hex)
    ensures ParseEpc(value) == if |D.Text(HexValue(hex))| > limit then Err(TooManyDigits)
                               else Ok(EpcValue(hex, D.Text(HexValue(hex)), 4 * |hex|))
  {
  }

  /** A number of more than 4300 decimal digits is not written, and nothing else is refused here. */
  lemma ParseExactly(value: string, limit: nat)
    requires limit == 4300
    ensures NormalizeEpc(value).Err? ==> ParseEpc(value) == Err(NormalizeEpc(value).error)
    ensures NormalizeEpc(value).Ok? ==>
              var hex := NormalizeEpc(value).value;
              ParseEpc(value) == if HexValue(hex) >= D.Pow10(limit) then Err(TooManyDigits)
                                 else Ok(EpcValue(hex, D.Text(HexValue(hex)), 4 * |hex|))
  {
    if NormalizeEpc(value).Ok? {
      var hex := NormalizeEpc(value).value;
      ParsedHex(value, hex, limit);
      LongerThan(HexValue(hex), limit);
    }
  }

  // ----- schemes -----

  const EPC_SCHEMES: seq<(string, nat)> := [
    ("SSCC-96", 0x31), ("SGTIN-96", 0x30), ("SGLN-96", 0x32), ("GRAI-96", 0x33),
    ("GIAI-96", 0x34), ("GSRN-96", 0x2D), ("GSRNP-96", 0x2E), ("GDTI-96", 0x2C),
    ("CPI-96", 0x3C), ("GCN-96", 0x3F), ("ITIP-110", 0x40), ("ITIP-212", 0x41)
  ]

  function FirstScheme(table: seq<(string, nat)>, header: nat): Option<string> {
    if table == [] then None
    else if table[0].1 == header then Some(table[0].0)
    else FirstScheme(table[1..], header)
  }

  /** The scheme named by the first byte of an EPC that is already normalised. */
  function SchemeOf(epc: string): Option<string>
    requires Canonical(epc)
  {
    FirstScheme(EPC_SCHEMES, HexValue(epc[..2]))
  }

  function EpcSchemeIsAllowed(epc: string, allowed: Option<seq<string>>): bool
    requires Canonical(epc)
  {
    allowed.None? || (SchemeOf(epc).Some? && SchemeOf(epc).value in allowed.value)
  }

  /** The scheme that the first two characters of an EPC name. */
  predicate Names(header: string, scheme: string) {
    || (header == "31" && scheme == "SSCC-96")
    || (header == "30" && scheme == "SGTIN-96")
    || (header == "32" && scheme == "SGLN-96")
    || (header == "33" && scheme == "GRAI-96")
    || (header == "34" && scheme == "GIAI-96")
    || (header == "2D" && scheme == "GSRN-96")
    || (header == "2E" && scheme == "GSRNP-96")
    || (header == "2C" && scheme == "GDTI-96")
    || (header == "3C" && scheme == "CPI-96")
    || (header == "3F" && scheme == "GCN-96")
    || (header == "40" && scheme == "ITIP-110")
    || (header == "41" && scheme == "ITIP-212")
  }

  /** Two hexadecimal digits and the number they write. */
  lemma HeaderValue(header: string, high: nat, low: nat)
    requires |header| == 2 && IsHex(header) && high < 16 && low < 16
    ensures HexValue(header) == 16 * high + low <==> header == [HexDigit(high), HexDigit(low)]
  {
    assert HexValue(header[..1]) == HexDigitValue(header[0]) by {
      assert header[..1] == [header[0]] && header[..1][..0] == "";
    }
    var a, b := HexDigitValue(header[0]), HexDigitValue(header[1]);
    assert HexValue(header) == 16 * a + b;
    assert 16 * a + b == 16 * high + low <==> a == high && b == low;
    assert header == [header[0], header[1]];
  }

  lemma FirstSchemeAt(table: seq<(string, nat)>, n: nat)
    ensures FirstScheme(table, n) ==
            if |table| >= 1 && table[0].1 == n then Some(table[0].0)
            else if |table| >= 2 && table[1].1 == n then Some(table[1].0)
            else if |table| >= 2 then FirstScheme(table[2..], n) else None
  {
    if |table| >= 2 {
      assert table[1..][1..] == table[2..];
    }
  }

  lemma FirstSix(n: nat)
    ensures FirstScheme(EPC_SCHEMES, n) ==
            match n
            case 0x31 => Some("SSCC-96")
            case 0x30 => Some("SGTIN-96")
            case 0x32 => Some("SGLN-96")
            case 0x33 => Some("GRAI-96")
            case 0x34 => Some("GIAI-96")
            case 0x2D => Some("GSRN-96")
            case _ => FirstScheme(EPC_SCHEMES[6..], n)
  {
    var table := EPC_SCHEMES;
    FirstSchemeAt(table, n);
    FirstSchemeAt(table[2..], n);
    FirstSchemeAt(table[4..], n);
    assert table[2..][2..] == table[4..] && table[4..][2..] == table[6..];
  }

  lemma LastSix(n: nat)
    ensures FirstScheme(EPC_SCHEMES[6..], n) ==
            match n
            case 0x2E => Some("GSRNP-96")
            case 0x2C => Some("GDTI-96")
            case 0x3C => Some("CPI-96")
            case 0x3F => Some("GCN-96")
            case 0x40 => Some("ITIP-110")
            case 0x41 => Some("ITIP-212")
            case _ => None
  {
    var table := EPC_SCHEMES;
    FirstSchemeAt(table[6..], n);
    FirstSchemeAt(table[8..], n);
    FirstSchemeAt(table[10..], n);
    assert table[6..][2..] == table[8..] && table[8..][2..] == table[10..];
    assert FirstScheme(table[10..][2..], n) == None;
  }

  /** The scheme of an EPC is the one its first two characters name, and none for other headers. */
  lemma SchemeExactly(epc: string, scheme: string)
    requires Canonical(epc)
    ensures SchemeOf(epc) == Some(scheme) <==> Names(epc[..2], scheme)
  {
    var header := epc[..2];
    HeaderValue(header, 3, 1);
    HeaderValue(header, 3, 0);
    HeaderValue(header, 3, 2);
    HeaderValue(header, 3, 3);
    HeaderValue(header, 3, 4);
    HeaderValue(header, 2, 13);
    HeaderValue(header, 2, 14);
    HeaderValue(header, 2, 12);
    HeaderValue(header, 3, 12);
    HeaderValue(header, 3, 15);
    HeaderValue(header, 4, 0);
    HeaderValue(header, 4, 1);
    FirstSix(HexValue(header));
    LastSix(HexValue(header));
  }

  /** A filter lets through the schemes it lists, and no unknown header; no filter lets through all. */
  lemma FilterExactly(epc: string, allowed: Option<seq<string>>)
    requires Canonical(epc)
    ensures EpcSchemeIsAllowed(epc, allowed) <==>
            allowed.None? || exists scheme :: Names(epc[..2], scheme) && scheme in allowed.value
  {
    var s := SchemeOf(epc);
    if s.Some? {
      SchemeExactly(epc, s.value);
    }
    if allowed.Some? && exists scheme :: Names(epc[..2], scheme) && scheme in allowed.value {
      var scheme :| Names(epc[..2], scheme) && scheme in allowed.value;
      SchemeExactly(epc, scheme);
    }
  }
}
