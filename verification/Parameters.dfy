/**
 * LLRP parameters (EPCglobal LLRP 1.0.1, section 16.2): the wire form as a specification, and
 * the greedy parser of app/llrp.py that reads it back.
 */
module Parameters {
  import opened Wrappers
  import opened Bytes
  import opened Sequences

  datatype Encoding = Tlv | Tv

  datatype Parameter = Parameter(encoding: Encoding, kind: nat, value: seq<byte>)

  /** TV_PARAMETER_LENGTHS: the fixed value lengths of the TV parameters. */
  function TvLength(kind: nat): Option<nat> {
    match kind
    case 1 => Some(2)
    case 2 => Some(8)
    case 3 => Some(8)
    case 4 => Some(8)
    case 5 => Some(8)
    case 6 => Some(1)
    case 7 => Some(2)
    case 8 => Some(2)
    case 9 => Some(4)
    case 10 => Some(2)
    case 11 => Some(2)
    case 12 => Some(2)
    case 13 => Some(12)
    case 14 => Some(2)
    case _ => None
  }

  // ----- the wire form -----

  /** A parameter as sent: the five reserved bits of a TLV header may hold anything. */
  datatype Wire = Wire(reserved: nat, param: Parameter)

  predicate WellFormed(x: Wire) {
    match x.param.encoding
    case Tlv => x.reserved < 32 && x.param.kind < 1024 && |x.param.value| + 4 < 0x1_0000
    case Tv => x.reserved == 0 && TvLength(x.param.kind) == Some(|x.param.value|)
  }

  predicate AllWellFormed(xs: seq<Wire>) {
    forall i :: 0 <= i < |xs| ==> WellFormed(xs[i])
  }

  function Size(x: Wire): nat {
    match x.param.encoding
    case Tlv => 4 + |x.param.value|
    case Tv => 1 + |x.param.value|
  }

  function Encode(x: Wire): (b: seq<byte>)
    requires WellFormed(x)
    ensures |b| == Size(x) >= 2
  {
    match x.param.encoding
    case Tlv => Pack16(x.reserved * 1024 + x.param.kind) + Pack16(|x.param.value| + 4) + x.param.value
    case Tv => [128 + x.param.kind] + x.param.value
  }

  /** The TV lengths of LLRP 1.0.1, section 16.2.7.3, for the kinds from 1 on. */
  lemma TvLengthsExactly(kind: nat, length: nat)
    ensures TvLength(kind) == Some(length) <==>
            1 <= kind <= 14 && length == [2, 8, 8, 8, 8, 1, 2, 2, 4, 2, 2, 2, 12, 2][kind - 1]
  {
  }

  /** The wire form, byte by byte. */
  lemma EncodedBytes(x: Wire)
    requires WellFormed(x)
    ensures x.param.encoding == Tv ==> Encode(x) == [128 + x.param.kind] + x.param.value
    ensures x.param.encoding == Tlv ==>
              var length := 4 + |x.param.value|;
              Encode(x) == [4 * x.reserved + x.param.kind / 256, x.param.kind % 256, length / 256, length % 256]
                           + x.param.value
  {
  }

  function EncodeAll(xs: seq<Wire>): seq<byte>
    requires AllWellFormed(xs)
  {
    if xs == [] then [] else Encode(xs[0]) + EncodeAll(xs[1..])
  }

  /** Some well-formed parameter is written at the start of the data. */
  ghost predicate StartsWithParameter(data: seq<byte>) {
    exists x: Wire :: WellFormed(x) && Encode(x) <= data
  }

  // ----- the parser -----

  /** The parameter at the start of the data; None where the parser stops. */
  function First(data: seq<byte>): (r: Option<Wire>)
    ensures r.Some? ==> WellFormed(r.value) && 2 <= Size(r.value) <= |data|
    ensures r.Some? ==> Encode(r.value) == data[..Size(r.value)]
  {
    if data == [] then None
    else if data[0] >= 128 then
      var kind := data[0] - 128;
      match TvLength(kind)
      case None => None
      case Some(length) =>
        if 1 + length > |data| then None
        else
          var x := Wire(0, Parameter(Tv, kind, data[1..1 + length]));
          assert Encode(x) == data[..1 + length];
          Some(x)
    else if |data| < 4 then None
    else
      var head, total := U16(data[..2]), U16(data[2..4]);
      if total < 4 || total > |data| then None
      else
        var x := Wire(head / 1024, Parameter(Tlv, head % 1024, data[4..total]));
        assert Encode(x) == data[..total];
        Some(x)
  }

  function Parsed(data: seq<byte>): (xs: seq<Wire>)
    ensures AllWellFormed(xs)
    decreases |data|
  {
    match First(data)
    case None => []
    case Some(x) => [x] + Parsed(data[Size(x)..])
  }

  /** What the parser leaves unread. */
  function Rest(data: seq<byte>): seq<byte>
    decreases |data|
  {
    match First(data)
    case None => data
    case Some(x) => Rest(data[Size(x)..])
  }

  function Params(xs: seq<Wire>): (ps: seq<Parameter>)
    ensures |ps| == |xs|
  {
    seq(|xs|, i requires 0 <= i < |xs| => xs[i].param)
  }

  /** The list that `parse_parameters` returns. */
  function ParametersOf(data: seq<byte>): seq<Parameter> {
    Params(Parsed(data))
  }

  /** The same for a TLV parameter. */
  method TlvAt(data: seq<byte>, index: nat) returns (r: Option<Wire>)
    requires index < |data| && data[index] < 128
    ensures r == First(data[index..])
  {
    if index + 4 > |data| {
      return None;
    }
    var head := U16(data[index..index + 2]);
    var total := U16(data[index + 2..index + 4]);
    SliceOfDrop(data, index, 0, 2);
    SliceOfDrop(data, index, 2, 4);
    if total < 4 || index + total > |data| {
      return None;
    }
    SliceOfDrop(data, index, 4, total);
    return Some(Wire(head / 1024, Parameter(Tlv, head % 1024, data[index + 4..index + total])));
  }

  /** One turn of the parsing loop: the parameter that starts at the index, if a whole one does. */
  method ParameterAt(data: seq<byte>, index: nat) returns (r: Option<Wire>)
    requires index < |data|
    ensures r == First(data[index..])
  {
    var firstByte := data[index];
    if firstByte >= 128 {
      var kind := firstByte % 128;
      var length := TvLength(kind);
      if length.None? || index + 1 + length.value > |data| {
        return None;
      }
      SliceOfDrop(data, index, 1, 1 + length.value);
      return Some(Wire(0, Parameter(Tv, kind, data[index + 1..index + 1 + length.value])));
    }
    r := TlvAt(data, index);
  }

  /** The loop invariant: what is read, then what the rest holds, is everything. */
  ghost predicate Reading(data: seq<byte>, index: nat, done: seq<Parameter>) {
    index <= |data| && ParametersOf(data) == done + ParametersOf(data[index..])
  }

  lemma StartReading(data: seq<byte>)
    ensures Reading(data, 0, [])
  {
    assert data[0..] == data;
  }

  lemma StopReading(data: seq<byte>, index: nat, done: seq<Parameter>)
    requires Reading(data, index, done)
    requires First(data[index..]) == None
    ensures done == ParametersOf(data)
  {
    assert done + [] == done;
  }

  lemma ParametersStep(data: seq<byte>, x: Wire)
    requires First(data) == Some(x)
    ensures ParametersOf(data) == [x.param] + ParametersOf(data[Size(x)..])
  {
  }

  lemma ReadOne(data: seq<byte>, index: nat, done: seq<Parameter>, x: Wire, next: nat,
      longer: seq<Parameter>)
    requires Reading(data, index, done)
    requires First(data[index..]) == Some(x)
    requires next == index + Size(x) && longer == done + [x.param]
    ensures next <= |data| && Reading(data, next, longer)
  {
    ParametersStep(data[index..], x);
    assert data[index..][Size(x)..] == data[next..];
    Shift(ParametersOf(data), done, x.param, ParametersOf(data[index..]), ParametersOf(data[next..]));
  }

  method ParseParameters(data: seq<byte>) returns (parameters: seq<Parameter>)
    ensures parameters == ParametersOf(data)
  {
    parameters := [];
    var index := 0;
    StartReading(data);
    while index < |data|
      invariant index <= |data|
      invariant Reading(data, index, parameters)
    {
      var next := ParameterAt(data, index);
      if next.None? {
        StopReading(data, index, parameters);
        return;
      }
      ghost var before, done := index, parameters;
      parameters := parameters + [next.value.param];
      index := index + Size(next.value);
      ReadOne(data, before, done, next.value, index, parameters);
    }
    StopReading(data, index, parameters);
  }

  // ----- one parameter -----

  /** A written parameter is read back, reserved bits and all, whatever follows it. */
  lemma FirstOfEncoded(x: Wire, tail: seq<byte>)
    requires WellFormed(x)
    ensures First(Encode(x) + tail) == Some(x)
  {
    var data := Encode(x) + tail;
    if x.param.encoding == Tlv {
      var total := |x.param.value| + 4;
      var head := x.reserved * 1024 + x.param.kind;
      assert data[..2] == Pack16(head) && data[2..4] == Pack16(total);
      assert data[4..total] == x.param.value;
      assert head / 1024 == x.reserved && head % 1024 == x.param.kind;
    } else {
      assert data[1..1 + |x.param.value|] == x.param.value;
    }
  }

  /** The parser stops only where no parameter is written: it is never too strict. */
  lemma StopsOnlyAtGarbage(data: seq<byte>)
    ensures First(data).None? <==> !StartsWithParameter(data)
  {
    if StartsWithParameter(data) {
      var x: Wire :| WellFormed(x) && Encode(x) <= data;
      Split(data, Size(x));
      FirstOfEncoded(x, data[Size(x)..]);
    }
  }

  // ----- lists of parameters -----

  lemma EncodeCons(x: Wire, xs: seq<Wire>)
    requires WellFormed(x) && AllWellFormed(xs)
    ensures EncodeAll([x] + xs) == Encode(x) + EncodeAll(xs)
  {
    assert ([x] + xs)[1..] == xs;
  }

  lemma {:induction false} ParsedSound(data: seq<byte>)
    ensures data == EncodeAll(Parsed(data)) + Rest(data)
    ensures First(Rest(data)) == None
    decreases |data|
  {
    match First(data)
    case None =>
    case Some(x) =>
      var n := Size(x);
      var xs, rest := Parsed(data[n..]), Rest(data[n..]);
      ParsedSound(data[n..]);
      Split(data, n);
      EncodeCons(x, xs);
      Associate(Encode(x), EncodeAll(xs), rest);
  }

  lemma ParsedCons(x: Wire, more: seq<byte>)
    requires WellFormed(x)
    ensures Parsed(Encode(x) + more) == [x] + Parsed(more)
    ensures Rest(Encode(x) + more) == Rest(more)
  {
    FirstOfEncoded(x, more);
    assert (Encode(x) + more)[Size(x)..] == more;
  }

  /** Compositionality: parameters written before other data are read, then the other data. */
  lemma {:induction false} ParsedAppend(xs: seq<Wire>, tail: seq<byte>)
    requires AllWellFormed(xs)
    ensures Parsed(EncodeAll(xs) + tail) == xs + Parsed(tail)
    ensures Rest(EncodeAll(xs) + tail) == Rest(tail)
  {
    if xs == [] {
      assert EncodeAll(xs) + tail == tail && xs + Parsed(tail) == Parsed(tail);
    } else {
      var x, ys := xs[0], xs[1..];
      var more := EncodeAll(ys) + tail;
      ParsedAppend(ys, tail);
      ParsedCons(x, more);
      Associate(Encode(x), EncodeAll(ys), tail);
      UnconsAppend(xs, Parsed(tail));
    }
  }

  /**
   * The parser, characterised: on any bytes its result is the one way to write the data as
   * well-formed parameters followed by something that starts with no parameter.
   */
  lemma ParsedExactly(data: seq<byte>, xs: seq<Wire>, rest: seq<byte>)
    ensures xs == Parsed(data) && rest == Rest(data) <==>
            AllWellFormed(xs) && data == EncodeAll(xs) + rest && !StartsWithParameter(rest)
  {
    ParsedSound(data);
    StopsOnlyAtGarbage(Rest(data));
    if AllWellFormed(xs) && data == EncodeAll(xs) + rest && !StartsWithParameter(rest) {
      StopsOnlyAtGarbage(rest);
      ParsedAppend(xs, rest);
      assert Parsed(rest) == [] && Rest(rest) == rest;
    }
  }

  /** Round trip: a list of well-formed parameters is read back from its encoding. */
  lemma ParameterRoundTrip(xs: seq<Wire>)
    requires AllWellFormed(xs)
    ensures ParametersOf(EncodeAll(xs)) == Params(xs)
    ensures Rest(EncodeAll(xs)) == []
  {
    assert EncodeAll(xs) + [] == EncodeAll(xs);
    ParsedAppend(xs, []);
    assert xs + Parsed([]) == xs;
  }

  lemma ParamsAppend(xs: seq<Wire>, ys: seq<Wire>)
    ensures Params(xs + ys) == Params(xs) + Params(ys)
  {
  }

  /** Data that is fully read can be parsed apart from what follows it. */
  lemma ParsesApart(a: seq<byte>, b: seq<byte>)
    requires Rest(a) == []
    ensures ParametersOf(a + b) == ParametersOf(a) + ParametersOf(b)
    ensures Rest(a + b) == Rest(b)
  {
    ParsedSound(a);
    AppendNothing(EncodeAll(Parsed(a)));
    ParsedAppend(Parsed(a), b);
    ParamsAppend(Parsed(a), Parsed(b));
  }

  /** Cutting data short loses parameters at the end and changes none. */
  lemma TruncationKeepsAPrefix(data: seq<byte>, n: nat)
    requires n <= |data|
    ensures ParametersOf(data[..n]) <= ParametersOf(data)
  {
    var cut, more := data[..n], data[n..];
    ParsedSound(cut);
    Split(data, n);
    Associate(EncodeAll(Parsed(cut)), Rest(cut), more);
    ParsedAppend(Parsed(cut), Rest(cut) + more);
    ParamsAppend(Parsed(cut), Parsed(Rest(cut) + more));
  }
}
