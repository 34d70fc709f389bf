// MBOR, the encoding of AziHsmMbor.c: what each value looks like in a buffer,
// and what each decoder makes of a buffer.
module Mbor {
  import opened Common

  datatype Value =
    | Number(width: nat, n: nat)   // U8, U16, U32 and U64, by their width in bytes
    | Boolean(b: bool)
    | Map(fields: nat)
    | Bytes(data: seq<Byte>)
    | Padded(data: seq<Byte>)

  // What a decoder looks for.
  datatype Kind = NumberKind(width: nat) | BooleanKind | MapKind | BytesKind | PaddedKind

  function KindOf(v: Value): Kind {
    match v
    case Number(width, _) => NumberKind(width)
    case Boolean(_) => BooleanKind
    case Map(_) => MapKind
    case Bytes(_) => BytesKind
    case Padded(_) => PaddedKind
  }

  predicate IsWidth(width: nat) {
    width == 1 || width == 2 || width == 4 || width == 8
  }

  // The marker of an unsigned integer.
  function NumberMarker(width: nat): Byte {
    match width
    case 1 => 0x18
    case 2 => 0x19
    case 4 => 0x1A
    case _ => 0x1B
  }

  const BOOLEAN_FALSE: Byte := 0x14
  const BOOLEAN_TRUE: Byte := 0x15
  const MAP_MARKER: Byte := 0xA0
  const MAP_FIELDS_MAX := 0x0F
  const BYTES_MARKER: Byte := 0x80

  // ---- Big-endian numbers ----

  // The number of values of that many bytes.
  function Limit(width: nat): nat {
    if width == 0 then 1 else 256 * Limit(width - 1)
  }

  function BigEndian(n: nat, width: nat): (s: seq<Byte>)
    ensures |s| == width
  {
    if width == 0 then [] else BigEndian(n / 256, width - 1) + [n % 256]
  }

  function FromBigEndian(s: seq<Byte>): nat {
    if s == [] then 0 else 256 * FromBigEndian(s[..|s| - 1]) + s[|s| - 1]
  }

  lemma {:induction false} NumberRoundTrip(n: nat, width: nat)
    requires n < Limit(width)
    ensures FromBigEndian(BigEndian(n, width)) == n
  {
    if width > 0 {
      var s := BigEndian(n, width);
      NumberRoundTrip(n / 256, width - 1);
      assert s[..|s| - 1] == BigEndian(n / 256, width - 1);
    }
  }

  lemma {:induction false} BytesRoundTrip(s: seq<Byte>)
    ensures FromBigEndian(s) < Limit(|s|) && BigEndian(FromBigEndian(s), |s|) == s
  {
    if s != [] {
      BytesRoundTrip(s[..|s| - 1]);
      var last: int := s[|s| - 1];
      assert FromBigEndian(s) / 256 == FromBigEndian(s[..|s| - 1]) && FromBigEndian(s) % 256 == last;
      assert s == s[..|s| - 1] + [s[|s| - 1]];
    }
  }

  // ---- Encodings ----

  // The values that can be encoded.
  predicate Encodable(v: Value) {
    match v
    case Number(width, n) => IsWidth(width) && n < Limit(width)
    case Boolean(_) => true
    case Map(fields) => fields <= MAP_FIELDS_MAX
    case Bytes(data) => |data| < 0x1_0000
    case Padded(data) => |data| < 0x1_0000
  }

  // The padding that aligns the payload to four bytes.
  function Padding(position: nat): (pad: nat)
    ensures pad < 4 && (position + 3 + pad) % 4 == 0
  {
    (4 - (position + 3) % 4) % 4
  }

  function Zeros(n: nat): (s: seq<Byte>)
    ensures |s| == n && forall i :: 0 <= i < n ==> s[i] == 0
  {
    if n == 0 then [] else Zeros(n - 1) + [0]
  }

  function Size(v: Value, position: nat): nat {
    match v
    case Number(width, _) => 1 + width
    case Boolean(_) => 1
    case Map(_) => 1
    case Bytes(data) => 3 + |data|
    case Padded(data) => 3 + Padding(position) + |data|
  }

  // What the encoder writes for v at a position of the buffer.
  function Encoding(v: Value, position: nat): (s: seq<Byte>)
    ensures |s| == Size(v, position)
  {
    match v
    case Number(width, n) => [NumberMarker(width)] + BigEndian(n, width)
    case Boolean(b) => [if b then BOOLEAN_TRUE else BOOLEAN_FALSE]
    case Map(fields) => [(MAP_MARKER as int + fields % 16) as Byte]
    case Bytes(data) => [BYTES_MARKER] + BigEndian(|data|, 2) + data
    case Padded(data) =>
      var pad := Padding(position);
      [(BYTES_MARKER as int + pad) as Byte] + BigEndian(|data|, 2) + Zeros(pad) + data
  }

  // ---- Decoding ----

  datatype Error = InvalidParameter | NotReady | BufferTooSmall | CompromisedData

  // Next is where the decoder's position ends up, also on an error.
  datatype Outcome = Ok(value: Value, next: nat) | Err(error: Error, next: nat)

  // Looks at a marker; padded bytes carry their padding in its low two bits.
  predicate MarkerFits(kind: Kind, marker: Byte) {
    match kind
    case NumberKind(width) => marker == NumberMarker(width)
    case BooleanKind => true
    case MapKind => marker / 16 == MAP_MARKER / 16
    case BytesKind => marker == BYTES_MARKER
    case PaddedKind => marker / 4 == BYTES_MARKER / 4
  }

  function FirstNonZero(data: seq<Byte>, position: nat, end: nat): nat
    requires position <= end <= |data|
    ensures position <= FirstNonZero(data, position, end) <= end
    decreases end - position
  {
    if position == end || data[position] != 0 then position else FirstNonZero(data, position + 1, end)
  }

  function ToValue(kind: Kind, payload: seq<Byte>): Value {
    if kind.PaddedKind? then Padded(payload) else Bytes(payload)
  }

  // The padding and payload of bytes and padded bytes, behind the length.
  function DecodeBody(kind: Kind, pad: nat, length: nat, data: seq<Byte>, position: nat): (r: Outcome)
    requires position <= |data|
    ensures position <= r.next <= |data|
  {
    var start := position + pad;
    if start + length > |data| then Err(BufferTooSmall, position)
    else
      var nonZero := FirstNonZero(data, position, start);
      if nonZero < start then Err(CompromisedData, nonZero + 1)
      else Ok(ToValue(kind, data[start..start + length]), start + length)
  }

  function DecodePayload(kind: Kind, pad: nat, data: seq<Byte>, position: nat): (r: Outcome)
    requires position <= |data|
    ensures position <= r.next <= |data|
  {
    if position + 2 > |data| then Err(BufferTooSmall, position)
    else DecodeBody(kind, pad, FromBigEndian(data[position..position + 2]), data, position + 2)
  }

  function Decode(kind: Kind, data: seq<Byte>, position: nat): (r: Outcome)
    ensures position <= r.next && (position <= |data| ==> r.next <= |data|)
  {
    if position >= |data| then Err(BufferTooSmall, position)
    else
      var marker, next := data[position], position + 1;
      if !MarkerFits(kind, marker) then Err(CompromisedData, next)
      else
        match kind
        case NumberKind(width) =>
          if next + width > |data| then Err(BufferTooSmall, next)
          else Ok(Number(width, FromBigEndian(data[next..next + width])), next + width)
        case BooleanKind => Ok(Boolean(marker == BOOLEAN_TRUE), next)
        case MapKind => Ok(Map(marker % 16), next)
        case BytesKind => DecodePayload(kind, 0, data, next)
        case PaddedKind => DecodePayload(kind, marker % 4, data, next)
  }

  // ---- Round trips ----

  lemma FirstNonZeroIs(data: seq<Byte>, position: nat, end: nat)
    requires position <= end <= |data|
    ensures FirstNonZero(data, position, end) == end <==> forall i :: position <= i < end ==> data[i] == 0
    decreases end - position
  {
    if position < end { FirstNonZeroIs(data, position + 1, end); }
  }

  // The bytes s stand in data from position on.
  ghost predicate At(data: seq<Byte>, position: nat, s: seq<Byte>)
    decreases |s|
  {
    if s == [] then position <= |data|
    else position < |data| && data[position] == s[0] && At(data, position + 1, s[1..])
  }

  lemma {:induction false} AtConcat(data: seq<Byte>, position: nat, a: seq<Byte>, b: seq<Byte>)
    ensures At(data, position, a + b) <==> At(data, position, a) && At(data, position + |a|, b)
    decreases |a|
  {
    if a == [] {
      assert a + b == b;
      AtSlice(data, position, b);
    } else {
      assert (a + b)[1..] == a[1..] + b;
      AtConcat(data, position + 1, a[1..], b);
    }
  }

  lemma {:induction false} AtSlice(data: seq<Byte>, position: nat, s: seq<Byte>)
    ensures At(data, position, s) <==> position + |s| <= |data| && data[position..position + |s|] == s
    decreases |s|
  {
    if s != [] {
      AtSlice(data, position + 1, s[1..]);
      if position + |s| <= |data| {
        var t := data[position..position + |s|];
        assert t[1..] == data[position + 1..position + |s|] && t[0] == data[position];
        assert t == [t[0]] + t[1..] && s == [s[0]] + s[1..];
      }
    }
  }

  lemma AtByte(data: seq<Byte>, position: nat, b: Byte)
    ensures At(data, position, [b]) <==> position < |data| && data[position] == b
  {
  }

  lemma {:induction false} AtZeros(data: seq<Byte>, position: nat, n: nat)
    ensures At(data, position, Zeros(n)) <==>
      position + n <= |data| && FirstNonZero(data, position, position + n) == position + n
  {
    if n == 0 {
    } else if position + n <= |data| {
      FirstNonZeroIs(data, position, position + n);
      AtSlice(data, position, Zeros(n));
      if forall i :: position <= i < position + n ==> data[i] == 0 {
        assert data[position..position + n] == Zeros(n);
      } else {
        var i :| position <= i < position + n && data[i] != 0;
        assert data[position..position + n][i - position] != Zeros(n)[i - position];
      }
    } else {
      AtSlice(data, position, Zeros(n));
    }
  }

  lemma AtParts(data: seq<Byte>, position: nat, marker: Byte, a: seq<Byte>, b: seq<Byte>, c: seq<Byte>)
    ensures At(data, position, [marker] + a + b + c) <==>
      && position < |data| && data[position] == marker && At(data, position + 1, a)
      && At(data, position + 1 + |a|, b) && At(data, position + 1 + |a| + |b|, c)
  {
    AtConcat(data, position, [marker] + a + b, c);
    AtConcat(data, position, [marker] + a, b);
    AtConcat(data, position, [marker], a);
    AtByte(data, position, marker);
  }

  lemma AtJoin(data: seq<Byte>, position: nat, marker: Byte, a: seq<Byte>, b: seq<Byte>, c: seq<Byte>)
    requires position < |data| && data[position] == marker && At(data, position + 1, a)
    requires At(data, position + 1 + |a|, b) && At(data, position + 1 + |a| + |b|, c)
    ensures At(data, position, [marker] + a + b + c)
  {
    AtParts(data, position, marker, a, b, c);
  }

  lemma LengthRoundTrip(n: nat, data: seq<Byte>, position: nat)
    requires n < 0x1_0000 && At(data, position, BigEndian(n, 2))
    ensures position + 2 <= |data| && FromBigEndian(data[position..position + 2]) == n
  {
    AtSlice(data, position, BigEndian(n, 2));
    assert Limit(2) == 256 * Limit(1);
    NumberRoundTrip(n, 2);
  }

  lemma BodyRoundTrip(kind: Kind, pad: nat, payload: seq<Byte>, data: seq<Byte>, position: nat)
    requires position <= |data| && At(data, position, Zeros(pad)) && At(data, position + pad, payload)
    ensures DecodeBody(kind, pad, |payload|, data, position) == Ok(ToValue(kind, payload), position + pad + |payload|)
  {
    AtSlice(data, position + pad, payload);
    AtZeros(data, position, pad);
  }

  // Length, padding and payload decode to the payload.
  lemma PayloadRoundTrip(kind: Kind, pad: nat, payload: seq<Byte>, data: seq<Byte>, position: nat)
    requires position <= |data| && |payload| < 0x1_0000
    requires At(data, position, BigEndian(|payload|, 2)) && At(data, position + 2, Zeros(pad))
    requires At(data, position + 2 + pad, payload)
    ensures DecodePayload(kind, pad, data, position) == Ok(ToValue(kind, payload), position + 2 + pad + |payload|)
  {
    LengthRoundTrip(|payload|, data, position);
    BodyRoundTrip(kind, pad, payload, data, position + 2);
  }

  lemma NumberDecodes(width: nat, n: nat, data: seq<Byte>, position: nat)
    requires IsWidth(width) && n < Limit(width) && At(data, position, [NumberMarker(width)] + BigEndian(n, width))
    ensures position < |data|
    ensures Decode(NumberKind(width), data, position) == Ok(Number(width, n), position + 1 + width)
  {
    AtConcat(data, position, [NumberMarker(width)], BigEndian(n, width));
    AtByte(data, position, NumberMarker(width));
    AtSlice(data, position + 1, BigEndian(n, width));
    NumberRoundTrip(n, width);
  }

  lemma DecodesPayload(kind: Kind, pad: nat, marker: Byte, data: seq<Byte>, position: nat)
    requires (kind.BytesKind? && pad == 0) || (kind.PaddedKind? && pad < 4)
    requires position < |data| && data[position] == marker == BYTES_MARKER as int + pad
    ensures Decode(kind, data, position) == DecodePayload(kind, pad, data, position + 1)
  {
    assert marker / 4 == BYTES_MARKER / 4 && marker % 4 == pad;
  }

  // Both kinds of bytes; pad is 0 for plain ones.
  lemma BytesDecode(kind: Kind, pad: nat, payload: seq<Byte>, data: seq<Byte>, position: nat)
    requires (kind.BytesKind? && pad == 0) || (kind.PaddedKind? && pad < 4)
    requires |payload| < 0x1_0000
    requires At(data, position, [(BYTES_MARKER as int + pad) as Byte] + BigEndian(|payload|, 2) + Zeros(pad) + payload)
    ensures position < |data|
    ensures Decode(kind, data, position) == Ok(ToValue(kind, payload), position + 3 + pad + |payload|)
  {
    var marker := (BYTES_MARKER as int + pad) as Byte;
    AtParts(data, position, marker, BigEndian(|payload|, 2), Zeros(pad), payload);
    DecodesPayload(kind, pad, marker, data, position);
    PayloadRoundTrip(kind, pad, payload, data, position + 1);
  }

  // Whatever an encoder wrote, the matching decoder reads back, and stops
  // where the encoder stopped.
  lemma RoundTrip(v: Value, data: seq<Byte>, position: nat)
    requires Encodable(v) && At(data, position, Encoding(v, position))
    ensures position <= |data| && Decode(KindOf(v), data, position) == Ok(v, position + Size(v, position))
  {
    match v
    case Number(width, n) => NumberDecodes(width, n, data, position);
    case Boolean(b) => AtByte(data, position, if b then BOOLEAN_TRUE else BOOLEAN_FALSE);
    case Map(fields) => AtByte(data, position, (MAP_MARKER as int + fields) as Byte);
    case Bytes(payload) =>
      assert Encoding(v, position) == [BYTES_MARKER] + BigEndian(|payload|, 2) + Zeros(0) + payload;
      BytesDecode(BytesKind, 0, payload, data, position);
    case Padded(payload) =>
      BytesDecode(PaddedKind, Padding(position), payload, data, position);
  }

  // ---- Bytes on the wire ----

  function Octet(n: nat, weight: nat): Byte
    requires weight > 0
  {
    n / weight % 256
  }

  lemma TwoBytes(n: nat)
    ensures BigEndian(n, 2) == [Octet(n, 0x100), Octet(n, 1)]
  {
    assert BigEndian(n / 256, 1) == BigEndian(n / 256 / 256, 0) + [n / 256 % 256];
  }

  lemma FourBytes(n: nat)
    ensures BigEndian(n, 4) == [Octet(n, 0x100_0000), Octet(n, 0x1_0000), Octet(n, 0x100), Octet(n, 1)]
  {
    TwoBytes(n / 0x1_0000);
    assert n / 256 / 256 == n / 0x1_0000;
    assert n / 0x1_0000 / 256 == n / 0x100_0000;
    assert BigEndian(n / 256, 3) == BigEndian(n / 256 / 256, 2) + [n / 256 % 256];
  }

  lemma EightBytes(n: nat)
    ensures BigEndian(n, 8) ==
      [Octet(n, 0x100_0000_0000_0000), Octet(n, 0x1_0000_0000_0000), Octet(n, 0x100_0000_0000), Octet(n, 0x1_0000_0000),
       Octet(n, 0x100_0000), Octet(n, 0x1_0000), Octet(n, 0x100), Octet(n, 1)]
  {
    var a, b, c, d := n / 0x100, n / 0x1_0000, n / 0x100_0000, n / 0x1_0000_0000;
    assert a / 256 == b && b / 256 == c && c / 256 == d;
    assert d / 0x100 == n / 0x100_0000_0000 && d / 0x1_0000 == n / 0x1_0000_0000_0000;
    assert d / 0x100_0000 == n / 0x100_0000_0000_0000;
    FourBytes(d);
    assert BigEndian(c, 5) == BigEndian(d, 4) + [c % 256];
    assert BigEndian(b, 6) == BigEndian(c, 5) + [b % 256];
    assert BigEndian(a, 7) == BigEndian(b, 6) + [a % 256];
  }

  // What a value looks like on the wire, byte by byte.
  lemma Wire(v: Value, position: nat)
    requires Encodable(v)
    ensures match v
      case Number(width, n) =>
        Encoding(v, position) ==
          (if width == 1 then [0x18, n]
           else if width == 2 then [0x19, Octet(n, 0x100), Octet(n, 1)]
           else if width == 4 then [0x1A, Octet(n, 0x100_0000), Octet(n, 0x1_0000), Octet(n, 0x100), Octet(n, 1)]
           else
             [0x1B, Octet(n, 0x100_0000_0000_0000), Octet(n, 0x1_0000_0000_0000), Octet(n, 0x100_0000_0000),
              Octet(n, 0x1_0000_0000), Octet(n, 0x100_0000), Octet(n, 0x1_0000), Octet(n, 0x100), Octet(n, 1)])
      case Boolean(b) => Encoding(v, position) == [if b then 0x15 else 0x14]
      case Map(fields) => Encoding(v, position) == [0xA0 + fields]
      case Bytes(data) => Encoding(v, position) == [0x80, Octet(|data|, 0x100), Octet(|data|, 1)] + data
      case Padded(data) =>
        exists pad :: 0 <= pad < 4 && (position + 3 + pad) % 4 == 0 &&
          Encoding(v, position) == [0x80 + pad, Octet(|data|, 0x100), Octet(|data|, 1)] + [0, 0, 0][..pad] + data
  {
    match v
    case Number(width, n) =>
      if width == 1 {
        assert BigEndian(n, 1) == [n];
      } else if width == 2 {
        TwoBytes(n);
      } else if width == 4 {
        FourBytes(n);
      } else {
        EightBytes(n);
      }
    case Boolean(_) =>
    case Map(_) =>
    case Bytes(data) => TwoBytes(|data|);
    case Padded(data) =>
      TwoBytes(|data|);
      assert Zeros(Padding(position)) == [0, 0, 0][..Padding(position)];
  }

  // ---- Sequences of values ----

  predicate AllEncodable(values: seq<Value>) {
    values != [] ==> Encodable(values[0]) && AllEncodable(values[1..])
  }

  function SizeAll(values: seq<Value>, position: nat): nat {
    if values == [] then 0
    else Size(values[0], position) + SizeAll(values[1..], position + Size(values[0], position))
  }

  lemma SizeAllStep(values: seq<Value>, position: nat)
    requires values != []
    ensures SizeAll(values, position) ==
            Size(values[0], position) + SizeAll(values[1..], position + Size(values[0], position))
  {
  }

  lemma {:induction false} SizeAllConcat(a: seq<Value>, b: seq<Value>, position: nat)
    ensures SizeAll(a + b, position) == SizeAll(a, position) + SizeAll(b, position + SizeAll(a, position))
    decreases |a|
  {
    if a == [] {
      assert a + b == b;
    } else {
      assert (a + b)[1..] == a[1..] + b;
      SizeAllConcat(a[1..], b, position + Size(a[0], position));
    }
  }

  // Values written one after the other by some encoder.
  function Stream(encode: (Value, nat) -> seq<Byte>, values: seq<Value>, position: nat): seq<Byte>
    decreases |values|
  {
    if values == [] then []
    else
      var first := encode(values[0], position);
      first + Stream(encode, values[1..], position + |first|)
  }

  function EncodingAll(values: seq<Value>, position: nat): seq<Byte> {
    Stream(Encoding, values, position)
  }

  lemma {:induction false} StreamSize(values: seq<Value>, position: nat)
    ensures |EncodingAll(values, position)| == SizeAll(values, position)
    decreases |values|
  {
    if values != [] { StreamSize(values[1..], position + Size(values[0], position)); }
  }

  // Each value stands in the data where the one before it ends.
  ghost predicate Chain(encode: (Value, nat) -> seq<Byte>, values: seq<Value>, data: seq<Byte>, position: nat)
    decreases |values|
  {
    if values == [] then position <= |data|
    else
      var first := encode(values[0], position);
      At(data, position, first) && Chain(encode, values[1..], data, position + |first|)
  }

  lemma {:induction false} StreamIsChain(encode: (Value, nat) -> seq<Byte>, values: seq<Value>, data: seq<Byte>,
                                         position: nat)
    ensures At(data, position, Stream(encode, values, position)) <==> Chain(encode, values, data, position)
    decreases |values|
  {
    if values != [] {
      var first := encode(values[0], position);
      StreamIsChain(encode, values[1..], data, position + |first|);
      AtConcat(data, position, first, Stream(encode, values[1..], position + |first|));
    }
  }

  // Some decoder reads the values one after the other.
  ghost predicate ReadsBy(decode: (Kind, seq<Byte>, nat) -> Outcome, values: seq<Value>, data: seq<Byte>, position: nat)
    decreases |values|
  {
    && position <= |data|
    && (values != [] ==>
          var next := position + Size(values[0], position);
          decode(KindOf(values[0]), data, position) == Ok(values[0], next) && ReadsBy(decode, values[1..], data, next))
  }

  ghost predicate Reads(values: seq<Value>, data: seq<Byte>, position: nat) {
    ReadsBy(Decode, values, data, position)
  }

  lemma NextValue(decode: (Kind, seq<Byte>, nat) -> Outcome, v: Value, rest: seq<Value>, data: seq<Byte>, position: nat)
    requires ReadsBy(decode, [v] + rest, data, position)
    ensures position <= |data| && decode(KindOf(v), data, position) == Ok(v, position + Size(v, position))
    ensures ReadsBy(decode, rest, data, position + Size(v, position))
  {
    assert ([v] + rest)[1..] == rest;
  }

  lemma {:induction false} ChainReads(values: seq<Value>, data: seq<Byte>, position: nat)
    requires AllEncodable(values) && Chain(Encoding, values, data, position)
    ensures Reads(values, data, position)
    decreases |values|
  {
    if values != [] {
      RoundTrip(values[0], data, position);
      ChainReads(values[1..], data, position + Size(values[0], position));
    }
  }

  // Decodes a buffer with a sequence of decoders.
  datatype OutcomeAll = AllOk(values: seq<Value>, next: nat) | Failed

  function DecodeAll(kinds: seq<Kind>, data: seq<Byte>, position: nat): OutcomeAll
    requires position <= |data|
  {
    if kinds == [] then AllOk([], position)
    else
      match Decode(kinds[0], data, position)
      case Err(_, _) => Failed
      case Ok(v, next) =>
        match DecodeAll(kinds[1..], data, next)
        case Failed => Failed
        case AllOk(rest, end) => AllOk([v] + rest, end)
  }

  function KindsOf(values: seq<Value>): seq<Kind> {
    if values == [] then [] else [KindOf(values[0])] + KindsOf(values[1..])
  }

  lemma DecodeFirst(kinds: seq<Kind>, data: seq<Byte>, position: nat, v: Value, next: nat, rest: seq<Value>, end: nat)
    requires kinds != [] && position <= |data| && Decode(kinds[0], data, position) == Ok(v, next)
    requires DecodeAll(kinds[1..], data, next) == AllOk(rest, end)
    ensures DecodeAll(kinds, data, position) == AllOk([v] + rest, end)
  {
  }

  lemma KindsFirst(values: seq<Value>)
    requires values != []
    ensures KindsOf(values) != [] && KindsOf(values)[0] == KindOf(values[0])
    ensures KindsOf(values)[1..] == KindsOf(values[1..])
    ensures values == [values[0]] + values[1..]
  {
  }

  lemma {:induction false} ReadsAll(values: seq<Value>, data: seq<Byte>, position: nat)
    requires Reads(values, data, position)
    ensures DecodeAll(KindsOf(values), data, position) == AllOk(values, position + SizeAll(values, position))
    decreases |values|
  {
    if values != [] {
      var next := position + Size(values[0], position);
      ReadsAll(values[1..], data, next);
      KindsFirst(values);
      DecodeFirst(KindsOf(values), data, position, values[0], next, values[1..], position + SizeAll(values, position));
    }
  }

  // Values encoded behind any bytes decode to the same values, whatever follows.
  lemma EncodedReads(front: seq<Byte>, values: seq<Value>, back: seq<Byte>)
    requires AllEncodable(values)
    ensures Reads(values, front + EncodingAll(values, |front|) + back, |front|)
  {
    var s := EncodingAll(values, |front|);
    var data := front + s + back;
    assert data[|front|..|front| + |s|] == s;
    AtSlice(data, |front|, s);
    StreamIsChain(Encoding, values, data, |front|);
    ChainReads(values, data, |front|);
  }

  lemma StreamRoundTrip(front: seq<Byte>, values: seq<Value>, back: seq<Byte>)
    requires AllEncodable(values)
    ensures DecodeAll(KindsOf(values), front + EncodingAll(values, |front|) + back, |front|) ==
            AllOk(values, |front| + SizeAll(values, |front|))
  {
    EncodedReads(front, values, back);
    ReadsAll(values, front + EncodingAll(values, |front|) + back, |front|);
  }

  // ---- What the decoders accept ----

  // A boolean decoder takes any marker, and a padded one any padding of zeros;
  // the encoders write only these.
  predicate Canonical(kind: Kind, marker: Byte, position: nat) {
    match kind
    case BooleanKind => marker == BOOLEAN_FALSE || marker == BOOLEAN_TRUE
    case PaddedKind => marker % 4 == Padding(position)
    case _ => true
  }

  // A boolean decoder takes every marker but the one for true for false, and so
  // reads back only what these two markers stand for.
  lemma BooleanMarkers(data: seq<Byte>, position: nat)
    requires position < |data|
    ensures var r := Decode(BooleanKind, data, position);
      && r == Ok(Boolean(data[position] == BOOLEAN_TRUE), position + 1)
      && (data[position] != BOOLEAN_FALSE && data[position] != BOOLEAN_TRUE ==>
            r.value == Boolean(false) && !At(data, position, Encoding(r.value, position)))
  {
    AtByte(data, position, BOOLEAN_FALSE);
  }

  lemma PayloadAccepted(kind: Kind, pad: nat, data: seq<Byte>, position: nat)
    requires kind.BytesKind? || kind.PaddedKind?
    requires position <= |data| && DecodePayload(kind, pad, data, position).Ok?
    ensures var v := DecodePayload(kind, pad, data, position).value;
      && v == ToValue(kind, v.data) && |v.data| < 0x1_0000 && At(data, position, BigEndian(|v.data|, 2))
      && At(data, position + 2, Zeros(pad)) && At(data, position + 2 + pad, v.data)
  {
    var payload := DecodePayload(kind, pad, data, position).value.data;
    var size := data[position..position + 2];
    assert |payload| == FromBigEndian(size);
    BytesRoundTrip(size);
    assert Limit(2) == 256 * Limit(1);
    AtSlice(data, position, size);
    AtZeros(data, position + 2, pad);
    AtSlice(data, position + 2 + pad, payload);
  }

  lemma BytesAccepted(kind: Kind, pad: nat, marker: Byte, data: seq<Byte>, position: nat, v: Value)
    requires (kind.BytesKind? && pad == 0) || (kind.PaddedKind? && pad < 4)
    requires position < |data| && data[position] == marker
    requires DecodePayload(kind, pad, data, position + 1).Ok? && DecodePayload(kind, pad, data, position + 1).value == v
    ensures v == ToValue(kind, v.data) && |v.data| < 0x1_0000
    ensures At(data, position, [marker] + BigEndian(|v.data|, 2) + Zeros(pad) + v.data)
  {
    PayloadAccepted(kind, pad, data, position + 1);
    AtJoin(data, position, marker, BigEndian(|v.data|, 2), Zeros(pad), v.data);
  }

  lemma NumberAccepted(width: nat, data: seq<Byte>, position: nat)
    requires IsWidth(width) && position < |data| && Decode(NumberKind(width), data, position).Ok?
    ensures var v := Decode(NumberKind(width), data, position).value;
      && v.Number? && v.width == width && v.n < Limit(width)
      && At(data, position, [NumberMarker(width)] + BigEndian(v.n, width))
  {
    var n := Decode(NumberKind(width), data, position).value.n;
    BytesRoundTrip(data[position + 1..position + 1 + width]);
    AtByte(data, position, NumberMarker(width));
    AtSlice(data, position + 1, BigEndian(n, width));
    AtConcat(data, position, [NumberMarker(width)], BigEndian(n, width));
  }

  ghost predicate AcceptedExactly(kind: Kind, data: seq<Byte>, position: nat, v: Value)
    requires position < |data|
  {
    && Encodable(v) && KindOf(v) == kind
    && (At(data, position, Encoding(v, position)) <==> Canonical(kind, data[position], position))
  }

  lemma BytesAcceptedExactly(data: seq<Byte>, position: nat)
    requires position < |data| && Decode(BytesKind, data, position).Ok?
    ensures AcceptedExactly(BytesKind, data, position, Decode(BytesKind, data, position).value)
  {
    var v := Decode(BytesKind, data, position).value;
    BytesAccepted(BytesKind, 0, BYTES_MARKER, data, position, v);
    assert Encoding(v, position) == [BYTES_MARKER] + BigEndian(|v.data|, 2) + Zeros(0) + v.data;
  }

  lemma PaddedAcceptedExactly(data: seq<Byte>, position: nat)
    requires position < |data| && Decode(PaddedKind, data, position).Ok?
    ensures AcceptedExactly(PaddedKind, data, position, Decode(PaddedKind, data, position).value)
  {
    var v, pad := Decode(PaddedKind, data, position).value, data[position] % 4;
    BytesAccepted(PaddedKind, pad, data[position], data, position, v);
    if pad != Padding(position) {
      assert Encoding(v, position)[0] == BYTES_MARKER as int + Padding(position);
    }
  }

  // What a decoder accepts is what an encoder would have written, exactly when
  // the marker is canonical.
  lemma AcceptsExactly(kind: Kind, data: seq<Byte>, position: nat)
    requires position < |data| && (kind.NumberKind? ==> IsWidth(kind.width))
    requires Decode(kind, data, position).Ok?
    ensures AcceptedExactly(kind, data, position, Decode(kind, data, position).value)
  {
    var v := Decode(kind, data, position).value;
    match kind
    case NumberKind(width) => NumberAccepted(width, data, position);
    case BooleanKind => AtByte(data, position, Encoding(v, position)[0]);
    case MapKind => AtByte(data, position, Encoding(v, position)[0]);
    case BytesKind => BytesAcceptedExactly(data, position);
    case PaddedKind => PaddedAcceptedExactly(data, position);
  }
}
