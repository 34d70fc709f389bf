// The MBOR encoder and decoder of AziHsmMbor.c, which write and read a buffer in
// place at an advancing position.
module MborCodec {
  import opened Common
  import opened Mbor

  datatype Status = Success | Failure(error: Error) | AlreadyStarted

  // AZIHSM_MBOR_ENCODER. A null buffer is an encoder that was not initialized.
  class Encoder {
    var buffer: array?<Byte>
    var capacity: nat
    var position: nat

    ghost predicate Valid()
      reads this
    {
      position <= capacity < 0x1_0000 && (if buffer == null then capacity == 0 else capacity <= buffer.Length)
    }

    // What has been written.
    ghost function Contents(): seq<Byte>
      reads this, buffer
      requires Valid()
    {
      if buffer == null then [] else buffer[..position]
    }

    constructor ()
      ensures Valid() && buffer == null
    {
      buffer, capacity, position := null, 0, 0;
    }

    // AziHsmMborEncoderInit.
    method Init(memory: array<Byte>, size: nat) returns (status: Status)
      requires Valid() && size <= memory.Length && size < 0x1_0000
      modifies this
      ensures Valid()
      ensures status == if size == 0 then Failure(InvalidParameter)
                        else if old(buffer) != null then AlreadyStarted else Success
      ensures if status.Success? then buffer == memory && capacity == size && Contents() == [] else unchanged(this)
    {
      if size == 0 { return Failure(InvalidParameter); }
      if buffer != null { return AlreadyStarted; }
      buffer, capacity, position := memory, size, 0;
      return Success;
    }

    // AziHsmMborEncoderReset.
    method Reset()
      requires Valid()
      modifies this
      ensures Valid() && buffer == null
    {
      buffer, capacity, position := null, 0, 0;
    }

    // AziHsmMborEncoderEncode and AziHsmMborEncodeMarker: writes all the bytes or none.
    method Write(s: seq<Byte>) returns (status: Status)
      requires Valid() && buffer != null
      modifies this`position, buffer
      ensures Valid() && Wrote(old(Contents()), s, Contents(), capacity, status)
      ensures forall i :: position <= i < buffer.Length ==> buffer[i] == old(buffer[i])
    {
      if position + |s| > capacity { return Failure(BufferTooSmall); }
      for i := 0 to |s|
        invariant Valid() && position == old(position)
        invariant forall k :: 0 <= k < buffer.Length && !(position <= k < position + i) ==> buffer[k] == old(buffer[k])
        invariant forall k :: 0 <= k < i ==> buffer[position + k] == s[k]
      {
        buffer[position + i] := s[i];
      }
      position := position + |s|;
      assert buffer[..position] == old(buffer[..position]) + s;
      return Success;
    }

    // AziHsmMborEncodeU8, U16, U32 and U64.
    method EncodeNumber(width: nat, n: nat) returns (status: Status)
      requires Valid() && Encodable(Number(width, n))
      modifies this`position, buffer
      ensures Valid()
      ensures if buffer == null then status == Failure(InvalidParameter) && unchanged(this)
              else Wrote(old(Contents()), Encoding(Number(width, n), old(position)), Contents(), capacity, status)
    {
      if buffer == null { return Failure(InvalidParameter); }
      ghost var was := Contents();
      status := Write([NumberMarker(width)]);
      if !status.Success? { WroteShort(was, [NumberMarker(width)], BigEndian(n, width), Contents(), capacity); return; }
      ghost var mid := Contents();
      status := Write(BigEndian(n, width));
      WroteBoth(was, [NumberMarker(width)], mid, BigEndian(n, width), Contents(), capacity, status);
    }

    // AziHsmMborEncodeBoolean.
    method EncodeBoolean(b: bool) returns (status: Status)
      requires Valid()
      modifies this`position, buffer
      ensures Valid()
      ensures if buffer == null then status == Failure(InvalidParameter) && unchanged(this)
              else Wrote(old(Contents()), Encoding(Boolean(b), old(position)), Contents(), capacity, status)
    {
      if buffer == null { return Failure(InvalidParameter); }
      status := Write([if b then BOOLEAN_TRUE else BOOLEAN_FALSE]);
    }

    // AziHsmMborEncodeMap.
    method EncodeMap(fields: nat) returns (status: Status)
      requires Valid()
      modifies this`position, buffer
      ensures Valid()
      ensures if buffer == null || fields > MAP_FIELDS_MAX
              then status == Failure(InvalidParameter) && position == old(position)
              else Wrote(old(Contents()), Encoding(Map(fields), old(position)), Contents(), capacity, status)
    {
      if fields > MAP_FIELDS_MAX || buffer == null { return Failure(InvalidParameter); }
      status := Write([(MAP_MARKER as int + fields) as Byte]);
    }

    // The marker and length of bytes.
    method WriteHeader(marker: Byte, length: nat) returns (status: Status)
      requires Valid() && buffer != null
      modifies this`position, buffer
      ensures Valid() && Wrote(old(Contents()), [marker] + BigEndian(length, 2), Contents(), capacity, status)
    {
      ghost var was := Contents();
      status := Write([marker]);
      if !status.Success? { WroteShort(was, [marker], BigEndian(length, 2), Contents(), capacity); return; }
      ghost var mid := Contents();
      status := Write(BigEndian(length, 2));
      WroteBoth(was, [marker], mid, BigEndian(length, 2), Contents(), capacity, status);
    }

    // AziHsmMborEncodeBytes.
    method EncodeBytes(data: seq<Byte>) returns (status: Status)
      requires Valid() && |data| < 0x1_0000
      modifies this`position, buffer
      ensures Valid()
      ensures if buffer == null then status == Failure(InvalidParameter) && unchanged(this)
              else Wrote(old(Contents()), Encoding(Bytes(data), old(position)), Contents(), capacity, status)
    {
      if buffer == null { return Failure(InvalidParameter); }
      ghost var was, header := Contents(), [BYTES_MARKER] + BigEndian(|data|, 2);
      status := WriteHeader(BYTES_MARKER, |data|);
      if !status.Success? { WroteShort(was, header, data, Contents(), capacity); return; }
      ghost var mid := Contents();
      status := Write(data);
      WroteBoth(was, header, mid, data, Contents(), capacity, status);
    }

    // The zeros of padded bytes, one by one.
    method WriteZeros(count: nat) returns (status: Status)
      requires Valid() && buffer != null
      modifies this`position, buffer
      ensures Valid() && Wrote(old(Contents()), Zeros(count), Contents(), capacity, status)
    {
      status := Success;
      ghost var was := Contents();
      for i := 0 to count
        invariant Valid() && status.Success? && Wrote(was, Zeros(i), Contents(), capacity, Success)
      {
        ghost var mid := Contents();
        status := Write([0]);
        WroteBoth(was, Zeros(i), mid, [0], Contents(), capacity, status);
        assert Zeros(i + 1) == Zeros(i) + [0];
        if !status.Success? {
          ZerosJoin(i + 1, count - i - 1);
          WroteShort(was, Zeros(i + 1), Zeros(count - i - 1), Contents(), capacity);
          return;
        }
      }
    }

    // AziHsmMborEncodePaddedBytes.
    method EncodePaddedBytes(data: seq<Byte>) returns (status: Status)
      requires Valid() && |data| < 0x1_0000
      modifies this`position, buffer
      ensures Valid()
      ensures if buffer == null then status == Failure(InvalidParameter) && unchanged(this)
              else Wrote(old(Contents()), Encoding(Padded(data), old(position)), Contents(), capacity, status)
    {
      if buffer == null { return Failure(InvalidParameter); }
      var pad := Padding(position);
      var marker: Byte := (BYTES_MARKER as int + pad) as Byte;
      ghost var was, header, zeros := Contents(), [marker] + BigEndian(|data|, 2), Zeros(pad);
      status := WriteHeader(marker, |data|);
      if !status.Success? {
        WroteShort(was, header, zeros, Contents(), capacity);
        WroteShort(was, header + zeros, data, Contents(), capacity);
        return;
      }
      ghost var mid := Contents();
      status := WriteZeros(pad);
      WroteBoth(was, header, mid, zeros, Contents(), capacity, status);
      if !status.Success? { WroteShort(was, header + zeros, data, Contents(), capacity); return; }
      assert position % 4 == 0;
      mid := Contents();
      status := Write(data);
      WroteBoth(was, header + zeros, mid, data, Contents(), capacity, status);
    }

    method EncodeValue(v: Value) returns (status: Status)
      requires Valid() && buffer != null && Encodable(v)
      modifies this`position, buffer
      ensures Valid() && Wrote(old(Contents()), Encoding(v, old(position)), Contents(), capacity, status)
    {
      match v {
        case Number(width, n) => status := EncodeNumber(width, n);
        case Boolean(b) => status := EncodeBoolean(b);
        case Map(fields) => status := EncodeMap(fields);
        case Bytes(data) => status := EncodeBytes(data);
        case Padded(data) => status := EncodePaddedBytes(data);
      }
    }

    // Encodes one value after the other, up to the first that does not fit.
    method EncodeAll(values: seq<Value>) returns (status: Status)
      requires Valid() && buffer != null && AllEncodable(values)
      modifies this`position, buffer
      ensures Valid() && Wrote(old(Contents()), EncodingAll(values, old(position)), Contents(), capacity, status)
      decreases |values|
    {
      status := Success;
      ghost var was := Contents();
      if values == [] { return; }
      ghost var first, rest := Split(values, position);
      status := EncodeValue(values[0]);
      if !status.Success? { WroteShort(was, first, rest, Contents(), capacity); return; }
      ghost var mid := Contents();
      status := EncodeAll(values[1..]);
      WroteBoth(was, first, mid, rest, Contents(), capacity, status);
    }
  }

  // The encoding of the first value and that of the others.
  lemma Split(values: seq<Value>, position: nat) returns (first: seq<Byte>, rest: seq<Byte>)
    requires values != []
    ensures first == Encoding(values[0], position) && |first| == Size(values[0], position)
    ensures rest == EncodingAll(values[1..], position + |first|) && EncodingAll(values, position) == first + rest
  {
    first := Encoding(values[0], position);
    rest := EncodingAll(values[1..], position + |first|);
  }

  // AZIHSM_MBOR_DECODER.
  class Decoder {
    var buffer: array?<Byte>
    var capacity: nat
    var position: nat

    ghost predicate Valid()
      reads this
    {
      position <= capacity < 0x1_0000 && Sized()
    }

    ghost predicate Sized()
      reads this`buffer, this`capacity
    {
      if buffer == null then capacity == 0 else capacity <= buffer.Length
    }

    ghost function Data(): (s: seq<Byte>)
      reads this`buffer, this`capacity, buffer
      requires Sized()
      ensures |s| == capacity
    {
      if buffer == null then [] else buffer[..capacity]
    }

    constructor ()
      ensures Valid() && buffer == null
    {
      buffer, capacity, position := null, 0, 0;
    }

    // AziHsmMborDecoderInit.
    method Init(memory: array<Byte>, size: nat) returns (status: Status)
      requires Valid() && size <= memory.Length && size < 0x1_0000
      modifies this
      ensures Valid()
      ensures status == if size == 0 then Failure(InvalidParameter)
                        else if old(buffer) != null then AlreadyStarted else Success
      ensures if status.Success? then buffer == memory && capacity == size && position == 0 else unchanged(this)
    {
      if size == 0 { return Failure(InvalidParameter); }
      if buffer != null { return AlreadyStarted; }
      buffer, capacity, position := memory, size, 0;
      return Success;
    }

    // AziHsmMborDecoderDecode.
    method Read(length: nat) returns (status: Status, s: seq<Byte>)
      requires Valid()
      modifies this`position
      ensures Valid()
      ensures status == if buffer == null then Failure(NotReady)
                        else if old(position) + length <= capacity then Success else Failure(BufferTooSmall)
      ensures status.Success? ==> position == old(position) + length && s == Data()[old(position)..position]
      ensures !status.Success? ==> position == old(position)
    {
      s := [];
      if buffer == null { return Failure(NotReady), s; }
      if position + length > capacity { return Failure(BufferTooSmall), s; }
      s := buffer[position..position + length];
      assert s == buffer[..capacity][position..position + length];
      position := position + length;
      return Success, s;
    }

    // AziHsmMborDecodeU8, U16, U32 and U64.
    method DecodeNumber(width: nat) returns (status: Status, n: nat)
      requires Valid() && IsWidth(width)
      modifies this`position
      ensures Valid()
      ensures if buffer == null then status == Failure(NotReady) && position == old(position)
              else Tells(Decode(NumberKind(width), Data(), old(position)), status, position, Number(width, n))
    {
      var s;
      n := 0;
      status, s := Read(1);
      if !status.Success? { return; }
      assert s[0] == Data()[old(position)];
      if s[0] != NumberMarker(width) { status := Failure(CompromisedData); return; }
      status, s := Read(width);
      if !status.Success? { return; }
      n := FromBigEndian(s);
    }

    // AziHsmMborDecodeBoolean.
    method DecodeBoolean() returns (status: Status, b: bool)
      requires Valid()
      modifies this`position
      ensures Valid()
      ensures if buffer == null then status == Failure(NotReady) && position == old(position)
              else Tells(Decode(BooleanKind, Data(), old(position)), status, position, Boolean(b))
    {
      var s;
      b := false;
      status, s := Read(1);
      if !status.Success? { return; }
      b := s[0] == BOOLEAN_TRUE;
    }

    // AziHsmMborDecodeMap.
    method DecodeMap() returns (status: Status, fields: nat)
      requires Valid()
      modifies this`position
      ensures Valid()
      ensures if buffer == null then status == Failure(NotReady) && position == old(position)
              else Tells(Decode(MapKind, Data(), old(position)), status, position, Map(fields))
    {
      var s;
      fields := 0;
      status, s := Read(1);
      if !status.Success? { return; }
      if s[0] / 16 != MAP_MARKER / 16 { status := Failure(CompromisedData); return; }
      fields := s[0] % 16;
    }

    // The length of bytes, and the check that padding and payload fit.
    method ReadLength(pad: nat) returns (status: Status, length: nat)
      requires Valid() && buffer != null
      modifies this`position
      ensures Valid() && (status.Success? || status == Failure(BufferTooSmall))
      ensures old(position) + 2 > capacity ==> !status.Success? && position == old(position)
      ensures old(position) + 2 <= capacity ==>
        && position == old(position) + 2
        && (status.Success? <==> position + pad + FromBigEndian(Data()[old(position)..position]) <= capacity)
        && (status.Success? ==> length == FromBigEndian(Data()[old(position)..position]))
    {
      var s;
      length := 0;
      status, s := Read(2);
      if !status.Success? { return; }
      length := FromBigEndian(s);
      if position + length + pad > capacity { status := Failure(BufferTooSmall); }
    }

    // AziHsmMborDecoderDecode into a buffer of the caller's.
    method ReadInto(target: array<Byte>, length: nat) returns (status: Status)
      requires Valid() && buffer != null && target != buffer
      requires position + length <= capacity ==> length <= target.Length
      modifies this`position, target
      ensures Valid() && status == if old(position) + length <= capacity then Success else Failure(BufferTooSmall)
      ensures status.Success? ==>
        && position == old(position) + length
        && target[..length] == Data()[old(position)..position] && target[length..] == old(target[length..])
      ensures !status.Success? ==> position == old(position) && target[..] == old(target[..])
    {
      if position + length > capacity { return Failure(BufferTooSmall); }
      for i := 0 to length
        invariant Valid() && position == old(position) && Data() == old(Data())
        invariant target[..i] == Data()[position..position + i] && target[i..] == old(target[i..])
      {
        target[i] := buffer[position + i];
        assert target[..i + 1] == target[..i] + [target[i]];
        assert Data()[position..position + i + 1] == Data()[position..position + i] + [Data()[position + i]];
        assert target[i + 1..] == old(target[i + 1..]);
      }
      position := position + length;
      return Success;
    }

    // AziHsmMborDecodeBytes. The buffer it copies to must hold any payload that the
    // data gives.
    method DecodeBytes(target: array<Byte>) returns (status: Status, length: nat)
      requires Valid() && target != buffer && Room(Decode(BytesKind, Data(), position), target.Length)
      modifies this`position, target
      ensures Valid()
      ensures if buffer == null then status == Failure(NotReady) && position == old(position)
              else Tells(Decode(BytesKind, Data(), old(position)), status, position, Bytes(Filled(target[..], length)))
      ensures !status.Success? ==> target[..] == old(target[..])
      ensures status.Success? ==> length <= target.Length && target[length..] == old(target[length..])
    {
      var s;
      length := 0;
      status, s := Read(1);
      if !status.Success? { return; }
      if s[0] != BYTES_MARKER { status := Failure(CompromisedData); return; }
      status, length := ReadLength(0);
      if !status.Success? { return; }
      status := ReadInto(target, length);
    }

    // The zeros of padded bytes.
    method ReadZeros(count: nat) returns (status: Status)
      requires Valid() && buffer != null && position + count <= capacity
      modifies this`position
      ensures Valid() && (status.Success? || status == Failure(CompromisedData))
      ensures var end := FirstNonZero(Data(), old(position), old(position) + count);
        && (status.Success? <==> end == old(position) + count)
        && position == if status.Success? then end else end + 1
    {
      status := Success;
      var left, s := count, [];
      while left > 0
        invariant Valid() && status.Success? && 0 <= left <= count && position + left == old(position) + count
        invariant FirstNonZero(Data(), position, old(position) + count) ==
                  FirstNonZero(Data(), old(position), old(position) + count)
      {
        status, s := Read(1);
        if s[0] != 0 { status := Failure(CompromisedData); return; }
        left := left - 1;
      }
    }

    // The length, padding and payload of padded bytes.
    method ReadPadded(pad: nat, target: array<Byte>) returns (status: Status, length: nat)
      requires Valid() && buffer != null && target != buffer
      requires Room(DecodePayload(PaddedKind, pad, Data(), position), target.Length)
      modifies this`position, target
      ensures Valid()
      ensures Tells(DecodePayload(PaddedKind, pad, Data(), old(position)), status, position,
                    Padded(Filled(target[..], length)))
      ensures !status.Success? ==> target[..] == old(target[..])
      ensures status.Success? ==> length <= target.Length && target[length..] == old(target[length..])
    {
      status, length := ReadLength(pad);
      if status.Success? { status := ReadBody(pad, length, target); }
    }

    // The padding and payload, which are known to be there.
    method ReadBody(pad: nat, length: nat, target: array<Byte>) returns (status: Status)
      requires Valid() && buffer != null && target != buffer && position + pad + length <= capacity
      requires Room(DecodeBody(PaddedKind, pad, length, Data(), position), target.Length)
      modifies this`position, target
      ensures Valid()
      ensures Tells(DecodeBody(PaddedKind, pad, length, Data(), old(position)), status, position,
                    Padded(Filled(target[..], length)))
      ensures !status.Success? ==> target[..] == old(target[..])
      ensures status.Success? ==> length <= target.Length && target[length..] == old(target[length..])
    {
      status := ReadZeros(pad);
      if !status.Success? { return; }
      status := ReadInto(target, length);
    }

    // AziHsmMborDecodePaddedBytes.
    method DecodePaddedBytes(target: array<Byte>) returns (status: Status, length: nat)
      requires Valid() && target != buffer && Room(Decode(PaddedKind, Data(), position), target.Length)
      modifies this`position, target
      ensures Valid()
      ensures if buffer == null then status == Failure(NotReady) && position == old(position)
              else Tells(Decode(PaddedKind, Data(), old(position)), status, position,
                         Padded(Filled(target[..], length)))
      ensures !status.Success? ==> target[..] == old(target[..])
      ensures status.Success? ==> length <= target.Length && target[length..] == old(target[length..])
    {
      var s;
      length := 0;
      status, s := Read(1);
      if !status.Success? { return; }
      assert s[0] == Data()[old(position)];
      if s[0] / 4 != BYTES_MARKER / 4 { status := Failure(CompromisedData); return; }
      status, length := ReadPadded(s[0] % 4, target);
    }

    // Any of the decoders. Bytes are copied to a buffer as large as the data.
    method DecodeValue(kind: Kind) returns (status: Status, v: Value)
      requires Valid() && buffer != null && (kind.NumberKind? ==> IsWidth(kind.width))
      modifies this`position
      ensures Valid() && Tells(Decode(kind, Data(), old(position)), status, position, v)
    {
      match kind {
        case NumberKind(width) =>
          var n;
          status, n := DecodeNumber(width);
          v := Number(width, n);
        case BooleanKind =>
          var b;
          status, b := DecodeBoolean();
          v := Boolean(b);
        case MapKind =>
          var fields;
          status, fields := DecodeMap();
          v := Map(fields);
        case BytesKind =>
          var target, length := new Byte[capacity](i => 0), 0;
          status, length := DecodeBytes(target);
          v := Bytes(Filled(target[..], length));
        case PaddedKind =>
          var target, length := new Byte[capacity](i => 0), 0;
          status, length := DecodePaddedBytes(target);
          v := Padded(Filled(target[..], length));
      }
    }
  }

  // The part of a buffer that was filled.
  function Filled(target: seq<Byte>, length: nat): seq<Byte> {
    if length <= |target| then target[..length] else []
  }

  // A payload that is decoded fits.
  ghost predicate Room(r: Outcome, size: nat) {
    r.Ok? && (r.value.Bytes? || r.value.Padded?) ==> |r.value.data| <= size
  }

  // A decoder's answer is what the outcome says.
  ghost predicate Tells(r: Outcome, status: Status, position: nat, v: Value) {
    match r
    case Ok(value, next) => status.Success? && position == next && v == value
    case Err(error, next) => status == Failure(error) && position == next
  }

  // A write of s that did not fit left a part of s that did.
  ghost predicate Wrote(was: seq<Byte>, s: seq<Byte>, now: seq<Byte>, capacity: nat, status: Status) {
    && |was| <= |now| <= |was| + |s| && now == was + s[..|now| - |was|]
    && status == (if |was| + |s| <= capacity then Success else Failure(BufferTooSmall))
    && (status.Success? ==> now == was + s)
  }

  lemma WroteBoth(was: seq<Byte>, a: seq<Byte>, mid: seq<Byte>, b: seq<Byte>, now: seq<Byte>, capacity: nat,
                  status: Status)
    requires Wrote(was, a, mid, capacity, Success) && Wrote(mid, b, now, capacity, status)
    ensures Wrote(was, a + b, now, capacity, status)
  {
    var n := |now| - |mid|;
    assert (a + b)[..|a| + n] == a + b[..n];
    assert was + (a + b[..n]) == (was + a) + b[..n];
    assert was + (a + b) == (was + a) + b;
  }

  lemma WroteShort(was: seq<Byte>, a: seq<Byte>, b: seq<Byte>, now: seq<Byte>, capacity: nat)
    requires Wrote(was, a, now, capacity, Failure(BufferTooSmall))
    ensures Wrote(was, a + b, now, capacity, Failure(BufferTooSmall))
  {
    assert (a + b)[..|now| - |was|] == a[..|now| - |was|];
  }

  lemma {:induction false} ZerosJoin(m: nat, n: nat)
    ensures Zeros(m + n) == Zeros(m) + Zeros(n)
  {
  }

  // ---- Encode, then decode ----

  lemma AnyEncodable(values: seq<Value>)
    requires AllEncodable(values) && values != []
    ensures AllEncodable(values[1..]) && (values[0].Number? ==> IsWidth(values[0].width))
    ensures values == [values[0]] + values[1..]
  {
  }

  // Any values that fit are written and read back, from the same memory, and the
  // decoder stops where the encoder stopped.
  method EncodeThenDecode(memory: array<Byte>, size: nat, values: seq<Value>)
    returns (ok: bool, got: seq<Value>, written: nat, read: nat)
    requires 0 < size <= memory.Length && size < 0x1_0000 && AllEncodable(values)
    modifies memory
    ensures ok <==> SizeAll(values, 0) <= size
    ensures ok ==> got == values && written == read == SizeAll(values, 0)
  {
    ok, written := EncodeInto(memory, size, values);
    got, read := [], 0;
    if ok { got, read := DecodeFrom(memory, size, values); }
  }

  method EncodeInto(memory: array<Byte>, size: nat, values: seq<Value>) returns (ok: bool, written: nat)
    requires 0 < size <= memory.Length && size < 0x1_0000 && AllEncodable(values)
    modifies memory
    ensures ok <==> SizeAll(values, 0) <= size
    ensures ok ==> written == SizeAll(values, 0) <= memory.Length && memory[..written] == EncodingAll(values, 0)
  {
    var encoder := new Encoder();
    var status := encoder.Init(memory, size);
    status := encoder.EncodeAll(values);
    StreamSize(values, 0);
    WroteAll(EncodingAll(values, 0), encoder.Contents(), encoder.capacity, status);
    ok, written := status.Success?, encoder.position;
  }

  lemma WroteAll(s: seq<Byte>, now: seq<Byte>, capacity: nat, status: Status)
    requires Wrote([], s, now, capacity, status)
    ensures (status.Success? <==> |s| <= capacity) && (status.Success? ==> now == s)
  {
    assert [] + s == s;
  }

  method DecodeFrom(memory: array<Byte>, size: nat, values: seq<Value>) returns (got: seq<Value>, read: nat)
    requires 0 < size <= memory.Length && size < 0x1_0000 && AllEncodable(values)
    requires SizeAll(values, 0) <= size && memory[..SizeAll(values, 0)] == EncodingAll(values, 0)
    ensures got == values && read == SizeAll(values, 0)
  {
    var decoder := new Decoder();
    var status := decoder.Init(memory, size);
    ghost var back := memory[..size][SizeAll(values, 0)..];
    assert decoder.Data() == [] + EncodingAll(values, 0) + back;
    EncodedReads([], values, back);
    got := DecodeEach(decoder, values, Decode);
    read := decoder.position;
  }

  ghost predicate IsDecode(decode: (Kind, seq<Byte>, nat) -> Outcome) {
    forall kind, data, position: nat {:trigger Decode(kind, data, position)} ::
      decode(kind, data, position) == Decode(kind, data, position)
  }

  // Decodes one value after the other with the decoders of the values expected.
  method DecodeEach(decoder: Decoder, values: seq<Value>, ghost decode: (Kind, seq<Byte>, nat) -> Outcome)
    returns (got: seq<Value>)
    requires decoder.Valid() && decoder.buffer != null && AllEncodable(values)
    requires IsDecode(decode) && ReadsBy(decode, values, decoder.Data(), decoder.position)
    modifies decoder`position
    ensures decoder.Valid() && got == values
    ensures decoder.position == old(decoder.position) + SizeAll(values, old(decoder.position))
    decreases |values|
  {
    got := [];
    if values == [] { return; }
    AnyEncodable(values);
    SizeAllStep(values, decoder.position);
    var v := DecodeExpected(decoder, values[0], values[1..], decode);
    var rest := DecodeEach(decoder, values[1..], decode);
    got := [v] + rest;
  }

  method DecodeExpected(decoder: Decoder, expected: Value, ghost rest: seq<Value>,
                        ghost decode: (Kind, seq<Byte>, nat) -> Outcome)
    returns (v: Value)
    requires decoder.Valid() && decoder.buffer != null && (expected.Number? ==> IsWidth(expected.width))
    requires IsDecode(decode) && ReadsBy(decode, [expected] + rest, decoder.Data(), decoder.position)
    modifies decoder`position
    ensures decoder.Valid() && v == expected
    ensures decoder.position == old(decoder.position) + Size(expected, old(decoder.position))
    ensures ReadsBy(decode, rest, decoder.Data(), decoder.position)
  {
    NextValue(decode, expected, rest, decoder.Data(), decoder.position);
    var status;
    status, v := decoder.DecodeValue(KindOf(expected));
  }
}
