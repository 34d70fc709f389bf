// The response header of AziHsmDdi.c: a map of fields in any order, each with an
// identifier, of which three are required and two optional.
module ResponseHeader {
  import opened Common
  import opened Mbor
  import opened MborCodec

  datatype ApiRev = ApiRev(major: nat, minor: nat)

  // AZIHSM_DDI_RSP_HDR. An optional field has a value and a validity flag.
  datatype Header = Header(revValid: bool, rev: ApiRev, op: nat, sessionValid: bool, session: nat, ddiStatus: nat,
                           fips: bool)

  const REVISION := 1
  const OPERATION := 2
  const SESSION := 3
  const DDI_STATUS := 4
  const FIPS := 5
  const REQUIRED: set<nat> := {OPERATION, DDI_STATUS, FIPS}

  datatype HeaderError = Decoding(error: Error) | ProtocolError | Unsupported

  datatype Result<T> = Done(value: T, next: nat) | Fail(error: HeaderError, next: nat)

  // ---- Decoding ----

  // One field of an API revision. A field seen twice overwrites the first.
  function DecodeRevisionField(data: seq<Byte>, position: nat, rev: ApiRev): (r: Result<ApiRev>)
    requires position <= |data|
    ensures r.next <= |data|
  {
    match Decode(NumberKind(1), data, position)
    case Err(e, next) => Fail(Decoding(e), next)
    case Ok(id, next) =>
      if id.n != 1 && id.n != 2 then Fail(Unsupported, next)
      else
        match Decode(NumberKind(4), data, next)
        case Err(e, end) => Fail(Decoding(e), end)
        case Ok(v, end) => Done(if id.n == 1 then rev.(major := v.n) else rev.(minor := v.n), end)
  }

  // DecodeApiRevision, into a revision that holds before.
  function DecodeRevision(data: seq<Byte>, position: nat, before: ApiRev): (r: Result<ApiRev>)
    requires position <= |data|
    ensures r.next <= |data|
  {
    match Decode(MapKind, data, position)
    case Err(e, next) => Fail(Decoding(e), next)
    case Ok(m, next) =>
      if m.fields != 2 then Fail(ProtocolError, next)
      else
        match DecodeRevisionField(data, next, before)
        case Fail(e, end) => Fail(e, end)
        case Done(rev, end) => DecodeRevisionField(data, end, rev)
  }

  // The content of the field with this identifier.
  function DecodeContent(id: nat, data: seq<Byte>, position: nat, h: Header): (r: Result<Header>)
    requires position <= |data| && 1 <= id <= 5
    ensures r.next <= |data|
  {
    if id == REVISION then
      match DecodeRevision(data, position, h.rev)
      case Fail(e, next) => Fail(e, next)
      case Done(rev, next) => Done(h.(revValid := true, rev := rev), next)
    else
      var kind := if id == SESSION then NumberKind(2) else if id == FIPS then BooleanKind else NumberKind(4);
      match Decode(kind, data, position)
      case Err(e, next) => Fail(Decoding(e), next)
      case Ok(v, next) =>
        Done(if id == OPERATION then h.(op := v.n)
             else if id == SESSION then h.(sessionValid := true, session := v.n)
             else if id == DDI_STATUS then h.(ddiStatus := v.n)
             else h.(fips := v.b), next)
  }

  function DecodeFields(count: nat, data: seq<Byte>, position: nat, h: Header, found: set<nat>): (r: Result<Header>)
    requires position <= |data|
    ensures r.next <= |data|
  {
    if count == 0 then
      if REQUIRED <= found then Done(h, position) else Fail(ProtocolError, position)
    else
      match Decode(NumberKind(1), data, position)
      case Err(e, next) => Fail(Decoding(e), next)
      case Ok(id, next) =>
        if id.n > 5 || id.n in found then Fail(ProtocolError, next)
        else if id.n == 0 then Fail(Unsupported, next)
        else
          match DecodeContent(id.n, data, next, h)
          case Fail(e, end) => Fail(e, end)
          case Done(h', end) => DecodeFields(count - 1, data, end, h', found + {id.n})
  }

  // DecodeResponseHeader, into a header that holds before.
  function DecodeHeader(data: seq<Byte>, position: nat, before: Header): (r: Result<Header>)
    requires position <= |data|
    ensures r.next <= |data|
  {
    match Decode(MapKind, data, position)
    case Err(e, next) => Fail(Decoding(e), next)
    case Ok(m, next) =>
      if m.fields > 5 || m.fields < 3 then Fail(ProtocolError, next)
      else DecodeFields(m.fields, data, next, before.(revValid := false, sessionValid := false), {})
  }

  // ---- What a decoded header guarantees ----

  // The bytes that a field with this identifier takes.
  function FieldSize(id: nat): nat {
    match id
    case 1 => 17
    case 2 => 7
    case 3 => 5
    case 4 => 7
    case 5 => 3
    case _ => 0
  }

  function SizeSum(ids: seq<nat>): nat {
    if ids == [] then 0 else FieldSize(ids[0]) + SizeSum(ids[1..])
  }

  // The identifiers that a successful decoding meets, in order.
  function FieldIds(count: nat, data: seq<Byte>, position: nat, h: Header, found: set<nat>): seq<nat>
    requires position <= |data| && DecodeFields(count, data, position, h, found).Done?
  {
    if count == 0 then []
    else
      var id := Decode(NumberKind(1), data, position);
      var content := DecodeContent(id.value.n, data, id.next, h);
      [id.value.n] + FieldIds(count - 1, data, content.next, content.value, found + {id.value.n})
  }

  lemma RevisionSize(data: seq<Byte>, position: nat, before: ApiRev)
    requires position <= |data| && DecodeRevision(data, position, before).Done?
    ensures DecodeRevision(data, position, before).next == position + 15
  {
  }

  lemma ContentDecoded(id: nat, data: seq<Byte>, position: nat, h: Header)
    requires position <= |data| && 1 <= id <= 5 && DecodeContent(id, data, position, h).Done?
    ensures var r := DecodeContent(id, data, position, h);
      && r.next + 2 == position + FieldSize(id)
      && r.value.revValid == (h.revValid || id == REVISION) && r.value.sessionValid == (h.sessionValid || id == SESSION)
      && (id != REVISION ==> r.value.rev == h.rev) && (id != SESSION ==> r.value.session == h.session)
  {
    if id == REVISION { RevisionSize(data, position, h.rev); }
  }

  // What the identifiers of a decoding and its result have in common.
  ghost predicate Accounted(ids: seq<nat>, found: set<nat>, h: Header, r: Header) {
    && Distinct(ids) && (forall id :: id in ids ==> 1 <= id <= 5 && id !in found)
    && (forall id :: id in REQUIRED ==> id in found || id in ids)
    && r.revValid == (h.revValid || REVISION in ids) && r.sessionValid == (h.sessionValid || SESSION in ids)
    && (REVISION !in ids ==> r.rev == h.rev) && (SESSION !in ids ==> r.session == h.session)
  }

  lemma AccountedStep(id: nat, ids: seq<nat>, found: set<nat>, h: Header, h': Header, r: Header)
    requires Accounted(ids, found + {id}, h', r) && 1 <= id <= 5 && id !in found
    requires h'.revValid == (h.revValid || id == REVISION) && h'.sessionValid == (h.sessionValid || id == SESSION)
    requires (id != REVISION ==> h'.rev == h.rev) && (id != SESSION ==> h'.session == h.session)
    ensures Accounted([id] + ids, found, h, r)
  {
    assert ([id] + ids)[1..] == ids;
  }

  // No identifier comes twice; the required ones come; the validity flags say
  // which optional ones came, and the others' values stay; the size is the sum.
  lemma {:induction false} FieldsDecoded(count: nat, data: seq<Byte>, position: nat, h: Header, found: set<nat>)
    requires position <= |data| && DecodeFields(count, data, position, h, found).Done?
    ensures var r, ids := DecodeFields(count, data, position, h, found), FieldIds(count, data, position, h, found);
      |ids| == count && Accounted(ids, found, h, r.value) && r.next == position + SizeSum(ids)
  {
    if count > 0 {
      var id := Decode(NumberKind(1), data, position);
      var content := DecodeContent(id.value.n, data, id.next, h);
      ContentDecoded(id.value.n, data, id.next, h);
      FieldsDecoded(count - 1, data, content.next, content.value, found + {id.value.n});
      var rest := FieldIds(count - 1, data, content.next, content.value, found + {id.value.n});
      AccountedStep(id.value.n, rest, found, h, content.value, DecodeFields(count, data, position, h, found).value);
      assert ([id.value.n] + rest)[1..] == rest;
    }
  }

  predicate Distinct(ids: seq<nat>) {
    ids != [] ==> ids[0] !in ids[1..] && Distinct(ids[1..])
  }

  function Weight(ids: seq<nat>, id: nat): nat {
    if id in ids then FieldSize(id) else 0
  }

  lemma WeightStep(ids: seq<nat>, id: nat)
    requires Distinct(ids) && ids != []
    ensures Weight(ids, id) == Weight(ids[1..], id) + if id == ids[0] then FieldSize(id) else 0
  {
    assert ids == [ids[0]] + ids[1..];
  }

  lemma {:induction false} SizeSumIs(ids: seq<nat>)
    requires Distinct(ids) && forall id :: id in ids ==> 1 <= id <= 5
    ensures SizeSum(ids) == Weight(ids, 1) + Weight(ids, 2) + Weight(ids, 3) + Weight(ids, 4) + Weight(ids, 5)
  {
    if ids != [] {
      var first, rest := ids[0], ids[1..];
      forall id | id in rest ensures 1 <= id <= 5 { assert ids == [first] + rest && id in [first] + rest; }
      SizeSumIs(rest);
      WeightStep(ids, 1);
      WeightStep(ids, 2);
      WeightStep(ids, 3);
      WeightStep(ids, 4);
      WeightStep(ids, 5);
    }
  }

  // A decoded header has operation, status and FIPS fields once, an optional
  // field at most once, and takes the bytes of its fields and of the map marker.
  lemma HeaderDecoded(data: seq<Byte>, position: nat, before: Header)
    requires position <= |data| && DecodeHeader(data, position, before).Done?
    ensures var r := DecodeHeader(data, position, before);
      && r.next == position + 18 + (if r.value.revValid then 17 else 0) + (if r.value.sessionValid then 5 else 0)
      && (!r.value.revValid ==> r.value.rev == before.rev)
      && (!r.value.sessionValid ==> r.value.session == before.session)
    ensures var count := Decode(MapKind, data, position).value.fields;
      var h := before.(revValid := false, sessionValid := false);
      && DecodeFields(count, data, position + 1, h, {}).Done?
      && var ids := FieldIds(count, data, position + 1, h, {});
      && 3 <= |ids| == count <= 5 && Distinct(ids) && OPERATION in ids && DDI_STATUS in ids && FIPS in ids
      && forall id :: id in ids ==> 1 <= id <= 5
  {
    var count, h := Decode(MapKind, data, position).value.fields, before.(revValid := false, sessionValid := false);
    FieldsDecoded(count, data, position + 1, h, {});
    SizeSumIs(FieldIds(count, data, position + 1, h, {}));
  }

  // ---- Revisions ----

  // The identifiers of the two fields of a revision.
  function RevisionIds(data: seq<Byte>, position: nat, before: ApiRev): (nat, nat)
    requires position <= |data| && DecodeRevision(data, position, before).Done?
  {
    (Decode(NumberKind(1), data, position + 1).value.n, Decode(NumberKind(1), data, position + 8).value.n)
  }

  // A decoded revision owes nothing to what it held before exactly when its two
  // fields differ; a field given twice leaves the other as it was.
  lemma RevisionCompleteExactly(data: seq<Byte>, position: nat, before: ApiRev)
    requires position <= |data| && DecodeRevision(data, position, before).Done?
    ensures var ids := RevisionIds(data, position, before);
      (forall other :: DecodeRevision(data, position, other) == DecodeRevision(data, position, before)) <==>
      ids.0 != ids.1
    ensures var ids, r := RevisionIds(data, position, before), DecodeRevision(data, position, before).value;
      ids.0 == ids.1 ==> (if ids.0 == 1 then r.minor == before.minor else r.major == before.major)
  {
    var other := ApiRev(before.major + 1, before.minor + 1);
    assert DecodeRevision(data, position, other).Done?;
  }

  // ---- Fields in any order ----

  datatype Field =
    | Revision(rev: ApiRev)
    | Operation(op: nat)
    | Session(session: nat)
    | DdiStatus(code: nat)
    | Fips(fips: bool)

  function IdOf(f: Field): nat {
    match f
    case Revision(_) => REVISION
    case Operation(_) => OPERATION
    case Session(_) => SESSION
    case DdiStatus(_) => DDI_STATUS
    case Fips(_) => FIPS
  }

  function RevisionValues(rev: ApiRev): seq<Value> {
    [Map(2), Number(1, 1), Number(4, rev.major), Number(1, 2), Number(4, rev.minor)]
  }

  function ContentValues(f: Field): seq<Value> {
    match f
    case Revision(rev) => RevisionValues(rev)
    case Operation(op) => [Number(4, op)]
    case Session(session) => [Number(2, session)]
    case DdiStatus(code) => [Number(4, code)]
    case Fips(fips) => [Boolean(fips)]
  }

  function FieldsValues(fields: seq<Field>): seq<Value> {
    if fields == [] then [] else [Number(1, IdOf(fields[0]))] + (ContentValues(fields[0]) + FieldsValues(fields[1..]))
  }

  // What a header with these fields is encoded as.
  function HeaderValues(fields: seq<Field>): seq<Value> {
    [Map(|fields|)] + FieldsValues(fields)
  }

  // The header that holds the fields, over what it held before.
  function Filled(h: Header, fields: seq<Field>): Header
    decreases |fields|
  {
    if fields == [] then h else Filled(Set(h, fields[0]), fields[1..])
  }

  function Set(h: Header, f: Field): Header {
    match f
    case Revision(rev) => h.(revValid := true, rev := rev)
    case Operation(op) => h.(op := op)
    case Session(session) => h.(sessionValid := true, session := session)
    case DdiStatus(code) => h.(ddiStatus := code)
    case Fips(fips) => h.(fips := fips)
  }

  function Ids(fields: seq<Field>): set<nat> {
    set f | f in fields :: IdOf(f)
  }

  ghost predicate DistinctFields(fields: seq<Field>) {
    fields != [] ==> IdOf(fields[0]) !in Ids(fields[1..]) && DistinctFields(fields[1..])
  }

  lemma RevisionFieldDecodes(id: nat, n: nat, rest: seq<Value>, data: seq<Byte>, position: nat, before: ApiRev)
    requires id == 1 || id == 2
    requires Reads([Number(1, id), Number(4, n)] + rest, data, position)
    ensures position <= |data| && Reads(rest, data, position + 7)
    ensures DecodeRevisionField(data, position, before) ==
            Done(if id == 1 then before.(major := n) else before.(minor := n), position + 7)
  {
    assert [Number(1, id), Number(4, n)] + rest == [Number(1, id)] + ([Number(4, n)] + rest);
    NextValue(Decode, Number(1, id), [Number(4, n)] + rest, data, position);
    NextValue(Decode, Number(4, n), rest, data, position + 2);
  }

  lemma RevisionDecodes(rev: ApiRev, rest: seq<Value>, data: seq<Byte>, position: nat, before: ApiRev)
    requires Reads(RevisionValues(rev) + rest, data, position)
    ensures position <= |data| && Reads(rest, data, position + 15)
    ensures DecodeRevision(data, position, before) == Done(rev, position + 15)
  {
    var minor := [Number(1, 2), Number(4, rev.minor)] + rest;
    var major := [Number(1, 1), Number(4, rev.major)] + minor;
    assert RevisionValues(rev) + rest == [Map(2)] + major;
    NextValue(Decode, Map(2), major, data, position);
    RevisionFieldDecodes(1, rev.major, minor, data, position + 1, before);
    RevisionFieldDecodes(2, rev.minor, rest, data, position + 8, before.(major := rev.major));
  }

  function RepeatedMajor(a: nat, b: nat): seq<Value> {
    [Map(2), Number(1, 1), Number(4, a), Number(1, 1), Number(4, b)]
  }

  // A revision that gives the major number twice is accepted, and keeps the
  // minor number that was there before.
  lemma RepeatedMajorAccepted(a: nat, b: nat, before: ApiRev)
    requires a < Limit(4) && b < Limit(4)
    ensures DecodeRevision(EncodingAll(RepeatedMajor(a, b), 0), 0, before) == Done(ApiRev(b, before.minor), 15)
  {
    var second := [Number(1, 1), Number(4, b)];
    var first := [Number(1, 1), Number(4, a)] + second;
    var values := [Map(2)] + first;
    assert values == RepeatedMajor(a, b);
    RepeatedEncodable(a, b);
    EncodedReads([], values, []);
    var data := EncodingAll(values, 0);
    assert [] + data + [] == data;
    NextValue(Decode, Map(2), first, data, 0);
    RevisionFieldDecodes(1, a, second, data, 1, before);
    assert second == second + [];
    RevisionFieldDecodes(1, b, [], data, 8, before.(major := a));
  }

  lemma RepeatedEncodable(a: nat, b: nat)
    requires a < Limit(4) && b < Limit(4)
    ensures AllEncodable(RepeatedMajor(a, b))
  {
    var v := RepeatedMajor(a, b);
    assert Limit(1) == 256 * Limit(0);
    assert AllEncodable(v[5..]);
    assert v[4..][1..] == v[5..] && v[3..][1..] == v[4..] && v[2..][1..] == v[3..] && v[1..][1..] == v[2..];
    assert AllEncodable(v[4..]);
    assert AllEncodable(v[3..]);
    assert AllEncodable(v[2..]);
    assert AllEncodable(v[1..]);
  }

  lemma ContentDecodes(f: Field, rest: seq<Value>, data: seq<Byte>, position: nat, h: Header)
    requires Reads(ContentValues(f) + rest, data, position)
    ensures position <= |data|
    ensures var r := DecodeContent(IdOf(f), data, position, h);
      r.Done? && r.value == Set(h, f) && Reads(rest, data, r.next)
  {
    match f
    case Revision(rev) => RevisionDecodes(rev, rest, data, position, h.rev);
    case Operation(op) => NextValue(Decode, Number(4, op), rest, data, position);
    case Session(session) => NextValue(Decode, Number(2, session), rest, data, position);
    case DdiStatus(code) => NextValue(Decode, Number(4, code), rest, data, position);
    case Fips(fips) => NextValue(Decode, Boolean(fips), rest, data, position);
  }

  // The first field reads, and so do the others behind it.
  lemma FieldReads(fields: seq<Field>, data: seq<Byte>, position: nat, h: Header)
    requires fields != [] && Reads(FieldsValues(fields), data, position)
    ensures position <= |data| && position + 2 <= |data|
    ensures Decode(NumberKind(1), data, position) == Ok(Number(1, IdOf(fields[0])), position + 2)
    ensures var r := DecodeContent(IdOf(fields[0]), data, position + 2, h);
      r.Done? && r.value == Set(h, fields[0]) && Reads(FieldsValues(fields[1..]), data, r.next)
  {
    var f, rest := fields[0], FieldsValues(fields[1..]);
    NextValue(Decode, Number(1, IdOf(f)), ContentValues(f) + rest, data, position);
    ContentDecodes(f, rest, data, position + 2, h);
  }

  lemma FieldStep(count: nat, id: nat, data: seq<Byte>, position: nat, h: Header, found: set<nat>)
    requires count > 0 && 1 <= id <= 5 && id !in found && position + 2 <= |data|
    requires Decode(NumberKind(1), data, position) == Ok(Number(1, id), position + 2)
    requires DecodeContent(id, data, position + 2, h).Done?
    ensures var r := DecodeContent(id, data, position + 2, h);
      DecodeFields(count, data, position, h, found) == DecodeFields(count - 1, data, r.next, r.value, found + {id})
  {
  }

  lemma {:induction false} FieldsDecode(fields: seq<Field>, data: seq<Byte>, position: nat, h: Header, found: set<nat>)
    requires Reads(FieldsValues(fields), data, position) && DistinctFields(fields) && Ids(fields) !! found
    requires REQUIRED <= found + Ids(fields)
    ensures position <= |data|
    ensures var r := DecodeFields(|fields|, data, position, h, found); r.Done? && r.value == Filled(h, fields)
  {
    if fields != [] {
      var id := IdOf(fields[0]);
      FieldReads(fields, data, position, h);
      IdsStep(fields);
      assert id in Ids(fields);
      FieldStep(|fields|, id, data, position, h, found);
      FieldsDecode(fields[1..], data, DecodeContent(id, data, position + 2, h).next, Set(h, fields[0]), found + {id});
    }
  }

  lemma IdsStep(fields: seq<Field>)
    requires fields != []
    ensures Ids(fields) == {IdOf(fields[0])} + Ids(fields[1..])
  {
    assert fields == [fields[0]] + fields[1..];
  }

  // A header with all required fields and no field twice decodes, in whatever
  // order its fields are encoded, and fills in exactly their values.
  lemma HeaderDecodes(fields: seq<Field>, data: seq<Byte>, position: nat, before: Header)
    requires DistinctFields(fields) && REQUIRED <= Ids(fields) && Reads(HeaderValues(fields), data, position)
    ensures position <= |data|
    ensures var r := DecodeHeader(data, position, before);
      r.Done? && r.value == Filled(before.(revValid := false, sessionValid := false), fields)
  {
    var h := before.(revValid := false, sessionValid := false);
    FieldCount(fields);
    NextValue(Decode, Map(|fields|), FieldsValues(fields), data, position);
    assert Decode(MapKind, data, position) == Ok(Map(|fields|), position + 1);
    FieldsDecode(fields, data, position + 1, h, {});
    HeaderIs(|fields|, data, position, before, h);
  }

  lemma HeaderIs(count: nat, data: seq<Byte>, position: nat, before: Header, h: Header)
    requires 3 <= count <= 5 && position < |data| && Decode(MapKind, data, position) == Ok(Map(count), position + 1)
    requires h == before.(revValid := false, sessionValid := false)
    ensures DecodeHeader(data, position, before) == DecodeFields(count, data, position + 1, h, {})
  {
  }

  // A header encoded with its fields in any order decodes to the same header.
  lemma HeaderRoundTrip(a: seq<Field>, b: seq<Field>, front: seq<Byte>, back: seq<Byte>, before: Header)
    requires DistinctFields(a) && REQUIRED <= Ids(a) && multiset(a) == multiset(b) && AllEncodable(HeaderValues(b))
    ensures var data := front + EncodingAll(HeaderValues(b), |front|) + back;
      var r := DecodeHeader(data, |front|, before);
      r.Done? && r.value == Filled(before.(revValid := false, sessionValid := false), a)
  {
    var s := EncodingAll(HeaderValues(b), |front|);
    var data := front + s + back;
    EncodedReads(front, HeaderValues(b), back);
    OrderIndependent(before.(revValid := false, sessionValid := false), a, b);
    HeaderDecodes(b, data, |front|, before);
  }

  lemma {:induction false} IdsCount(fields: seq<Field>)
    requires DistinctFields(fields)
    ensures |Ids(fields)| == |fields|
  {
    if fields != [] {
      IdsStep(fields);
      IdsCount(fields[1..]);
    }
  }

  lemma FieldCount(fields: seq<Field>)
    requires DistinctFields(fields) && REQUIRED <= Ids(fields)
    ensures 3 <= |fields| <= 5
  {
    IdsCount(fields);
    var all: set<nat> := {1, 2, 3, 4, 5};
    Smaller(REQUIRED, Ids(fields));
    assert Ids(fields) <= all;
    Smaller(Ids(fields), all);
  }

  lemma {:induction false} Smaller(a: set<nat>, b: set<nat>)
    requires a <= b
    ensures |a| <= |b|
  {
    if a != {} {
      var x :| x in a;
      Smaller(a - {x}, b - {x});
    }
  }

  // The header agrees with a field.
  ghost predicate Holds(h: Header, f: Field) {
    Set(h, f) == h
  }

  lemma {:induction false} FilledHolds(h: Header, fields: seq<Field>, f: Field)
    requires DistinctFields(fields) && f in fields
    ensures Holds(Filled(h, fields), f)
    decreases |fields|
  {
    assert fields == [fields[0]] + fields[1..];
    if f == fields[0] {
      FilledKeeps(Set(h, f), fields[1..], f);
    } else {
      FilledHolds(Set(h, fields[0]), fields[1..], f);
    }
  }

  lemma {:induction false} FilledKeeps(h: Header, fields: seq<Field>, f: Field)
    requires Holds(h, f) && IdOf(f) !in Ids(fields)
    ensures Holds(Filled(h, fields), f)
    decreases |fields|
  {
    if fields != [] {
      IdsStep(fields);
      assert IdOf(fields[0]) in Ids(fields);
      FilledKeeps(Set(h, fields[0]), fields[1..], f);
    }
  }

  // The part of a header that a field with this identifier sets.
  function Part(h: Header, id: nat): (bool, ApiRev, nat, bool) {
    match id
    case 1 => (h.revValid, h.rev, 0, false)
    case 2 => (false, ApiRev(0, 0), h.op, false)
    case 3 => (h.sessionValid, ApiRev(0, 0), h.session, false)
    case 4 => (false, ApiRev(0, 0), h.ddiStatus, false)
    case _ => (false, ApiRev(0, 0), 0, h.fips)
  }

  lemma {:induction false} FilledLeaves(h: Header, fields: seq<Field>, id: nat)
    requires 1 <= id <= 5 && id !in Ids(fields)
    ensures Part(Filled(h, fields), id) == Part(h, id)
    decreases |fields|
  {
    if fields != [] {
      IdsStep(fields);
      FilledLeaves(Set(h, fields[0]), fields[1..], id);
    }
  }

  lemma SamePart(h: Header, a: seq<Field>, b: seq<Field>, id: nat)
    requires DistinctFields(a) && DistinctFields(b) && (forall f :: f in a <==> f in b) && 1 <= id <= 5
    ensures Part(Filled(h, a), id) == Part(Filled(h, b), id)
  {
    if f :| f in a && IdOf(f) == id {
      FilledHolds(h, a, f);
      FilledHolds(h, b, f);
    } else {
      FilledLeaves(h, a, id);
      FilledLeaves(h, b, id);
    }
  }

  lemma {:induction false} DistinctByCount(fields: seq<Field>)
    ensures |Ids(fields)| <= |fields|
    ensures |Ids(fields)| == |fields| ==> DistinctFields(fields)
  {
    if fields != [] {
      IdsStep(fields);
      DistinctByCount(fields[1..]);
    }
  }

  // Any permutation of a header's fields is one of distinct fields, too, and
  // fills in the same header.
  lemma OrderIndependent(h: Header, a: seq<Field>, b: seq<Field>)
    requires DistinctFields(a) && multiset(a) == multiset(b)
    ensures DistinctFields(b) && Ids(b) == Ids(a) && Filled(h, a) == Filled(h, b)
  {
    forall f ensures f in a <==> f in b {
      assert f in a <==> f in multiset(a);
      assert f in b <==> f in multiset(b);
    }
    assert |a| == |multiset(a)| && |b| == |multiset(b)|;
    assert Ids(a) == Ids(b);
    IdsCount(a);
    DistinctByCount(b);
    SamePart(h, a, b, 1);
    SamePart(h, a, b, 2);
    SamePart(h, a, b, 3);
    SamePart(h, a, b, 4);
    SamePart(h, a, b, 5);
  }

  // ---- The decoder and encoder ----

  ghost predicate Says<T>(r: Result<T>, status: HeaderStatus, position: nat, value: T) {
    match r
    case Done(v, next) => status.Good? && position == next && value == v
    case Fail(e, next) => status == Bad(e) && position == next
  }

  datatype HeaderStatus = Good | Bad(error: HeaderError)

  // How a header operation passes on a decoder's status.
  function Passed(status: Status): HeaderStatus
    requires !status.AlreadyStarted?
  {
    if status.Success? then Good else Bad(Decoding(status.error))
  }

  // DecodeApiRevision.
  method DecodeApiRevision(decoder: Decoder, before: ApiRev) returns (status: HeaderStatus, rev: ApiRev)
    requires decoder.Valid() && decoder.buffer != null
    modifies decoder`position
    ensures decoder.Valid()
    ensures Says(DecodeRevision(decoder.Data(), old(decoder.position), before), status, decoder.position, rev)
  {
    rev := before;
    var read, fields := decoder.DecodeMap();
    status := Passed(read);
    if !read.Success? { return; }
    if fields != 2 { status := Bad(ProtocolError); return; }
    status, rev := DecodeApiRevisionField(decoder, rev);
    if status.Bad? { return; }
    status, rev := DecodeApiRevisionField(decoder, rev);
  }

  method DecodeApiRevisionField(decoder: Decoder, before: ApiRev) returns (status: HeaderStatus, rev: ApiRev)
    requires decoder.Valid() && decoder.buffer != null
    modifies decoder`position
    ensures decoder.Valid()
    ensures Says(DecodeRevisionField(decoder.Data(), old(decoder.position), before), status, decoder.position, rev)
  {
    rev := before;
    var read, id := decoder.DecodeNumber(1);
    status := Passed(read);
    if !read.Success? { return; }
    if id != 1 && id != 2 { status := Bad(Unsupported); return; }
    var n;
    read, n := decoder.DecodeNumber(4);
    status := Passed(read);
    if read.Success? { rev := if id == 1 then rev.(major := n) else rev.(minor := n); }
  }

  // The content of one field of a response header.
  method DecodeFieldContent(decoder: Decoder, id: nat, before: Header) returns (status: HeaderStatus, h: Header)
    requires decoder.Valid() && decoder.buffer != null && 1 <= id <= 5
    modifies decoder`position
    ensures decoder.Valid()
    ensures Says(DecodeContent(id, decoder.Data(), old(decoder.position), before), status, decoder.position, h)
  {
    h := before;
    var read, n;
    if id == REVISION {
      var rev;
      status, rev := DecodeApiRevision(decoder, h.rev);
      h := h.(revValid := true, rev := rev);
    } else if id == FIPS {
      var b;
      read, b := decoder.DecodeBoolean();
      status, h := Passed(read), h.(fips := b);
    } else if id == SESSION {
      read, n := decoder.DecodeNumber(2);
      status := Passed(read);
      if read.Success? { h := h.(sessionValid := true, session := n); }
    } else {
      read, n := decoder.DecodeNumber(4);
      status := Passed(read);
      if read.Success? { h := if id == OPERATION then h.(op := n) else h.(ddiStatus := n); }
    }
  }

  // DecodeResponseHeader.
  method DecodeResponseHeader(decoder: Decoder, before: Header) returns (status: HeaderStatus, h: Header, size: nat)
    requires decoder.Valid() && decoder.buffer != null
    modifies decoder`position
    ensures decoder.Valid() && old(decoder.position) + size == decoder.position
    ensures Says(DecodeHeader(decoder.Data(), old(decoder.position), before), status, decoder.position, h)
  {
    h := before.(revValid := false, sessionValid := false);
    var start := decoder.position;
    var read, count := decoder.DecodeMap();
    status := Passed(read);
    if read.Success? {
      if count > 5 || count < 3 {
        status := Bad(ProtocolError);
      } else {
        ghost var goal := DecodeFields(count, decoder.Data(), decoder.position, h, {});
        status, h := DecodeAllFields(decoder, count, h, goal);
      }
    }
    size := decoder.position - start;
  }

  // The loop over the fields and the check for the required ones.
  method DecodeAllFields(decoder: Decoder, count: nat, before: Header, ghost goal: Result<Header>)
    returns (status: HeaderStatus, h: Header)
    requires decoder.Valid() && decoder.buffer != null
    requires Leads(goal, count, decoder.Data(), decoder.position, before, {})
    modifies decoder`position
    ensures decoder.Valid() && old(decoder.position) <= decoder.position
    ensures Says(goal, status, decoder.position, h)
  {
    var found;
    status, h, found := DecodeEachField(decoder, count, before, goal);
    if status.Good? {
      FieldsEnd(goal, decoder.Data(), decoder.position, h, found);
      status := if REQUIRED <= found then Good else Bad(ProtocolError);
    }
  }

  method DecodeEachField(decoder: Decoder, count: nat, before: Header, ghost goal: Result<Header>)
    returns (status: HeaderStatus, h: Header, found: set<nat>)
    requires decoder.Valid() && decoder.buffer != null
    requires Leads(goal, count, decoder.Data(), decoder.position, before, {})
    modifies decoder`position
    ensures decoder.Valid() && old(decoder.position) <= decoder.position
    ensures status.Good? ==> Leads(goal, 0, decoder.Data(), decoder.position, h, found)
    ensures status.Bad? ==> goal == Fail(status.error, decoder.position)
  {
    var left: nat := count;
    status, h, found := Good, before, {};
    while left > 0 && status.Good?
      invariant decoder.Valid() && old(decoder.position) <= decoder.position
      invariant status.Good? ==> Leads(goal, left, decoder.Data(), decoder.position, h, found)
      invariant status.Bad? ==> goal == Fail(status.error, decoder.position)
    {
      status, h, found := DecodeField(decoder, h, found, left, goal);
      left := left - 1;
    }
  }

  // Decoding the fields that are left gives the result of all.
  ghost predicate Leads(goal: Result<Header>, left: nat, data: seq<Byte>, position: nat, h: Header, found: set<nat>) {
    position <= |data| && goal == DecodeFields(left, data, position, h, found)
  }

  lemma FieldsEnd(goal: Result<Header>, data: seq<Byte>, position: nat, h: Header, found: set<nat>)
    requires Leads(goal, 0, data, position, h, found)
    ensures goal == if REQUIRED <= found then Done(h, position) else Fail(ProtocolError, position)
  {
  }

  // One round of the loop over the fields, with left fields to go.
  method DecodeField(decoder: Decoder, before: Header, found: set<nat>, ghost left: nat, ghost goal: Result<Header>)
    returns (status: HeaderStatus, h: Header, found': set<nat>)
    requires decoder.Valid() && decoder.buffer != null && left > 0
    requires Leads(goal, left, decoder.Data(), decoder.position, before, found)
    modifies decoder`position
    ensures decoder.Valid() && old(decoder.position) <= decoder.position
    ensures status.Good? ==> Leads(goal, left - 1, decoder.Data(), decoder.position, h, found')
    ensures status.Bad? ==> goal == Fail(status.error, decoder.position)
  {
    h, found' := before, found;
    var read, id := decoder.DecodeNumber(1);
    status := Passed(read);
    if !read.Success? { return; }
    if id > 5 || id in found { status := Bad(ProtocolError); return; }
    if id == 0 { status := Bad(Unsupported); return; }
    found' := found + {id};
    status, h := DecodeFieldContent(decoder, id, h);
  }

  // AZIHSM_DDI_REQ_HDR; None stands for a field that is not valid.
  datatype Request = Request(rev: Option<ApiRev>, op: nat, session: Option<nat>)

  function RequestFields(r: Request): seq<Field> {
    (if r.rev.Some? then [Revision(r.rev.value)] else []) + [Operation(r.op)] +
    (if r.session.Some? then [Session(r.session.value)] else [])
  }

  lemma SizeAllFirst(values: seq<Value>, position: nat)
    requires values != []
    ensures SizeAll(values, position) ==
            Size(values[0], position) + SizeAll(values[1..], position + Size(values[0], position))
    ensures |values| > 1 ==> values[1..][1..] == values[2..]
    ensures |values| == 1 ==> SizeAll(values, position) == Size(values[0], position)
  {
  }

  lemma ContentSize(f: Field, position: nat)
    ensures SizeAll(ContentValues(f), position) + 2 == FieldSize(IdOf(f))
  {
    match f
    case Revision(rev) =>
      var v := RevisionValues(rev);
      SizeAllFirst(v, position);
      SizeAllFirst(v[1..], position + 1);
      SizeAllFirst(v[2..], position + 3);
      SizeAllFirst(v[3..], position + 8);
      SizeAllFirst(v[4..], position + 10);
    case Operation(op) => assert [Number(4, op)][1..] == [];
    case Session(session) => assert [Number(2, session)][1..] == [];
    case DdiStatus(code) => assert [Number(4, code)][1..] == [];
    case Fips(fips) => assert [Boolean(fips)][1..] == [];
  }

  lemma {:induction false} FieldsSize(fields: seq<Field>, position: nat)
    ensures SizeAll(FieldsValues(fields), position) ==
            if fields == [] then 0
            else
              var size := FieldSize(IdOf(fields[0]));
              size + SizeAll(FieldsValues(fields[1..]), position + size)
  {
    if fields != [] {
      var id, content, rest := Number(1, IdOf(fields[0])), ContentValues(fields[0]), FieldsValues(fields[1..]);
      assert FieldsValues(fields) == [id] + (content + rest) && ([id] + (content + rest))[1..] == content + rest;
      ContentSize(fields[0], position + 2);
      SizeAllConcat(content, rest, position + 2);
    }
  }

  lemma RequestSize(r: Request, position: nat)
    ensures SizeAll(HeaderValues(RequestFields(r)), position) ==
            8 + (if r.rev.Some? then 17 else 0) + (if r.session.Some? then 5 else 0)
  {
    var a := RequestFields(r);
    var b := if r.rev.Some? then a[1..] else a;
    var values := FieldsValues(a);
    assert ([Map(|a|)] + values)[1..] == values;
    var p := if r.rev.Some? then position + 18 else position + 1;
    if r.rev.Some? { FieldsSize(a, position + 1); }
    FieldsSize(b, p);
    FieldsSize(b[1..], p + 7);
    FieldsSize([], p + 12);
    if r.session.Some? { assert b[1..][1..] == []; }
  }

  // A request whose fields have the widths of the source's types.
  predicate FitsRequest(r: Request) {
    && r.op < 0x1_0000_0000 && (r.session.Some? ==> r.session.value < 0x1_0000)
    && (r.rev.Some? ==> r.rev.value.major < 0x1_0000_0000 && r.rev.value.minor < 0x1_0000_0000)
  }

  // What a request is on the wire: the number of valid fields, then the revision
  // under identifier 1 if it is valid, the operation under 2, and the session
  // under 3 if it is valid.
  function RequestValues(r: Request): seq<Value> {
    [Map(1 + (if r.rev.Some? then 1 else 0) + (if r.session.Some? then 1 else 0))] +
    ((match r.rev
      case None => []
      case Some(rev) =>
        [Number(1, 1), Map(2), Number(1, 1), Number(4, rev.major), Number(1, 2), Number(4, rev.minor)]) +
     ([Number(1, 2), Number(4, r.op)] +
      (match r.session case None => [] case Some(session) => [Number(1, 3), Number(2, session)])))
  }

  lemma RequestIs(r: Request)
    ensures HeaderValues(RequestFields(r)) == RequestValues(r)
  {
    var fields := RequestFields(r);
    var last := if r.session.Some? then [Session(r.session.value)] else [];
    assert FieldsValues(last) == match r.session case None => [] case Some(s) => [Number(1, 3), Number(2, s)] by {
      if r.session.Some? { assert last[1..] == []; }
    }
    var rest := [Operation(r.op)] + last;
    assert rest[1..] == last;
    assert FieldsValues(rest) == [Number(1, 2), Number(4, r.op)] + FieldsValues(last);
    if r.rev.Some? {
      assert fields == [Revision(r.rev.value)] + rest && fields[1..] == rest;
    } else {
      assert fields == rest;
    }
  }

  lemma RequestEncodable(r: Request)
    requires FitsRequest(r)
    ensures AllEncodable(RequestValues(r))
  {
    var session := match r.session case None => [] case Some(s) => [Number(1, 3), Number(2, s)];
    assert AllEncodable(session) by {
      if r.session.Some? { assert session[1..] == [Number(2, r.session.value)] && session[1..][1..] == []; }
    }
    var op := [Number(1, 2), Number(4, r.op)] + session;
    AllEncodableBefore([Number(1, 2), Number(4, r.op)], session);
    match r.rev
    case None =>
      AllEncodableBefore([Map(1 + |session| / 2)], op);
      assert RequestValues(r) == [Map(1 + |session| / 2)] + op;
    case Some(rev) =>
      var front := [Number(1, 1), Map(2), Number(1, 1), Number(4, rev.major), Number(1, 2), Number(4, rev.minor)];
      AllEncodableBefore(front, op);
      AllEncodableBefore([Map(2 + |session| / 2)], front + op);
      assert RequestValues(r) == [Map(2 + |session| / 2)] + (front + op);
  }

  lemma {:induction false} AllEncodableBefore(a: seq<Value>, b: seq<Value>)
    requires AllEncodable(b) && forall i :: 0 <= i < |a| ==> Encodable(a[i])
    ensures AllEncodable(a + b)
  {
    if a == [] {
      assert a + b == b;
    } else {
      AllEncodableBefore(a[1..], b);
      assert (a + b)[1..] == a[1..] + b;
    }
  }

  // EncodeRequestHeader. What it writes decodes to the request, and the decoders
  // end where the encoder does.
  method EncodeRequestHeader(encoder: Encoder, r: Request) returns (status: Status, size: nat)
    requires encoder.Valid() && encoder.buffer != null && FitsRequest(r)
    modifies encoder`position, encoder.buffer
    ensures encoder.Valid() && old(encoder.position) + size == encoder.position
    ensures Wrote(old(encoder.Contents()), EncodingAll(RequestValues(r), old(encoder.position)),
                  encoder.Contents(), encoder.capacity, status)
    ensures var full := 8 + (if r.rev.Some? then 17 else 0) + (if r.session.Some? then 5 else 0);
      && status == (if old(encoder.position) + full <= encoder.capacity then Success else Failure(BufferTooSmall))
      && (status.Success? ==> size == full)
    ensures status.Success? ==>
      DecodeAll(KindsOf(RequestValues(r)), encoder.Contents(), old(encoder.position)) ==
      AllOk(RequestValues(r), encoder.position)
  {
    var start := encoder.position;
    ghost var front := encoder.Contents();
    RequestSize(r, start);
    RequestIs(r);
    RequestEncodable(r);
    StreamSize(HeaderValues(RequestFields(r)), start);
    status := encoder.EncodeAll(HeaderValues(RequestFields(r)));
    size := encoder.position - start;
    if status.Success? {
      StreamRoundTrip(front, RequestValues(r), []);
      assert encoder.Contents() == front + EncodingAll(RequestValues(r), start) + [];
    }
  }

  // The bytes of a request that has an operation only.
  lemma PlainRequest(op: nat, position: nat)
    requires op < 0x1_0000_0000
    ensures EncodingAll(RequestValues(Request(None, op, None)), position) ==
            [0xA1, 0x18, 0x02, 0x1A, Octet(op, 0x100_0000), Octet(op, 0x1_0000), Octet(op, 0x100), Octet(op, 1)]
  {
    var values := [Map(1), Number(1, 2), Number(4, op)];
    assert RequestValues(Request(None, op, None)) == values;
    Wire(values[0], position);
    Wire(values[1], position + 1);
    Wire(values[2], position + 3);
    StreamStep(values, position);
    StreamStep(values[1..], position + 1);
    StreamStep(values[2..], position + 3);
    assert values[1..][1..] == values[2..] && values[2..][1..] == [];
  }

  lemma StreamStep(values: seq<Value>, position: nat)
    requires values != []
    ensures EncodingAll(values, position) ==
            Encoding(values[0], position) + EncodingAll(values[1..], position + Size(values[0], position))
  {
  }
}
