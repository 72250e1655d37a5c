/**
  Advertising structures as the Core Specification Supplement, Part A, lays them
  out, type by type and byte by byte.  They are the reference for both ends: what
  the builder's payload consists of, and what the parser must make of any stream of
  structures, also of those that the builder never sends.
 */
module AdStructures {
  import opened Sequences
  import opened BleUuid
  import opened AdRecords

  datatype Structure =
    | FlagsOf(flags: byte)
    | PowerLevel(dBm: int)
    | AppearanceOf(value: Word16)
    | CompleteName(text: seq<byte>)
    | ShortenedName(text: seq<byte>)
    | ManufacturerOf(data: seq<byte>)
    | List16(complete: bool, shorts: seq<Word16>, odd: seq<byte>)
    | List32(complete: bool, mediums: seq<Word32>, odd: seq<byte>)
    | List128(complete: bool, first: seq<byte>, others: seq<byte>)
    | ServiceDataOf(uuid: Uuid, data: seq<byte>)
    | TooShort(adType: byte, data: seq<byte>)  // service data that ends inside its UUID
    | Unknown(adType: byte, data: seq<byte>)
    | Filler                                   // a zero byte

  predicate Valid(s: Structure) {
    (!s.Filler? ==> |DataOf(s)| < 255) &&
    match s
    case PowerLevel(dBm) => -128 <= dBm < 128
    case List16(_, _, odd) => |odd| < 2
    case List32(_, _, odd) => |odd| < 4
    case List128(_, first, _) => |first| == 16
    case ServiceDataOf(uuid, _) => IsSet(uuid)
    case TooShort(adType, data) =>
      (adType == 0x16 && |data| < 2) || (adType == 0x20 && |data| < 4) || (adType == 0x21 && |data| < 16)
    case Unknown(adType, _) =>
      || adType == 0 || (0x0A < adType < 0x16) || (0x16 < adType < 0x19)
      || (0x19 < adType < 0x20) || (0x21 < adType < 0xFF)
    case _ => true
  }

  function TypeOf(s: Structure): byte {
    match s
    case FlagsOf(_) => 0x01
    case PowerLevel(_) => 0x0A
    case AppearanceOf(_) => 0x19
    case CompleteName(_) => 0x09
    case ShortenedName(_) => 0x08
    case ManufacturerOf(_) => 0xFF
    case List16(complete, _, _) => if complete then 0x03 else 0x02
    case List32(complete, _, _) => if complete then 0x05 else 0x04
    case List128(complete, _, _) => if complete then 0x07 else 0x06
    case ServiceDataOf(uuid, _) => if uuid.Uuid16? then 0x16 else if uuid.Uuid32? then 0x20 else 0x21
    case TooShort(adType, _) => adType
    case Unknown(adType, _) => adType
    case Filler => 0
  }

  function Bytes16(v: Word16): seq<byte> {
    [v % 256, v / 256]
  }

  function Bytes32(v: Word32): seq<byte> {
    [v % 256, v / 256 % 256, v / 65536 % 256, v / 16777216]
  }

  function All16(values: seq<Word16>): (bytes: seq<byte>)
    ensures |bytes| == 2 * |values|
  {
    if values == [] then [] else All16(values[..|values| - 1]) + Bytes16(values[|values| - 1])
  }

  function All32(values: seq<Word32>): (bytes: seq<byte>)
    ensures |bytes| == 4 * |values|
  {
    if values == [] then [] else All32(values[..|values| - 1]) + Bytes32(values[|values| - 1])
  }

  function DataOf(s: Structure): seq<byte> {
    match s
    case FlagsOf(flags) => [flags]
    case PowerLevel(dBm) => [dBm % 256]
    case AppearanceOf(value) => Bytes16(value)
    case CompleteName(text) => text
    case ShortenedName(text) => text
    case ManufacturerOf(data) => data
    case List16(_, shorts, odd) => All16(shorts) + odd
    case List32(_, mediums, odd) => All32(mediums) + odd
    case List128(_, first, others) => first + others
    case ServiceDataOf(Uuid16(v), data) => Bytes16(v) + data
    case ServiceDataOf(Uuid32(v), data) => Bytes32(v) + data
    case ServiceDataOf(Uuid128(bytes), data) => bytes + data
    case ServiceDataOf(Unset, data) => data
    case TooShort(_, data) => data
    case Unknown(_, data) => data
    case Filler => []
  }

  /** A structure on the air. */
  function Encode(s: Structure): seq<byte>
    requires Valid(s)
  {
    if s.Filler? then [0] else [|DataOf(s)| + 1, TypeOf(s)] + DataOf(s)
  }

  ghost predicate AllValid(structures: seq<Structure>) {
    forall i | 0 <= i < |structures| :: Valid(structures[i])
  }

  function EncodeAll(structures: seq<Structure>): seq<byte>
    requires AllValid(structures)
  {
    if structures == [] then []
    else EncodeAll(structures[..|structures| - 1]) + Encode(structures[|structures| - 1])
  }

  // ---------------------------------------------------------------------------
  // What a receiver learns
  // ---------------------------------------------------------------------------

  function AsUuids16(shorts: seq<Word16>): (uuids: seq<Uuid>)
    ensures |uuids| == |shorts| && forall i | 0 <= i < |shorts| :: uuids[i] == Uuid16(shorts[i])
  {
    seq(|shorts|, i requires 0 <= i < |shorts| => Uuid16(shorts[i]))
  }

  function AsUuids32(mediums: seq<Word32>): (uuids: seq<Uuid>)
    ensures |uuids| == |mediums| && forall i | 0 <= i < |mediums| :: uuids[i] == Uuid32(mediums[i])
  {
    seq(|mediums|, i requires 0 <= i < |mediums| => Uuid32(mediums[i]))
  }

  /** What a structure tells; of a list of 128 bit UUIDs the parser takes the first. */
  function Learn(d: Device, s: Structure): Device {
    match s
    case FlagsOf(flags) => d.(adFlag := flags)
    case PowerLevel(dBm) => d.(txPower := Some(dBm))
    case AppearanceOf(value) => d.(appearance := Some(value))
    case CompleteName(text) => d.(name := Some(text))
    case ManufacturerOf(data) => d.(manufacturerData := Some(data))
    case List16(_, shorts, _) => d.(serviceUUIDs := d.serviceUUIDs + AsUuids16(shorts))
    case List32(_, mediums, _) => d.(serviceUUIDs := d.serviceUUIDs + AsUuids32(mediums))
    case List128(_, first, _) => d.(serviceUUIDs := d.serviceUUIDs + [Uuid128(first)])
    case ServiceDataOf(uuid, data) =>
      d.(serviceDataUUIDs := d.serviceDataUUIDs + [uuid],
         serviceData := d.serviceData + if data == [] then [] else [data])
    case _ => d
  }

  function LearnAll(d: Device, structures: seq<Structure>): Device {
    if structures == [] then d
    else Learn(LearnAll(d, structures[..|structures| - 1]), structures[|structures| - 1])
  }

  /** Two bytes as a number, least significant first. */
  function Number16(p: seq<byte>, at: nat): int
    requires at + 2 <= |p|
  {
    p[at] as int + 256 * p[at + 1] as int
  }

  /** Four bytes as a number, least significant first. */
  function Number32(p: seq<byte>, at: nat): int
    requires at + 4 <= |p|
  {
    p[at] as int + 256 * p[at + 1] as int + 65536 * p[at + 2] as int + 16777216 * p[at + 3] as int
  }

  /** The parser's lists: one UUID for every two bytes, each from its own bytes. */
  lemma {:induction false} Uuids16At(p: seq<byte>, n: nat, k: nat)
    requires 2 * n <= |p| && k < n
    ensures |Uuids16(p, n)| == n && Uuids16(p, n)[k] == Uuid16(Number16(p, 2 * k))
  {
    if k < n - 1 {
      Uuids16At(p, n - 1, k);
    } else if n > 1 {
      Uuids16At(p, n - 1, 0);
    }
  }

  /** And one for every four bytes. */
  lemma {:induction false} Uuids32At(p: seq<byte>, n: nat, k: nat)
    requires 4 * n <= |p| && k < n
    ensures |Uuids32(p, n)| == n && Uuids32(p, n)[k] == Uuid32(Number32(p, 4 * k))
  {
    if k < n - 1 {
      Uuids32At(p, n - 1, k);
    } else if n > 1 {
      Uuids32At(p, n - 1, 0);
    }
  }

  lemma {:induction false} All16At(values: seq<Word16>, k: nat)
    requires k < |values|
    ensures Number16(All16(values), 2 * k) == values[k]
  {
    if k < |values| - 1 {
      All16At(values[..|values| - 1], k);
    }
  }

  lemma {:induction false} All32At(values: seq<Word32>, k: nat)
    requires k < |values|
    ensures Number32(All32(values), 4 * k) == values[k]
  {
    if k < |values| - 1 {
      All32At(values[..|values| - 1], k);
    } else {
      Bytes32Sum(values[k]);
    }
  }

  lemma Bytes32Sum(v: Word32)
    ensures Number32(Bytes32(v), 0) == v
  {
    var q1 := v / 256;
    var q2 := q1 / 256;
    assert v / 65536 == q2 && v / 16777216 == q2 / 256;
  }

  lemma List16Reads(shorts: seq<Word16>, odd: seq<byte>)
    requires |odd| < 2
    ensures var p := All16(shorts) + odd;
            |p| / 2 == |shorts| && Uuids16(p, |shorts|) == AsUuids16(shorts)
  {
    var p := All16(shorts) + odd;
    forall k | 0 <= k < |shorts|
      ensures |Uuids16(p, |shorts|)| == |shorts| && Uuids16(p, |shorts|)[k] == Uuid16(shorts[k])
    {
      Uuids16At(p, |shorts|, k);
      All16At(shorts, k);
    }
  }

  lemma List32Reads(mediums: seq<Word32>, odd: seq<byte>)
    requires |odd| < 4
    ensures var p := All32(mediums) + odd;
            |p| / 4 == |mediums| && Uuids32(p, |mediums|) == AsUuids32(mediums)
  {
    var p := All32(mediums) + odd;
    forall k | 0 <= k < |mediums|
      ensures |Uuids32(p, |mediums|)| == |mediums| && Uuids32(p, |mediums|)[k] == Uuid32(mediums[k])
    {
      Uuids32At(p, |mediums|, k);
      All32At(mediums, k);
    }
  }

  lemma ServiceDataReads(uuid: Uuid, data: seq<byte>)
    requires IsSet(uuid)
    ensures var p := DataOf(ServiceDataOf(uuid, data));
            && (uuid.Uuid16? ==> Word16At(p, 0) == uuid.short && p[2..|p|] == data)
            && (uuid.Uuid32? ==> Word32At(p, 0) == uuid.medium && p[4..|p|] == data)
            && (uuid.Uuid128? ==> p[..16] == uuid.bytes && p[16..|p|] == data)
  {
    match uuid
    case Uuid16(v) => assert (Bytes16(v) + data)[2..] == data;
    case Uuid32(v) =>
      Bytes32Sum(v);
      assert (Bytes32(v) + data)[4..] == data;
    case Uuid128(bytes) => assert (bytes + data)[16..] == data;
  }

  /** What the parser's switch makes of a structure's own bytes. */
  lemma StructureApplies(s: Structure, d: Device)
    requires Valid(s) && !s.Filler?
    ensures Needs(TypeOf(s)) <= |DataOf(s)|
    ensures ApplyRecord(d, TypeOf(s), DataOf(s), |DataOf(s)|) == Learn(d, s)
  {
    hide Uuids16, Uuids32, Word16At, Word32At;
    var p := DataOf(s);
    assert p[..|p|] == p;
    match s
    case AppearanceOf(value) => AppearanceReads(value);
    case List16(_, shorts, odd) => List16Reads(shorts, odd);
    case List32(_, mediums, odd) => List32Reads(mediums, odd);
    case List128(_, first, others) => assert (first + others)[..16] == first;
    case ServiceDataOf(uuid, data) => ServiceDataReads(uuid, data);
    case _ =>
  }

  lemma AppearanceReads(value: Word16)
    ensures Word16At(Bytes16(value), 0) == value
  {}

  /** The parser learns from one structure what it tells. */
  lemma StructureParses(s: Structure, d: Device)
    requires Valid(s)
    ensures Records(Encode(s)) && Readable(Encode(s))
    ensures Parse(Encode(s), d) == Learn(d, s)
  {
    hide ApplyRecord, Needs, Learn, DataOf, TypeOf;
    if s.Filler? {
      FillerParses(d);
      LearnNothing(d);
    } else {
      StructureApplies(s, d);
      ParseRec(TypeOf(s), DataOf(s), d);
      assert Encode(s) == Rec(TypeOf(s), DataOf(s));
    }
  }

  lemma FillerParses(d: Device)
    ensures Records([0]) && Readable([0]) && Parse([0], d) == d
  {
    var mem: seq<byte> := [0];
    assert Tail(mem) == [];
  }

  lemma LearnNothing(d: Device)
    ensures Learn(d, Filler) == d
  {}

  /**
    And from every stream of structures, each of them in turn: lists of any length,
    power levels, unknown types and zero bytes between the structures included.
   */
  lemma {:induction false} StreamParses(structures: seq<Structure>, d: Device)
    requires AllValid(structures)
    ensures Records(EncodeAll(structures)) && Readable(EncodeAll(structures))
    ensures Parse(EncodeAll(structures), d) == LearnAll(d, structures)
  {
    if structures != [] {
      hide Parse, Records, Readable, Learn, Encode;
      var n := |structures| - 1;
      StreamParses(structures[..n], d);
      StructureParses(structures[n], LearnAll(d, structures[..n]));
      ParseConcat(EncodeAll(structures[..n]), Encode(structures[n]), d);
    }
  }

  // ---------------------------------------------------------------------------
  // What the builder's payload consists of
  // ---------------------------------------------------------------------------

  /** The structure a builder call stands for; none for an unset UUID. */
  function StructureOf(c: Call): Option<Structure>
    requires ValidCall(c)
  {
    match c
    case Flags(flags) => Some(FlagsOf(flags))
    case Appearance(value) => Some(AppearanceOf(value))
    case Name(name) => Some(CompleteName(name))
    case ShortName(name) => Some(ShortenedName(name))
    case ManufacturerData(data) => Some(ManufacturerOf(data))
    case CompleteServices(uuid) => ListOf(true, uuid)
    case PartialServices(uuid) => ListOf(false, uuid)
    case ServiceData(uuid, data) => if uuid.Unset? then None else Some(ServiceDataOf(uuid, data))
  }

  function ListOf(complete: bool, uuid: Uuid): Option<Structure> {
    match uuid
    case Unset => None
    case Uuid16(v) => Some(List16(complete, [v], []))
    case Uuid32(v) => Some(List32(complete, [v], []))
    case Uuid128(bytes) => Some(List128(complete, bytes, []))
  }

  function StructuresOf(calls: seq<Call>): seq<Structure>
    requires ValidCalls(calls)
  {
    if calls == [] then []
    else
      var last := StructureOf(calls[|calls| - 1]);
      StructuresOf(calls[..|calls| - 1]) + if last.Some? then [last.value] else []
  }

  lemma UuidBytesAre(u: Uuid)
    requires WellFormed(u)
    ensures UuidBytes(u) == match u case Unset => [] case Uuid16(v) => Bytes16(v) case Uuid32(v) => Bytes32(v)
                                    case Uuid128(bytes) => bytes
  {
    if u.Uuid32? {
      assert u.medium / 65536 == u.medium / 256 / 256 && u.medium / 16777216 == u.medium / 256 / 256 / 256;
    }
  }

  lemma OneOf(v: Word16, w: Word32)
    ensures All16([v]) == Bytes16(v) && All32([w]) == Bytes32(w)
  {
    assert All16([v][..0]) == [] && All32([w][..0]) == [];
  }

  /** The record a call appends is its structure. */
  lemma RecordIsStructure(c: Call)
    requires ValidCall(c) && |RecordOf(c)| <= 31
    ensures StructureOf(c).None? ==> RecordOf(c) == []
    ensures StructureOf(c).Some? ==> Valid(StructureOf(c).value) && RecordOf(c) == Encode(StructureOf(c).value)
  {
    hide UuidBytes, Bytes16, Bytes32, All16, All32, UuidRecord;
    match c
    case CompleteServices(u) => ListIsStructure(c, u);
    case PartialServices(u) => ListIsStructure(c, u);
    case ServiceData(u, _) => ServiceDataIsStructure(c);
    case Appearance(v) => AppearanceBytes(v);
    case _ =>
  }

  lemma ServiceDataIsStructure(c: Call)
    requires ValidCall(c) && c.ServiceData? && |RecordOf(c)| <= 31
    ensures StructureOf(c).None? ==> RecordOf(c) == []
    ensures StructureOf(c).Some? ==> Valid(StructureOf(c).value) && RecordOf(c) == Encode(StructureOf(c).value)
  {
    hide UuidBytes, Bytes16, Bytes32;
    UuidBytesAre(c.uuid);
  }

  lemma AppearanceBytes(v: Word16)
    ensures Bytes16(v) == [v % 256, v / 256]
  {}

  lemma ListIsStructure(c: Call, u: Uuid)
    requires ValidCall(c) && (c == CompleteServices(u) || c == PartialServices(u))
    ensures StructureOf(c).None? ==> RecordOf(c) == []
    ensures StructureOf(c).Some? ==> Valid(StructureOf(c).value) && RecordOf(c) == Encode(StructureOf(c).value)
  {
    hide UuidBytes, Bytes16, Bytes32, All16, All32;
    UuidBytesAre(u);
    match u
    case Unset =>
    case Uuid16(v) => OneOf(v, 0);
    case Uuid32(v) => OneOf(0, v);
    case Uuid128(_) =>
  }

  /** A call appends its record if the payload then has at most 31 bytes, and nothing otherwise. */
  lemma BuildStep(calls: seq<Call>, c: Call)
    requires ValidCalls(calls) && ValidCall(c)
    ensures ValidCalls(calls + [c])
    ensures Build(calls + [c]) ==
            if |Build(calls)| + |RecordOf(c)| <= 31 then Build(calls) + RecordOf(c) else Build(calls)
    ensures Accepted(calls + [c]) ==
            if |Build(calls)| + |RecordOf(c)| <= 31 then Accepted(calls) + [c] else Accepted(calls)
  {
    assert (calls + [c])[..|calls|] == calls;
  }

  /** Every byte of the payload belongs to the structure of an accepted call, in call order. */
  lemma {:induction false} PayloadIsStructures(calls: seq<Call>)
    requires ValidCalls(calls)
    ensures AllValid(StructuresOf(Accepted(calls)))
    ensures Build(calls) == EncodeAll(StructuresOf(Accepted(calls)))
  {
    if calls != [] {
      var n := |calls| - 1;
      var init, last := calls[..n], calls[n];
      assert calls == init + [last];
      PayloadIsStructures(init);
      hide Build, Accepted, RecordOf, StructureOf, Encode, Valid;
      BuildStep(init, last);
      if |Build(init)| + |RecordOf(last)| <= 31 {
        RecordIsStructure(last);
        StructuresSnoc(Accepted(init), last);
      }
    }
  }

  lemma StructuresSnoc(calls: seq<Call>, c: Call)
    requires ValidCalls(calls) && ValidCall(c) && AllValid(StructuresOf(calls))
    requires StructureOf(c).Some? ==> Valid(StructureOf(c).value)
    ensures var s, t := StructuresOf(calls), StructuresOf(calls + [c]);
            && AllValid(t)
            && EncodeAll(t) == EncodeAll(s) + if StructureOf(c).Some? then Encode(StructureOf(c).value) else []
  {
    hide StructureOf, Encode, Valid;
    assert (calls + [c])[..|calls|] == calls;
    var s := StructuresOf(calls);
    if StructureOf(c).Some? {
      assert (s + [StructureOf(c).value])[..|s|] == s;
    } else {
      assert StructuresOf(calls + [c]) == s;
    }
  }

  // ---------------------------------------------------------------------------
  // Splitting a payload
  // ---------------------------------------------------------------------------

  /** Type and data of each record, by the length bytes alone. */
  function Split(mem: seq<byte>): seq<(byte, seq<byte>)>
    decreases |mem|
  {
    if mem == [] then []
    else if mem[0] == 0 then Split(mem[1..])
    else if |mem| < 1 + mem[0] as int then []
    else [(mem[1], mem[2..1 + (mem[0] as int)])] + Split(mem[1 + (mem[0] as int)..])
  }

  function Entries(structures: seq<Structure>): seq<(byte, seq<byte>)> {
    if structures == [] then []
    else
      (if structures[0].Filler? then [] else [(TypeOf(structures[0]), DataOf(structures[0]))])
      + Entries(structures[1..])
  }

  lemma {:induction false} EncodeAllCons(structures: seq<Structure>)
    requires AllValid(structures) && structures != []
    ensures EncodeAll(structures) == Encode(structures[0]) + EncodeAll(structures[1..])
  {
    hide Encode, Valid;
    var n := |structures| - 1;
    if n > 0 {
      EncodeAllCons(structures[..n]);
      assert structures[..n][1..] == structures[1..][..n - 1];
      Reassociate(Encode(structures[0]), EncodeAll(structures[1..][..n - 1]), Encode(structures[n]));
    } else {
      assert structures[..0] == [] && structures[1..] == [];
    }
  }

  /** Splitting a stream of structures yields the type and the data of each. */
  lemma {:induction false} StreamSplits(structures: seq<Structure>)
    requires AllValid(structures)
    ensures Split(EncodeAll(structures)) == Entries(structures)
  {
    if structures != [] {
      var s, more := structures[0], EncodeAll(structures[1..]);
      EncodeAllCons(structures);
      StreamSplits(structures[1..]);
      hide DataOf, TypeOf, EncodeAll;
      var mem := Encode(s) + more;
      if s.Filler? {
        assert mem[1..] == more;
      } else {
        var length := |DataOf(s)| + 1;
        assert mem[0] == length && mem[1] == TypeOf(s);
        assert mem[2..1 + length] == DataOf(s) && mem[1 + length..] == more;
      }
    }
  }

  /**
    For every sequence of builder calls, splitting the payload yields exactly one
    record for each accepted call that has one, of the type and with the data it
    stands for.
   */
  lemma BuildThenSplit(calls: seq<Call>)
    requires ValidCalls(calls)
    ensures Split(Build(calls)) == Entries(StructuresOf(Accepted(calls)))
  {
    PayloadIsStructures(calls);
    StreamSplits(StructuresOf(Accepted(calls)));
  }
}
