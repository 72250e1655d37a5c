/**
  Advertising payloads (Bluetooth Core Specification, Vol 3, Part C, section 11):
  what the builder calls append and what the parser makes of a payload.
 */
module AdRecords {
  import opened Sequences
  import opened BleUuid

  const ADV_DATA_LEN_MAX := 31

  const FLAG: byte := 0x01
  const SRV16_PART: byte := 0x02
  const SRV16_CMPL: byte := 0x03
  const SRV32_PART: byte := 0x04
  const SRV32_CMPL: byte := 0x05
  const SRV128_PART: byte := 0x06
  const SRV128_CMPL: byte := 0x07
  const NAME_SHORT: byte := 0x08
  const NAME_CMPL: byte := 0x09
  const TX_PWR: byte := 0x0A
  const SERVICE_DATA: byte := 0x16
  const APPEARANCE: byte := 0x19
  const SERVICE_DATA32: byte := 0x20
  const SERVICE_DATA128: byte := 0x21
  const MANUFACTURER: byte := 0xFF

  /** What a scanned device is known to advertise. */
  datatype Device = Device(
    adFlag: byte,
    appearance: Option<Word16>,
    name: Option<seq<byte>>,
    manufacturerData: Option<seq<byte>>,
    txPower: Option<int>,
    serviceUUIDs: seq<Uuid>,
    serviceDataUUIDs: seq<Uuid>,
    serviceData: seq<seq<byte>>)

  const NOTHING := Device(0, None, None, None, None, [], [], [])

  // ---------------------------------------------------------------------------
  // Parsing
  // ---------------------------------------------------------------------------

  function Word16At(p: seq<byte>, i: nat): Word16
    requires i + 2 <= |p|
  {
    Stored(p[i], p[i + 1], 0, 0)
  }

  function Word32At(p: seq<byte>, i: nat): Word32
    requires i + 4 <= |p|
  {
    Stored(p[i], p[i + 1], p[i + 2], p[i + 3])
  }

  function Uuids16(p: seq<byte>, count: nat): seq<Uuid>
    requires 2 * count <= |p|
  {
    if count == 0 then [] else Uuids16(p, count - 1) + [Uuid16(Word16At(p, 2 * (count - 1)))]
  }

  function Uuids32(p: seq<byte>, count: nat): seq<Uuid>
    requires 4 * count <= |p|
  {
    if count == 0 then [] else Uuids32(p, count - 1) + [Uuid32(Word32At(p, 4 * (count - 1)))]
  }

  function Signed(b: byte): int {
    if b < 128 then b else b - 256
  }

  /** The bytes a record of this type is read for, whatever its length says. */
  function Needs(adType: byte): nat {
    if adType == TX_PWR || adType == FLAG then 1
    else if adType == APPEARANCE then 2
    else if adType == SRV128_CMPL || adType == SRV128_PART then 16
    else 0
  }

  function WithServiceData(d: Device, u: Uuid, data: seq<byte>): Device {
    d.(serviceDataUUIDs := d.serviceDataUUIDs + [u],
       serviceData := if data == [] then d.serviceData else d.serviceData + [data])
  }

  /** One record: `p` is all memory behind its header, `n` the length of its data. */
  function ApplyRecord(d: Device, adType: byte, p: seq<byte>, n: nat): Device
    requires n <= |p| && Needs(adType) <= |p|
  {
    if adType == NAME_CMPL then d.(name := Some(p[..n]))
    else if adType == TX_PWR then d.(txPower := Some(Signed(p[0])))
    else if adType == APPEARANCE then d.(appearance := Some(Word16At(p, 0)))
    else if adType == FLAG then d.(adFlag := p[0])
    else if adType == SRV16_CMPL || adType == SRV16_PART then
      d.(serviceUUIDs := d.serviceUUIDs + Uuids16(p, n / 2))
    else if adType == SRV32_CMPL || adType == SRV32_PART then
      d.(serviceUUIDs := d.serviceUUIDs + Uuids32(p, n / 4))
    else if adType == SRV128_CMPL || adType == SRV128_PART then
      d.(serviceUUIDs := d.serviceUUIDs + [Uuid128(p[..16])])
    else if adType == MANUFACTURER then d.(manufacturerData := Some(p[..n]))
    else if adType == SERVICE_DATA then
      if n < 2 then d else WithServiceData(d, Uuid16(Word16At(p, 0)), p[2..n])
    else if adType == SERVICE_DATA32 then
      if n < 4 then d else WithServiceData(d, Uuid32(Word32At(p, 0)), p[4..n])
    else if adType == SERVICE_DATA128 then
      if n < 16 then d else WithServiceData(d, Uuid128(p[..16]), p[16..n])
    else d
  }

  /** The first record (a zero byte is one of its own) is complete and can be read. */
  predicate Complete(mem: seq<byte>)
    requires mem != []
  {
    mem[0] == 0 || (1 + mem[0] <= |mem| && Needs(mem[1]) <= |mem| - 2)
  }

  function Tail(mem: seq<byte>): seq<byte>
    requires mem != [] && Complete(mem)
  {
    mem[1 + (mem[0] as int)..]
  }

  function Absorb(mem: seq<byte>, d: Device): Device
    requires mem != [] && Complete(mem)
  {
    if mem[0] == 0 then d else ApplyRecord(d, mem[1], mem[2..], mem[0] - 1)
  }

  /** Every read the parser makes of these records lies inside them as a whole. */
  predicate Readable(mem: seq<byte>)
    decreases |mem|
  {
    mem != [] ==> Complete(mem) && Readable(Tail(mem))
  }

  /** Moreover each record is itself as long as its type needs. */
  predicate Records(mem: seq<byte>)
    decreases |mem|
  {
    mem != [] ==> Complete(mem) && (mem[0] != 0 ==> Needs(mem[1]) <= mem[0] - 1) && Records(Tail(mem))
  }

  function Parse(mem: seq<byte>, d: Device): Device
    requires Readable(mem)
    decreases |mem|
  {
    if mem == [] then d else Parse(Tail(mem), Absorb(mem, d))
  }

  lemma {:induction false} RecordsReadable(mem: seq<byte>)
    requires Records(mem)
    ensures Readable(mem)
    decreases |mem|
  {
    if mem != [] {
      RecordsReadable(Tail(mem));
    }
  }

  /** A record as long as its type needs is read within its own data. */
  lemma RecordIsLocal(d: Device, adType: byte, p: seq<byte>, more: seq<byte>, n: nat)
    requires Needs(adType) <= n <= |p|
    ensures ApplyRecord(d, adType, p + more, n) == ApplyRecord(d, adType, p, n)
  {
    assert (p + more)[..n] == p[..n];
    assert n >= 2 ==> (p + more)[2..n] == p[2..n];
    assert n >= 4 ==> (p + more)[4..n] == p[4..n];
    assert n >= 16 ==> (p + more)[16..n] == p[16..n] && (p + more)[..16] == p[..16];
    UuidsAreLocal(p, more, n / 2, n / 4);
  }

  lemma {:induction false} UuidsAreLocal(p: seq<byte>, more: seq<byte>, short: nat, medium: nat)
    requires 2 * short <= |p| && 4 * medium <= |p|
    ensures Uuids16(p + more, short) == Uuids16(p, short)
    ensures Uuids32(p + more, medium) == Uuids32(p, medium)
    decreases short + medium
  {
    if short > 0 {
      UuidsAreLocal(p, more, short - 1, medium);
    } else if medium > 0 {
      UuidsAreLocal(p, more, short, medium - 1);
    }
  }

  lemma FirstRecordConcat(first: seq<byte>, second: seq<byte>, d: Device)
    requires first != [] && Complete(first) && (first[0] != 0 ==> Needs(first[1]) <= first[0] - 1)
    ensures Complete(first + second) && Tail(first + second) == Tail(first) + second
    ensures Absorb(first + second, d) == Absorb(first, d)
  {
    hide ApplyRecord, Needs;
    if first[0] != 0 {
      assert (first + second)[2..] == first[2..] + second;
      RecordIsLocal(d, first[1], first[2..], second, first[0] - 1);
    }
  }

  /**
    Parsing an advertisement followed by a scan response is parsing the first and
    then the second from the state the first left.
   */
  lemma {:induction false} ParseConcat(first: seq<byte>, second: seq<byte>, d: Device)
    requires Records(first) && Readable(second)
    ensures Readable(first) && Readable(first + second)
    ensures Parse(first + second, d) == Parse(second, Parse(first, d))
    ensures Records(second) ==> Records(first + second)
    decreases |first|
  {
    hide Absorb, Needs;
    if first == [] {
      assert first + second == second;
    } else {
      FirstRecordConcat(first, second, d);
      ParseConcat(Tail(first), second, Absorb(first, d));
    }
  }

  // ---------------------------------------------------------------------------
  // Building
  // ---------------------------------------------------------------------------

  datatype Call =
    | Flags(flags: byte)
    | Appearance(appearance: Word16)
    | Name(name: seq<byte>)
    | ShortName(name: seq<byte>)
    | ManufacturerData(data: seq<byte>)
    | CompleteServices(uuid: Uuid)
    | PartialServices(uuid: Uuid)
    | ServiceData(uuid: Uuid, data: seq<byte>)

  predicate ValidCall(c: Call) {
    c.CompleteServices? || c.PartialServices? || c.ServiceData? ==> WellFormed(c.uuid)
  }

  /** The bytes of a UUID on the air. */
  function UuidBytes(u: Uuid): (bytes: seq<byte>)
    requires WellFormed(u)
    ensures |bytes| == (match u case Unset => 0 case Uuid16(_) => 2 case Uuid32(_) => 4 case Uuid128(_) => 16)
  {
    match u
    case Unset => []
    case Uuid16(v) => [v % 256, v / 256]
    case Uuid32(v) => LittleEndian(v)
    case Uuid128(bytes) => bytes
  }

  /** A record; its length byte is a character and wraps. */
  function Rec(adType: byte, data: seq<byte>): seq<byte> {
    [(|data| + 1) % 256, adType] + data
  }

  /** A record whose type depends on the size of the UUID; none for an unset one. */
  function UuidRecord(u: Uuid, t16: byte, t32: byte, t128: byte, data: seq<byte>): seq<byte>
    requires WellFormed(u)
  {
    if u.Unset? then []
    else Rec(if u.Uuid16? then t16 else if u.Uuid32? then t32 else t128, UuidBytes(u) + data)
  }

  function RecordOf(c: Call): seq<byte>
    requires ValidCall(c)
  {
    match c
    case Flags(flags) => Rec(FLAG, [flags])
    case Appearance(v) => Rec(APPEARANCE, [v % 256, v / 256])
    case Name(name) => Rec(NAME_CMPL, name)
    case ShortName(name) => Rec(NAME_SHORT, name)
    case ManufacturerData(data) => Rec(MANUFACTURER, data)
    case CompleteServices(u) => UuidRecord(u, SRV16_CMPL, SRV32_CMPL, SRV128_CMPL, [])
    case PartialServices(u) => UuidRecord(u, SRV16_PART, SRV32_PART, SRV128_PART, [])
    case ServiceData(u, data) => UuidRecord(u, SERVICE_DATA, SERVICE_DATA32, SERVICE_DATA128, data)
  }

  predicate Fits(payload: seq<byte>, data: seq<byte>) {
    |payload| + |data| <= ADV_DATA_LEN_MAX
  }

  function AddData(payload: seq<byte>, data: seq<byte>): seq<byte> {
    if Fits(payload, data) then payload + data else payload
  }

  ghost predicate ValidCalls(calls: seq<Call>) {
    forall i | 0 <= i < |calls| :: ValidCall(calls[i])
  }

  /** The payload after a sequence of calls on an empty builder. */
  function Build(calls: seq<Call>): seq<byte>
    requires ValidCalls(calls)
  {
    if calls == [] then []
    else AddData(Build(calls[..|calls| - 1]), RecordOf(calls[|calls| - 1]))
  }

  /** The calls that were not dropped for lack of room. */
  function Accepted(calls: seq<Call>): (accepted: seq<Call>)
    requires ValidCalls(calls)
    ensures ValidCalls(accepted)
  {
    if calls == [] then []
    else
      var init, last := calls[..|calls| - 1], calls[|calls| - 1];
      Accepted(init) + if Fits(Build(init), RecordOf(last)) then [last] else []
  }

  function RecordsOf(calls: seq<Call>): seq<seq<byte>>
    requires ValidCalls(calls)
  {
    if calls == [] then [] else RecordsOf(calls[..|calls| - 1]) + [RecordOf(calls[|calls| - 1])]
  }

  /** The payload is the records of the accepted calls; an oversized call adds no byte. */
  lemma {:induction false} BuildIsWholeRecords(calls: seq<Call>)
    requires ValidCalls(calls)
    ensures Build(calls) == Flatten(RecordsOf(Accepted(calls)))
  {
    if calls != [] {
      var init, last := calls[..|calls| - 1], calls[|calls| - 1];
      BuildIsWholeRecords(init);
      if Fits(Build(init), RecordOf(last)) {
        assert (Accepted(init) + [last])[..|Accepted(init)|] == Accepted(init);
        FlattenSnoc(RecordsOf(Accepted(init)), RecordOf(last));
      } else {
        assert Accepted(calls) == Accepted(init);
      }
    }
  }

  // ---------------------------------------------------------------------------
  // What a receiver should know after the calls
  // ---------------------------------------------------------------------------

  function LastFlags(calls: seq<Call>): byte {
    if calls == [] then 0
    else if calls[|calls| - 1].Flags? then calls[|calls| - 1].flags
    else LastFlags(calls[..|calls| - 1])
  }

  function LastAppearance(calls: seq<Call>): Option<Word16> {
    if calls == [] then None
    else if calls[|calls| - 1].Appearance? then Some(calls[|calls| - 1].appearance)
    else LastAppearance(calls[..|calls| - 1])
  }

  /** Short names are not recognised by the parser. */
  function LastName(calls: seq<Call>): Option<seq<byte>> {
    if calls == [] then None
    else if calls[|calls| - 1].Name? then Some(calls[|calls| - 1].name)
    else LastName(calls[..|calls| - 1])
  }

  function LastManufacturerData(calls: seq<Call>): Option<seq<byte>> {
    if calls == [] then None
    else if calls[|calls| - 1].ManufacturerData? then Some(calls[|calls| - 1].data)
    else LastManufacturerData(calls[..|calls| - 1])
  }

  function Services(calls: seq<Call>): seq<Uuid> {
    if calls == [] then []
    else
      var c := calls[|calls| - 1];
      Services(calls[..|calls| - 1])
      + if (c.CompleteServices? || c.PartialServices?) && !c.uuid.Unset? then [c.uuid] else []
  }

  function ServiceDataUuids(calls: seq<Call>): seq<Uuid> {
    if calls == [] then []
    else
      var c := calls[|calls| - 1];
      ServiceDataUuids(calls[..|calls| - 1]) + if c.ServiceData? && !c.uuid.Unset? then [c.uuid] else []
  }

  function ServiceDatas(calls: seq<Call>): seq<seq<byte>> {
    if calls == [] then []
    else
      var c := calls[|calls| - 1];
      ServiceDatas(calls[..|calls| - 1])
      + if c.ServiceData? && !c.uuid.Unset? && c.data != [] then [c.data] else []
  }

  /** Last values win; lists keep the order of the calls. */
  function Advertised(calls: seq<Call>): Device {
    Device(LastFlags(calls), LastAppearance(calls), LastName(calls), LastManufacturerData(calls), None,
           Services(calls), ServiceDataUuids(calls), ServiceDatas(calls))
  }

  // ---------------------------------------------------------------------------
  // Round trip
  // ---------------------------------------------------------------------------

  lemma ParseRec(adType: byte, data: seq<byte>, d: Device)
    requires |data| < 255 && Needs(adType) <= |data|
    ensures Records(Rec(adType, data)) && Readable(Rec(adType, data))
    ensures Parse(Rec(adType, data), d) == ApplyRecord(d, adType, data, |data|)
  {
    var mem := Rec(adType, data);
    assert mem[0] == |data| + 1 && mem[2..] == data;
    assert Tail(mem) == [];
  }

  lemma UuidRoundTrip(u: Uuid, data: seq<byte>)
    requires WellFormed(u)
    ensures var p := UuidBytes(u) + data;
            && (u.Uuid16? ==> Uuid16(Word16At(p, 0)) == u && p[2..] == data)
            && (u.Uuid32? ==> Uuid32(Word32At(p, 0)) == u && p[4..] == data)
            && (u.Uuid128? ==> Uuid128(p[..16]) == u && p[16..] == data)
  {
    var p := UuidBytes(u) + data;
    assert p[..|UuidBytes(u)|] == UuidBytes(u) && p[|UuidBytes(u)|..] == data;
  }

  /** What one accepted call adds to the receiver's knowledge. */
  function Effect(d: Device, c: Call): Device {
    match c
    case Flags(flags) => d.(adFlag := flags)
    case Appearance(v) => d.(appearance := Some(v))
    case Name(name) => d.(name := Some(name))
    case ShortName(_) => d
    case ManufacturerData(data) => d.(manufacturerData := Some(data))
    case ServiceData(u, data) => if u.Unset? then d else WithServiceData(d, u, data)
    case _ => if c.uuid.Unset? then d else d.(serviceUUIDs := d.serviceUUIDs + [c.uuid])
  }

  lemma AdvertisedSnoc(calls: seq<Call>, c: Call)
    ensures Advertised(calls + [c]) == Effect(Advertised(calls), c)
  {
    assert (calls + [c])[..|calls|] == calls;
  }

  lemma CallParses(c: Call, d: Device)
    requires ValidCall(c) && |RecordOf(c)| <= ADV_DATA_LEN_MAX
    ensures Records(RecordOf(c)) && Readable(RecordOf(c))
    ensures Parse(RecordOf(c), d) == Effect(d, c)
  {
    hide Parse, Records, Readable;
    assert c.Name? ==> c.name[..|c.name|] == c.name;
    assert c.ManufacturerData? ==> c.data[..|c.data|] == c.data;
    match c
    case Flags(flags) => ParseRec(FLAG, [flags], d);
    case Appearance(v) => ParseRec(APPEARANCE, [v % 256, v / 256], d);
    case Name(name) => ParseRec(NAME_CMPL, name, d);
    case ShortName(name) => ParseRec(NAME_SHORT, name, d);
    case ManufacturerData(data) => ParseRec(MANUFACTURER, data, d);
    case CompleteServices(u) => ServicesParse(c, d);
    case PartialServices(u) => ServicesParse(c, d);
    case ServiceData(u, data) => ServiceDataParses(c, d);
  }

  lemma OneUuid(u: Uuid)
    requires WellFormed(u)
    ensures u.Uuid16? ==> Uuids16(UuidBytes(u) + [], 1) == [u]
    ensures u.Uuid32? ==> Uuids32(UuidBytes(u) + [], 1) == [u]
    ensures u.Uuid128? ==> (UuidBytes(u) + [])[..16] == u.bytes
  {
    UuidRoundTrip(u, []);
    var data := UuidBytes(u) + [];
    assert u.Uuid16? ==> Uuids16(data, 0) == [];
    assert u.Uuid32? ==> Uuids32(data, 0) == [];
  }

  /** The record types of a list of services with the size of `u`. */
  predicate ListsService(adType: byte, u: Uuid) {
    match u
    case Unset => false
    case Uuid16(_) => adType == SRV16_CMPL || adType == SRV16_PART
    case Uuid32(_) => adType == SRV32_CMPL || adType == SRV32_PART
    case Uuid128(_) => adType == SRV128_CMPL || adType == SRV128_PART
  }

  lemma ServiceApplies(adType: byte, u: Uuid, d: Device)
    requires WellFormed(u) && ListsService(adType, u)
    ensures var p := UuidBytes(u) + [];
            && Needs(adType) <= |p|
            && ApplyRecord(d, adType, p, |p|) == d.(serviceUUIDs := d.serviceUUIDs + [u])
  {
    hide Uuids16, Uuids32;
    OneUuid(u);
  }

  lemma ServicesParse(c: Call, d: Device)
    requires ValidCall(c) && (c.CompleteServices? || c.PartialServices?)
    ensures Records(RecordOf(c)) && Readable(RecordOf(c))
    ensures Parse(RecordOf(c), d) == Effect(d, c)
  {
    var u := c.uuid;
    if !u.Unset? {
      hide Parse, Records, Readable, ApplyRecord, Needs, UuidBytes;
      ServiceApplies(RecordOf(c)[1], u, d);
      ParseRec(RecordOf(c)[1], UuidBytes(u) + [], d);
    }
  }

  lemma ServiceDataApplies(u: Uuid, data: seq<byte>, d: Device)
    requires WellFormed(u) && !u.Unset?
    ensures var p := UuidBytes(u) + data;
            var adType := if u.Uuid16? then SERVICE_DATA else if u.Uuid32? then SERVICE_DATA32 else SERVICE_DATA128;
            && Needs(adType) <= |p|
            && ApplyRecord(d, adType, p, |p|) == WithServiceData(d, u, data)
  {
    hide Uuids16, Uuids32, WithServiceData, Word16At, Word32At;
    var p := UuidBytes(u) + data;
    UuidRoundTrip(u, data);
    assert p[|UuidBytes(u)|..|p|] == data;
  }

  lemma ServiceDataParses(c: Call, d: Device)
    requires ValidCall(c) && c.ServiceData? && |RecordOf(c)| <= ADV_DATA_LEN_MAX
    ensures Records(RecordOf(c)) && Readable(RecordOf(c))
    ensures Parse(RecordOf(c), d) == Effect(d, c)
  {
    var u := c.uuid;
    if !u.Unset? {
      hide Parse, Records, Readable, ApplyRecord, Needs, UuidBytes;
      ServiceDataApplies(u, c.data, d);
      ParseRec(RecordOf(c)[1], UuidBytes(u) + c.data, d);
    }
  }

  /**
    For every sequence of builder calls the payload is at most 31 bytes of
    well-formed records, and parsing it recovers the last accepted flags,
    appearance, name and manufacturer data and, in call order, all accepted
    service UUIDs, service data UUIDs and non-empty service data.
   */
  lemma {:induction false} BuildThenParse(calls: seq<Call>)
    requires ValidCalls(calls)
    ensures var payload := Build(calls);
            && |payload| <= ADV_DATA_LEN_MAX
            && Records(payload) && Readable(payload)
            && Parse(payload, NOTHING) == Advertised(Accepted(calls))
  {
    if calls != [] {
      var init, last := calls[..|calls| - 1], calls[|calls| - 1];
      BuildThenParse(init);
      hide Parse, Records, Readable, Effect, Advertised, RecordOf;
      assert Accepted(init) + [] == Accepted(init);
      if Fits(Build(init), RecordOf(last)) {
        AdvertisedSnoc(Accepted(init), last);
        CallParses(last, Advertised(Accepted(init)));
        ParseConcat(Build(init), RecordOf(last), NOTHING);
      }
    }
  }
}
