/**
  The two objects on either end of an advertisement: the builder, whose calls
  append to its payload, and the scanned device, which a pass over the received
  bytes fills in.
 */
module AdObjects {
  import opened Sequences
  import opened BleUuid
  import opened AdRecords

  class AdvertisementData {
    var payload: seq<byte>
    ghost var calls: seq<Call>

    /** The payload is what the calls so far build. */
    ghost predicate Valid()
      reads this
    {
      ValidCalls(calls) && payload == Build(calls)
    }

    constructor ()
      ensures Valid() && calls == []
    {
      payload, calls := [], [];
    }

    /** Appends `data`, or nothing at all if it does not fit. */
    method AppendData(data: seq<byte>)
      modifies this`payload
      ensures payload == if |old(payload)| + |data| <= 31 then old(payload) + data else old(payload)
    {
      if |payload| + |data| > ADV_DATA_LEN_MAX {
        return;
      }
      payload := payload + data;
    }

    method AddRecord(c: Call, cdata: seq<byte>, data: seq<byte>)
      requires Valid() && ValidCall(c) && cdata + data == RecordOf(c)
      modifies this
      ensures Valid() && calls == old(calls) + [c]
    {
      AppendData(cdata + data);
      assert (calls + [c])[..|calls|] == calls;
      calls := calls + [c];
    }

    /** A call that has nothing to add, because the UUID is not set. */
    ghost method NoRecord(c: Call)
      requires Valid() && ValidCall(c) && RecordOf(c) == []
      modifies this`calls
      ensures Valid() && calls == old(calls) + [c]
    {
      assert (calls + [c])[..|calls|] == calls;
      assert Fits(payload, []) || AddData(payload, []) == payload;
      calls := calls + [c];
    }

    method SetFlags(flag: byte)
      requires Valid()
      modifies this
      ensures Valid() && calls == old(calls) + [Flags(flag)]
    {
      AddRecord(Flags(flag), [2, FLAG], [flag]);
    }

    method SetAppearance(appearance: Word16)
      requires Valid()
      modifies this
      ensures Valid() && calls == old(calls) + [Appearance(appearance)]
    {
      AddRecord(Appearance(appearance), [3, APPEARANCE], [appearance % 256, appearance / 256]);
    }

    method SetName(name: seq<byte>)
      requires Valid()
      modifies this
      ensures Valid() && calls == old(calls) + [Name(name)]
    {
      AddRecord(Name(name), [(|name| + 1) % 256, NAME_CMPL], name);
    }

    method SetShortName(name: seq<byte>)
      requires Valid()
      modifies this
      ensures Valid() && calls == old(calls) + [ShortName(name)]
    {
      AddRecord(ShortName(name), [(|name| + 1) % 256, NAME_SHORT], name);
    }

    method SetManufacturerData(data: seq<byte>)
      requires Valid()
      modifies this
      ensures Valid() && calls == old(calls) + [ManufacturerData(data)]
    {
      AddRecord(ManufacturerData(data), [(|data| + 1) % 256, MANUFACTURER], data);
    }

    method SetCompleteServices(uuid: Uuid)
      requires Valid() && WellFormed(uuid)
      modifies this
      ensures Valid() && calls == old(calls) + [CompleteServices(uuid)]
    {
      var c := CompleteServices(uuid);
      match uuid
      case Uuid16(_) => AddRecord(c, [3, SRV16_CMPL], UuidBytes(uuid));
      case Uuid32(_) => AddRecord(c, [5, SRV32_CMPL], UuidBytes(uuid));
      case Uuid128(_) => AddRecord(c, [17, SRV128_CMPL], UuidBytes(uuid));
      case Unset => NoRecord(c);
    }

    method SetPartialServices(uuid: Uuid)
      requires Valid() && WellFormed(uuid)
      modifies this
      ensures Valid() && calls == old(calls) + [PartialServices(uuid)]
    {
      var c := PartialServices(uuid);
      match uuid
      case Uuid16(_) => AddRecord(c, [3, SRV16_PART], UuidBytes(uuid));
      case Uuid32(_) => AddRecord(c, [5, SRV32_PART], UuidBytes(uuid));
      case Uuid128(_) => AddRecord(c, [17, SRV128_PART], UuidBytes(uuid));
      case Unset => NoRecord(c);
    }

    method SetServiceData(uuid: Uuid, data: seq<byte>)
      requires Valid() && WellFormed(uuid)
      modifies this
      ensures Valid() && calls == old(calls) + [ServiceData(uuid, data)]
    {
      var c := ServiceData(uuid, data);
      match uuid
      case Uuid16(_) => AddRecord(c, [(|data| + 3) % 256, SERVICE_DATA], UuidBytes(uuid) + data);
      case Uuid32(_) => AddRecord(c, [(|data| + 5) % 256, SERVICE_DATA32], UuidBytes(uuid) + data);
      case Uuid128(_) => AddRecord(c, [(|data| + 17) % 256, SERVICE_DATA128], UuidBytes(uuid) + data);
      case Unset => NoRecord(c);
    }
  }

  /** The parser's next step, seen from the whole memory. */
  lemma NextRecord(mem: seq<byte>, at: nat, d: Device)
    requires at < |mem| && Complete(mem[at..])
    ensures at + 1 + mem[at] as int <= |mem| && Tail(mem[at..]) == mem[at + 1 + mem[at] as int..]
    ensures Readable(mem[at..]) <==> Readable(Tail(mem[at..]))
    ensures Readable(mem[at..]) ==> Parse(mem[at..], d) == Parse(Tail(mem[at..]), Absorb(mem[at..], d))
  {
    hide ApplyRecord, Needs;
  }

  lemma UnreadableIfIncomplete(mem: seq<byte>)
    requires mem != []
    ensures Readable(mem) ==> Complete(mem)
  {
    hide Complete;
  }

  /** Completeness, in terms of the whole memory. */
  lemma Incomplete(mem: seq<byte>, at: nat)
    requires at < |mem|
    ensures Complete(mem[at..]) <==>
            mem[at] == 0 || (at + 1 + mem[at] as int <= |mem| && at + 2 + Needs(mem[at + 1]) <= |mem|)
  {
    hide Needs;
  }

  lemma ParseEnd(mem: seq<byte>, d: Device)
    requires mem == []
    ensures Readable(mem) && Parse(mem, d) == d
  {}

  class AdvertisedDevice {
    var adFlag: byte
    var appearance: Word16
    var haveAppearance: bool
    var name: seq<byte>
    var haveName: bool
    var manufacturerData: seq<byte>
    var haveManufacturerData: bool
    var txPower: int
    var haveTXPower: bool
    var serviceUUIDs: seq<Uuid>
    var serviceDataUUIDs: seq<Uuid>
    var serviceData: seq<seq<byte>>

    function View(): Device
      reads this
    {
      Device(adFlag,
             if haveAppearance then Some(appearance) else None,
             if haveName then Some(name) else None,
             if haveManufacturerData then Some(manufacturerData) else None,
             if haveTXPower then Some(txPower) else None,
             serviceUUIDs, serviceDataUUIDs, serviceData)
    }

    constructor ()
      ensures View() == NOTHING
    {
      adFlag, appearance, txPower := 0, 0, 0;
      name, manufacturerData := [], [];
      haveAppearance, haveName, haveManufacturerData, haveTXPower := false, false, false, false;
      serviceUUIDs, serviceDataUUIDs, serviceData := [], [], [];
    }

    /** The fields filled from records of a fixed or open size. */
    method HandleField(adType: byte, p: seq<byte>, n: nat) returns (handled: bool)
      requires n <= |p| && Needs(adType) <= |p|
      modifies this
      ensures handled ==> View() == ApplyRecord(old(View()), adType, p, n)
      ensures !handled ==> View() == old(View())
      ensures handled <==> adType in {NAME_CMPL, TX_PWR, APPEARANCE, FLAG, MANUFACTURER}
    {
      handled := true;
      if adType == NAME_CMPL {
        name, haveName := p[..n], true;
      } else if adType == TX_PWR {
        txPower, haveTXPower := Signed(p[0]), true;
      } else if adType == APPEARANCE {
        appearance, haveAppearance := Word16At(p, 0), true;
      } else if adType == FLAG {
        adFlag := p[0];
      } else if adType == MANUFACTURER {
        manufacturerData, haveManufacturerData := p[..n], true;
      } else {
        handled := false;
      }
    }

    method HandleServices(adType: byte, p: seq<byte>, n: nat)
      requires n <= |p| && Needs(adType) <= |p|
      requires adType in {SRV16_PART, SRV16_CMPL, SRV32_PART, SRV32_CMPL, SRV128_PART, SRV128_CMPL}
      modifies this`serviceUUIDs
      ensures View() == ApplyRecord(old(View()), adType, p, n)
    {
      if adType == SRV16_CMPL || adType == SRV16_PART {
        for i := 0 to n / 2
          invariant serviceUUIDs == old(serviceUUIDs) + Uuids16(p, i)
        {
          serviceUUIDs := serviceUUIDs + [Uuid16(Word16At(p, i * 2))];
        }
      } else if adType == SRV32_CMPL || adType == SRV32_PART {
        for i := 0 to n / 4
          invariant serviceUUIDs == old(serviceUUIDs) + Uuids32(p, i)
        {
          serviceUUIDs := serviceUUIDs + [Uuid32(Word32At(p, i * 4))];
        }
      } else {
        serviceUUIDs := serviceUUIDs + [Uuid128(p[..16])];
      }
    }

    method AddServiceData(uuid: Uuid, data: seq<byte>)
      modifies this`serviceDataUUIDs, this`serviceData
      ensures View() == WithServiceData(old(View()), uuid, data)
    {
      serviceDataUUIDs := serviceDataUUIDs + [uuid];
      if |data| > 0 {
        serviceData := serviceData + [data];
      }
    }

    method HandleRecord(adType: byte, p: seq<byte>, n: nat)
      requires n <= |p| && Needs(adType) <= |p|
      modifies this
      ensures View() == ApplyRecord(old(View()), adType, p, n)
    {
      var handled := HandleField(adType, p, n);
      if handled {
        return;
      }
      if adType in {SRV16_PART, SRV16_CMPL, SRV32_PART, SRV32_CMPL, SRV128_PART, SRV128_CMPL} {
        HandleServices(adType, p, n);
      } else if adType == SERVICE_DATA && n >= 2 {
        AddServiceData(Uuid16(Word16At(p, 0)), p[2..n]);
      } else if adType == SERVICE_DATA32 && n >= 4 {
        AddServiceData(Uuid32(Word32At(p, 0)), p[4..n]);
      } else if adType == SERVICE_DATA128 && n >= 16 {
        AddServiceData(Uuid128(p[..16]), p[16..n]);
      }
    }

    /**
      The pass over the received bytes; `mem` is all the memory the parser was given.
      It counts what it has consumed in eight bits.  `ok` is false when the pass would
      read behind that memory, or a record says it extends there.  This happens
      exactly when a record is incomplete, or when there is no byte at all or more
      than the eight bits can count.
     */
    method ParseAdvertisement(mem: seq<byte>) returns (ok: bool)
      modifies this
      ensures ok <==> Readable(mem) && 1 <= |mem| <= 255
      ensures ok ==> View() == Parse(mem, old(View()))
    {
      var payload, sizeConsumed, finished := 0, 0, false;
      hide Parse, Readable, Complete, Tail, Absorb;
      assert mem[0..] == mem;
      while !finished
        invariant payload <= |mem| && sizeConsumed == payload % 256
        invariant Readable(mem) <==> Readable(mem[payload..])
        invariant Readable(mem) ==> Parse(mem, old(View())) == Parse(mem[payload..], View())
        invariant finished ==> 1 <= |mem| <= 255 && payload == |mem|
        invariant !finished ==> payload == 0 || payload % 256 < |mem|
        decreases |mem| - payload, !finished
      {
        if payload >= |mem| {
          return false;
        }
        ghost var before := View();
        UnreadableIfIncomplete(mem[payload..]);
        var complete, length := ParseRecord(mem, payload);
        if !complete {
          return false;
        }
        NextRecord(mem, payload, before);
        sizeConsumed := (sizeConsumed + 1 + length) % 256;
        payload := payload + 1 + length;
        finished := sizeConsumed >= |mem|;
      }
      ParseEnd(mem[payload..], View());
      return true;
    }

    /** One record, or a zero byte, which is skipped. */
    method ParseRecord(mem: seq<byte>, payload: nat) returns (complete: bool, length: byte)
      requires payload < |mem|
      modifies this
      ensures length == mem[payload]
      ensures complete <==> Complete(mem[payload..])
      ensures complete ==> View() == Absorb(mem[payload..], old(View()))
    {
      hide ApplyRecord, Needs;
      Incomplete(mem, payload);
      length := mem[payload];
      if length == 0 {
        return true, length;
      }
      if payload + 1 + (length as int) > |mem| || payload + 2 + Needs(mem[payload + 1]) > |mem| {
        return false, length;
      }
      HandleRecord(mem[payload + 1], mem[payload + 2..], length - 1);
      assert mem[payload..][2..] == mem[payload + 2..];
      return true, length;
    }
  }
}
