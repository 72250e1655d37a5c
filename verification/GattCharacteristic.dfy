/**
  The characteristic and the value it holds, as the event handler updates them.
  `Valid` says that their fields are what the requests so far lead to in GattValue.
 */
module GattCharacteristic {
  import opened Sequences
  import opened GattValue

  class BleValue {
    var accumulation: seq<byte>
    var readOffset: Word16
    var value: seq<byte>

    constructor ()
      ensures accumulation == [] && readOffset == 0 && value == []
    {
      accumulation, readOffset, value := [], 0, [];
    }

    method AddPart(part: seq<byte>)
      modifies this`accumulation
      ensures accumulation == old(accumulation) + part
    {
      accumulation := accumulation + part;
    }

    method CancelParts()
      modifies this`accumulation, this`readOffset
      ensures accumulation == [] && readOffset == 0
    {
      accumulation := [];
      readOffset := 0;
    }

    /** Makes the accumulated parts the value; without parts, nothing changes. */
    method Commit()
      modifies this
      ensures if old(accumulation) == [] then unchanged(this)
              else value == old(accumulation) && accumulation == [] && readOffset == 0
    {
      if |accumulation| == 0 {
        return;
      }
      value := accumulation;
      accumulation := [];
      readOffset := 0;
    }
  }

  class Characteristic {
    const handle: Word16
    const store: BleValue
    var writeEvt: bool
    ghost var events: seq<Event>

    ghost predicate Valid()
      reads this, store
    {
      State(store.value, store.accumulation, store.readOffset, writeEvt) == Run(events)
    }

    constructor (handle: Word16)
      ensures Valid() && fresh(store) && events == [] && this.handle == handle
    {
      this.handle := handle;
      store := new BleValue();
      writeEvt := false;
      events := [];
    }

    ghost method Log(e: Event)
      modifies this`events
      ensures events == old(events) + [e] && Run(events) == Step(Run(old(events)), e)
    {
      assert (events + [e])[..|events|] == events;
      events := events + [e];
    }

    /** Sets the value, unless it is too long. */
    method SetValue(data: seq<byte>)
      requires Valid()
      modifies this`events, store
      ensures Valid() && events == old(events) + [Direct(data)]
    {
      Log(Direct(data));
      if |data| > MAX_ATTR_LEN {
        return;
      }
      store.value := data;
    }

    /**
      A write request.  A prepared write is only accumulated; a request for another
      attribute is none of this characteristic's business.
     */
    method HandleWrite(attribute: Word16, isPrep: bool, offset: Word16, data: seq<byte>, needRsp: bool)
      returns (echo: Option<Response>)
      requires Valid()
      modifies this`writeEvt, this`events, store
      ensures Valid()
      ensures events == if attribute != handle then old(events)
                        else old(events) + [if isPrep then Prepare(data) else Direct(data)]
      ensures echo == if attribute == handle && needRsp then Some(Response(offset, data)) else None
    {
      if attribute != handle {
        return None;
      }
      if isPrep {
        store.AddPart(data);
        writeEvt := true;
        Log(Prepare(data));
      } else {
        SetValue(data);
      }
      echo := if needRsp then Some(Response(offset, data)) else None;
    }

    /**
      An execute or cancel request, which names no attribute: only a characteristic
      with a pending long write acts on it, and answers.
     */
    method HandleExecWrite(execute: bool) returns (answered: bool)
      requires Valid()
      modifies this`writeEvt, this`events, store
      ensures Valid() && !LongWritePending(events)
      ensures events == old(events) + [if execute then Execute else Cancel]
      ensures answered <==> LongWritePending(old(events))
    {
      RunIsReplay(events);
      answered := writeEvt;
      if writeEvt {
        writeEvt := false;
        if execute {
          store.Commit();
        } else {
          store.CancelParts();
        }
      }
      Log(if execute then Execute else Cancel);
    }

    /**
      A read request.  The first read of a value runs the application's callback,
      which may set it; a response carries at most one byte less than the MTU.
     */
    method HandleRead(attribute: Word16, isLong: bool, mtu: Word16, needRsp: bool, onRead: Option<seq<byte>>)
      returns (rsp: Option<Response>)
      requires Valid()
      modifies this`events, store
      ensures Valid()
      ensures attribute != handle || !needRsp ==> rsp.None? && events == old(events)
      ensures attribute == handle && needRsp ==>
        var room := (mtu + 65535) % 65536;
        var called := old(events) + if isLong || onRead.None? then [] else [Direct(onRead.value)];
        && events == called + [Read(isLong, room)]
        && rsp == Some(Answer(Run(called).value, Run(called).readOffset, isLong, room))
    {
      hide Run, Answer;
      if attribute != handle || !needRsp {
        return None;
      }
      var maxOffset := (mtu + 65535) % 65536;
      var response;
      if isLong {
        assert events + [] == events;
        response := NextPiece(maxOffset);
      } else {
        if onRead.Some? {
          SetValue(onRead.value);
        } else {
          assert events + [] == events;
        }
        response := FirstPiece(maxOffset);
      }
      rsp := Some(response);
    }

    /** A long read continues at the offset, which it moves on or, at the end, resets. */
    method NextPiece(maxOffset: Word16) returns (rsp: Response)
      requires Valid()
      modifies this`events, store
      ensures Valid() && events == old(events) + [Read(true, maxOffset)]
      ensures rsp == Answer(Run(old(events)).value, Run(old(events)).readOffset, true, maxOffset)
    {
      hide Run;
      Log(Read(true, maxOffset));
      var left := (|store.value| - store.readOffset) % SIZE_T_LIMIT;
      if left < maxOffset {
        rsp := Slice(store.value, store.readOffset, left);
        store.readOffset := 0;
      } else {
        rsp := Slice(store.value, store.readOffset, maxOffset);
        store.readOffset := (store.readOffset + maxOffset) % OFFSET_LIMIT;
      }
    }

    /** A plain read serves the value from its start, and remembers if there is more. */
    method FirstPiece(maxOffset: Word16) returns (rsp: Response)
      requires Valid()
      modifies this`events, store
      ensures Valid() && events == old(events) + [Read(false, maxOffset)]
      ensures rsp == Answer(Run(old(events)).value, Run(old(events)).readOffset, false, maxOffset)
    {
      hide Run;
      Log(Read(false, maxOffset));
      if |store.value| + 1 > maxOffset {
        store.readOffset := maxOffset;
        rsp := Slice(store.value, 0, maxOffset);
      } else {
        rsp := Slice(store.value, 0, |store.value|);
      }
    }
  }
}
