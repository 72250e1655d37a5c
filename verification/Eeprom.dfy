/**
  The EEPROM object: its mirror is a heap array that is replaced on opening, filled
  in place by writes and copied out on commit.  `Valid` ties it to EepromMirror.
 */
module Eeprom {
  import opened Sequences
  import opened EepromMirror

  class EepromObject {
    var data: array?<byte>
    var size: nat
    var dirty: bool
    var blob: seq<byte>      // the stored blob; empty if the key does not exist
    var crashed: bool        // a range was copied through the null pointer
    ghost var events: seq<Event>

    ghost predicate Valid()
      reads this, data
    {
      View() == Run(events)
    }

    ghost function View(): State
      reads this, data
    {
      State(if data == null then None else Some(data[..]), size, dirty, blob, crashed)
    }

    constructor ()
      ensures Valid() && events == []
    {
      data, size, dirty, blob, crashed := null, 0, false, [], false;
      events := [];
    }

    ghost method Log(e: Event)
      modifies this`events
      ensures events == old(events) + [e] && Run(events) == Step(Run(old(events)), e)
    {
      assert (events + [e])[..|events|] == events;
      events := events + [e];
    }

    /**
      Opens the store at `newSize`.  Failures before the blob is touched leave
      everything as it was; a blob of another size is rewritten first, and only then
      is the mirror replaced and filled.
     */
    method Open(newSize: nat, storeOpens: bool, enoughToResize: bool, enoughForMirror: bool) returns (ok: bool)
      requires Valid()
      modifies this
      ensures Valid()
      ensures
        var fault := if !storeOpens || (newSize != |old(blob)| && !enoughToResize) then Early
                     else if !enoughForMirror then NoRam else NoFault;
        events == old(events) + [Begin(newSize, fault)] && (ok <==> newSize > 0 && fault == NoFault)
      ensures ok ==> data != null && fresh(data) && data[..] == blob == Resized(old(blob), newSize)
    {
      ghost var fault := if !storeOpens || (newSize != |blob| && !enoughToResize) then Early
                         else if !enoughForMirror then NoRam else NoFault;
      Log(Begin(newSize, fault));
      if newSize == 0 {
        return false;
      }
      if !storeOpens || (newSize != |blob| && !enoughToResize) {
        return false;
      }
      if newSize < |blob| {
        blob := blob[..newSize];
      } else if newSize > |blob| {
        Expand(newSize);
      }
      if !enoughForMirror {
        data := null;
        return false;
      }
      data := new byte[newSize];
      size := newSize;
      GetBlob(data);
      assert data[..] == data[..|blob|];
      return true;
    }

    /** Rewrites the blob at a larger size: erased bytes, with the old ones copied over. */
    method Expand(newSize: nat)
      requires newSize > |blob|
      modifies this`blob
      ensures blob == Resized(old(blob), newSize)
    {
      var keyData := new byte[newSize](_ => ERASED);
      GetBlob(keyData);
      blob := keyData[..];
    }

    /** Copies the stored blob to the front of `target`. */
    method GetBlob(target: array<byte>)
      requires |blob| <= target.Length
      modifies target
      ensures target[..|blob|] == blob
      ensures forall i | |blob| <= i < target.Length :: target[i] == old(target[i])
    {
      for i := 0 to |blob|
        invariant target[..i] == blob[..i]
        invariant forall j | i <= j < target.Length :: target[j] == old(target[j])
      {
        target[i] := blob[i];
      }
    }

    /** Writes one byte; an equal byte does not make the mirror dirty. */
    method WriteByte(address: int, value: byte)
      requires Valid()
      modifies this`dirty, this`events, data
      ensures Valid() && events == old(events) + [Write(address, value)]
    {
      RunCoherent(events);
      Log(Write(address, value));
      if address < 0 || address >= size {
        return;
      }
      if data == null {
        return;
      }
      if data[address] != value {
        data[address] := value;
        dirty := true;
        assert data[..] == old(data[..])[address := value];
      }
    }

    /**
      Writes a range that lies inside the size as a whole, or nothing.  There is no
      check for the mirror; `crashed` says that it was missing.
     */
    method WriteRange(address: int, bytes: seq<byte>) returns (written: nat)
      requires Valid()
      modifies this`dirty, this`crashed, this`events, data
      ensures Valid() && events == old(events) + [WriteBytes(address, bytes)]
      ensures crashed <==> old(crashed) || MissesMirror(old(events), WriteBytes(address, bytes))
      ensures written ==
        if 0 <= address && address + |bytes| <= size && data != null then |bytes| else 0
    {
      RunCoherent(events);
      CrashStep(events, WriteBytes(address, bytes));
      Log(WriteBytes(address, bytes));
      if bytes == [] {
        return 0;
      }
      if address < 0 || address + |bytes| > size {
        return 0;
      }
      if data == null {
        crashed := true;
        return 0;
      }
      CopyIn(data, address, bytes);
      dirty := true;
      return |bytes|;
    }

    static method CopyIn(target: array<byte>, address: nat, bytes: seq<byte>)
      requires InRange(address, |bytes|, target.Length)
      modifies target
      ensures target[..] == Overwrite(old(target[..]), address, bytes)
    {
      for i := 0 to |bytes|
        invariant forall j | 0 <= j < target.Length ::
          target[j] == if address <= j < address + i then bytes[j - address] else old(target[j])
      {
        target[address + i] := bytes[i];
      }
    }

    method ReadByte(address: int) returns (value: byte)
      requires Valid()
      ensures value == ReadOne(Run(events), address)
    {
      RunCoherent(events);
      if address < 0 || address >= size {
        return 0;
      }
      if data == null {
        return 0;
      }
      return data[address];
    }

    /** Reads a range that lies inside the size as a whole, or nothing, as `WriteRange` does. */
    method ReadRange(address: int, maxLen: nat) returns (bytes: seq<byte>)
      requires Valid()
      modifies this`crashed, this`events
      ensures Valid() && events == old(events) + [ReadBytes(address, maxLen)]
      ensures crashed <==> old(crashed) || MissesMirror(old(events), ReadBytes(address, maxLen))
      ensures |bytes| == if 0 <= address && address + maxLen <= size && data != null then maxLen else 0
      ensures forall i | 0 <= i < |bytes| :: bytes[i] == ReadOne(old(Run(events)), address + i)
    {
      RunCoherent(events);
      CrashStep(events, ReadBytes(address, maxLen));
      Log(ReadBytes(address, maxLen));
      if maxLen == 0 || address < 0 || address + maxLen > size {
        return [];
      }
      if data == null {
        crashed := true;
        return [];
      }
      return data[address..address + maxLen];
    }

    /** Stores the mirror if it is dirty; an object that is not open has nothing to commit. */
    method CommitMirror(stores: bool) returns (ok: bool)
      requires Valid()
      modifies this`dirty, this`blob, this`events
      ensures Valid()
      ensures events == old(events) + [Commit(stores)]
      ensures ok <==> size > 0 && data != null && (stores || !old(dirty))
      ensures ok ==> !dirty && data[..] == blob
    {
      RunCoherent(events);
      Log(Commit(stores));
      ok := StoreMirror(stores);
    }

    method StoreMirror(stores: bool) returns (ok: bool)
      modifies this`dirty, this`blob
      ensures View() == WriteBack(old(View()), stores)
      ensures ok <==> size > 0 && data != null && (stores || !old(dirty))
    {
      if size == 0 {
        return false;
      }
      if data == null {
        return false;
      }
      if !dirty {
        return true;
      }
      if stores {
        blob := data[..];
        dirty := false;
      }
      return stores;
    }

    /** Commits, whatever comes of it, and gives the mirror up. */
    method Close(stores: bool)
      requires Valid()
      modifies this
      ensures Valid() && events == old(events) + [End(stores)]
      ensures old(size) > 0 ==> size == 0 && data == null
    {
      Log(End(stores));
      if size == 0 {
        return;
      }
      var _ := StoreMirror(stores);
      data := null;
      size := 0;
    }
  }
}
