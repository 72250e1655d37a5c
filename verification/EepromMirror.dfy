/**
  The EEPROM emulation: a RAM mirror of a stored blob, written back lazily under a
  dirty flag.  The machine here is compared with a plain one that has no flag.
 */
module EepromMirror {
  import opened Sequences

  const ERASED: byte := 0xFF

  /** How opening can fail: before anything happened, or for lack of RAM at the end. */
  datatype Fault = NoFault | Early | NoRam

  datatype Event =
    | Begin(size: nat, fault: Fault)
    | Write(address: int, value: byte)
    | WriteBytes(address: int, bytes: seq<byte>)
    | ReadBytes(address: int, maxLen: nat)
    | Commit(stores: bool)  // whether the store accepts the blob if it is asked to
    | End(stores: bool)

  /**
    `stored` is the blob in non-volatile storage, empty if there is none.  `crashed`
    records a copy into or out of a mirror that is not there.
   */
  datatype State = State(data: Option<seq<byte>>, size: nat, dirty: bool, stored: seq<byte>, crashed: bool)

  const INIT := State(None, 0, false, [], false)

  function Erased(n: nat): (s: seq<byte>)
    ensures |s| == n && forall i | 0 <= i < n :: s[i] == 255
  {
    seq(n, _ => ERASED)
  }

  /** A blob cut or extended to the size it is opened with. */
  function Resized(blob: seq<byte>, size: nat): (view: seq<byte>)
    ensures |view| == size
    ensures forall i | 0 <= i < size :: view[i] == if i < |blob| then blob[i] else 255
  {
    if size <= |blob| then blob[..size] else blob + Erased(size - |blob|)
  }

  predicate InRange(address: int, count: nat, size: nat) {
    0 <= address && address + count <= size
  }

  function Overwrite(data: seq<byte>, address: int, bytes: seq<byte>): (r: seq<byte>)
    requires InRange(address, |bytes|, |data|)
    ensures |r| == |data|
    ensures forall i | 0 <= i < |r| :: r[i] == if address <= i < address + |bytes| then bytes[i - address] else data[i]
  {
    data[..address] + bytes + data[address + |bytes|..]
  }

  function Step(s: State, e: Event): State {
    match e
    case Begin(size, fault) =>
      if size == 0 || fault == Early then s
      else if fault == NoRam then s.(stored := Resized(s.stored, size), data := None)
      else s.(stored := Resized(s.stored, size), data := Some(Resized(s.stored, size)), size := size)
    case Write(address, value) =>
      if !InRange(address, 1, s.size) || s.data.None? || |s.data.value| != s.size then s
      else if s.data.value[address] == value then s
      else s.(data := Some(s.data.value[address := value]), dirty := true)
    case WriteBytes(address, bytes) =>
      if bytes == [] || !InRange(address, |bytes|, s.size) then s
      else if s.data.None? || |s.data.value| != s.size then s.(crashed := true)
      else s.(data := Some(Overwrite(s.data.value, address, bytes)), dirty := true)
    case ReadBytes(address, maxLen) =>
      if maxLen > 0 && InRange(address, maxLen, s.size) && (s.data.None? || |s.data.value| != s.size) then
        s.(crashed := true)
      else s
    case Commit(stores) => WriteBack(s, stores)
    case End(stores) =>
      if s.size == 0 then s else WriteBack(s, stores).(data := None, size := 0)
  }

  /** Stores the mirror only if the flag says that it may differ. */
  function WriteBack(s: State, stores: bool): State {
    if s.size == 0 || s.data.None? || !s.dirty || !stores then s
    else s.(stored := s.data.value, dirty := false)
  }

  function Run(events: seq<Event>): State {
    if events == [] then INIT else Step(Run(events[..|events| - 1]), events[|events| - 1])
  }

  // ---------------------------------------------------------------------------
  // A clear flag means nothing is left to store
  // ---------------------------------------------------------------------------

  ghost predicate Coherent(s: State) {
    && (s.data.Some? ==> 0 < s.size == |s.data.value| == |s.stored|)
    && (s.data.Some? && !s.dirty ==> s.data.value == s.stored)
  }

  lemma CoherentStep(s: State, e: Event)
    requires Coherent(s)
    ensures Coherent(Step(s, e))
  {}

  /**
    In every reachable open state, whatever commits have failed, a clear dirty flag
    implies that the mirror equals the stored blob.
   */
  lemma {:induction false} RunCoherent(events: seq<Event>)
    ensures Coherent(Run(events))
  {
    if events != [] {
      RunCoherent(events[..|events| - 1]);
      CoherentStep(Run(events[..|events| - 1]), events[|events| - 1]);
    }
  }

  // ---------------------------------------------------------------------------
  // The flag is not observable
  // ---------------------------------------------------------------------------

  /** A byte array and a store, written whenever that is asked for. */
  datatype Plain = Plain(bytes: Option<seq<byte>>, store: seq<byte>)

  function PlainStep(p: Plain, e: Event): Plain {
    match e
    case Begin(size, fault) =>
      if size == 0 || fault == Early then p
      else Plain(if fault == NoRam then None else Some(Resized(p.store, size)), Resized(p.store, size))
    case Write(address, value) => PlainWrite(p, address, [value])
    case WriteBytes(address, bytes) => PlainWrite(p, address, bytes)
    case ReadBytes(_, _) => p
    case Commit(stores) => PlainStore(p, stores)
    case End(stores) => PlainStore(p, stores).(bytes := None)
  }

  function PlainWrite(p: Plain, address: int, bytes: seq<byte>): Plain {
    if p.bytes.None? || !InRange(address, |bytes|, |p.bytes.value|) then p
    else p.(bytes := Some(Overwrite(p.bytes.value, address, bytes)))
  }

  function PlainStore(p: Plain, stores: bool): Plain {
    if p.bytes.None? || !stores then p else p.(store := p.bytes.value)
  }

  function PlainRun(events: seq<Event>): Plain {
    if events == [] then Plain(None, [])
    else PlainStep(PlainRun(events[..|events| - 1]), events[|events| - 1])
  }

  lemma PlainSimulation(s: State, e: Event)
    requires Coherent(s)
    ensures var t := Step(s, e); Plain(t.data, t.stored) == PlainStep(Plain(s.data, s.stored), e)
  {
    if s.data.Some? {
      var data := s.data.value;
      if e.Write? && InRange(e.address, 1, s.size) {
        assert Overwrite(data, e.address, [e.value]) == data[e.address := e.value];
        assert data[e.address] == e.value ==> data[e.address := e.value] == data;
      } else if e.WriteBytes? && e.bytes == [] && InRange(e.address, 0, s.size) {
        assert Overwrite(data, e.address, []) == data;
      }
    }
  }

  /**
    In every run, with any pattern of failed commits, the mirror and the store are
    those of a plain byte array that is stored at every commit: leaving out the
    stores that the flag saves changes nothing.
   */
  lemma {:induction false} FlagIsTransparent(events: seq<Event>)
    ensures Plain(Run(events).data, Run(events).stored) == PlainRun(events)
  {
    if events != [] {
      FlagIsTransparent(events[..|events| - 1]);
      RunCoherent(events[..|events| - 1]);
      PlainSimulation(Run(events[..|events| - 1]), events[|events| - 1]);
    }
  }

  // ---------------------------------------------------------------------------
  // When the flag is set
  // ---------------------------------------------------------------------------

  /**
    Something is left to store: since the last successful store of an open object a
    byte was changed, or a range written, be it with the bytes that were there.
   */
  predicate Unsaved(events: seq<Event>) {
    events != [] &&
    var before, e := events[..|events| - 1], events[|events| - 1];
    var p := PlainRun(before).bytes;
    if p.None? then Unsaved(before)
    else
      match e
      case Write(address, value) =>
        Unsaved(before) || (0 <= address < |p.value| && p.value[address] != value)
      case WriteBytes(address, bytes) =>
        Unsaved(before) || (bytes != [] && 0 <= address && address + |bytes| <= |p.value|)
      case Commit(stores) => !stores && Unsaved(before)
      case End(stores) => !stores && Unsaved(before)
      case _ => Unsaved(before)
  }

  /** The flag says exactly that: a commit of an unchanged mirror stores nothing. */
  lemma {:induction false} FlagIsUnsaved(events: seq<Event>)
    ensures Run(events).dirty <==> Unsaved(events)
  {
    if events != [] {
      var before := events[..|events| - 1];
      FlagIsUnsaved(before);
      FlagIsTransparent(before);
      RunCoherent(before);
      hide PlainRun, Resized, Overwrite;
      assert Run(events) == Step(Run(before), events[|events| - 1]);
    }
  }

  // ---------------------------------------------------------------------------
  // Reading
  // ---------------------------------------------------------------------------

  /** One byte; zero outside of the array or before it is opened. */
  function ReadOne(s: State, address: int): byte {
    if address < 0 || address >= s.size || s.data.None? || |s.data.value| != s.size then 0
    else s.data.value[address]
  }

  /** Reading sees the last write: through either write call, up to the end. */
  lemma ReadAfterWrite(s: State, address: int, bytes: seq<byte>, at: int)
    requires Coherent(s) && s.data.Some?
    ensures var hit := 0 <= address && address + |bytes| <= s.size && address <= at < address + |bytes|;
            ReadOne(Step(s, WriteBytes(address, bytes)), at) == if hit then bytes[at - address] else ReadOne(s, at)
    ensures |bytes| == 1 ==>
              ReadOne(Step(s, Write(address, bytes[0])), at) == ReadOne(Step(s, WriteBytes(address, bytes)), at)
  {}

  /** Opening shows the stored bytes as far as they go, and erased bytes behind. */
  lemma ReadAfterOpening(s: State, size: nat, at: nat)
    requires size > 0
    ensures ReadOne(Step(s, Begin(size, NoFault)), at) ==
            if at >= size then 0 else if at < |s.stored| then s.stored[at] else 255
  {}

  /** Reads outside of the array, and of an object without one, return zero. */
  lemma ReadOutside(events: seq<Event>, address: int)
    requires address < 0 || address >= OpenSize(events) || MirrorLost(events)
    ensures ReadOne(Run(events), address) == 0
  {
    RunMirror(events);
  }

  // ---------------------------------------------------------------------------
  // A failed reopening
  // ---------------------------------------------------------------------------

  /** The size of the last successful opening that has not been ended. */
  function OpenSize(events: seq<Event>): nat {
    if events == [] then 0
    else
      var before, e := OpenSize(events[..|events| - 1]), events[|events| - 1];
      if e.Begin? && e.size > 0 && e.fault == NoFault then e.size
      else if e.End? then 0
      else before
  }

  /** A later opening gave up the mirror of that opening and had no memory for its own. */
  predicate MirrorLost(events: seq<Event>) {
    events != [] &&
    var before, e := events[..|events| - 1], events[|events| - 1];
    if e.Begin? && e.size > 0 && e.fault != Early then e.fault == NoRam && OpenSize(before) > 0
    else !e.End? && MirrorLost(before)
  }

  /** A non-empty range within the size is copied while the mirror is lost. */
  predicate MissesMirror(before: seq<Event>, e: Event) {
    && MirrorLost(before)
    && (e.WriteBytes? ==> e.bytes != [] && 0 <= e.address && e.address + |e.bytes| <= OpenSize(before))
    && (e.ReadBytes? ==> e.maxLen > 0 && 0 <= e.address && e.address + e.maxLen <= OpenSize(before))
    && (e.WriteBytes? || e.ReadBytes?)
  }

  /** Size and mirror of every reachable state, from the history of openings alone. */
  lemma {:induction false} RunMirror(events: seq<Event>)
    ensures Run(events).size == OpenSize(events)
    ensures Run(events).data.None? <==> OpenSize(events) == 0 || MirrorLost(events)
  {
    if events != [] {
      RunMirror(events[..|events| - 1]);
      RunCoherent(events[..|events| - 1]);
    }
  }

  lemma CrashStep(events: seq<Event>, e: Event)
    ensures Step(Run(events), e).crashed <==> Run(events).crashed || MissesMirror(events, e)
  {
    hide Run, MirrorLost, OpenSize;
    RunMirror(events);
    RunCoherent(events);
  }

  /** A run misses the mirror exactly if a range is copied at a point where it is lost. */
  lemma {:induction false} CrashIff(events: seq<Event>)
    ensures Run(events).crashed <==> exists i | 0 <= i < |events| :: MissesMirror(events[..i], events[i])
  {
    if events != [] {
      var n := |events| - 1;
      CrashIff(events[..n]);
      hide MissesMirror;
      CrashStep(events[..n], events[n]);
      assert forall i | 0 <= i < n :: events[..n][..i] == events[..i];
    }
  }

  /** No opening of an open object runs out of memory for the mirror. */
  ghost predicate AlwaysRam(events: seq<Event>) {
    forall i | 0 <= i < |events| && OpenSize(events[..i]) > 0 && events[i].Begin? && events[i].size > 0 ::
      events[i].fault != NoRam
  }

  /** Then no mirror is lost, and nothing can miss it. */
  lemma NoCrash(events: seq<Event>)
    requires AlwaysRam(events)
    ensures !Run(events).crashed && !MirrorLost(events)
  {
    NeverLost(events, |events|);
    assert events[..|events|] == events;
    forall i | 0 <= i < |events| ensures !MissesMirror(events[..i], events[i]) {
      NeverLost(events, i);
    }
    CrashIff(events);
  }

  lemma {:induction false} NeverLost(events: seq<Event>, n: nat)
    requires AlwaysRam(events) && n <= |events|
    ensures !MirrorLost(events[..n])
  {
    if n > 0 {
      NeverLost(events, n - 1);
      assert events[..n][..n - 1] == events[..n - 1];
      assert events[n - 1].Begin? && OpenSize(events[..n - 1]) > 0 && events[n - 1].size > 0 ==>
          events[n - 1].fault != NoRam;
    }
  }

  /**
    After reopening an open object fails for lack of memory, the size still describes
    the mirror that was given up: single bytes check for that, byte ranges do not.
   */
  lemma FailedReopening(address: int, bytes: seq<byte>, s: State, size: nat)
    requires Coherent(s) && s.data.Some? && !s.crashed && size > 0
    ensures var t := Step(s, Begin(size, NoRam));
            var inside := bytes != [] && 0 <= address && address + |bytes| <= s.size;
            && t.data.None? && t.size == s.size
            && (|bytes| == 1 ==> !Step(t, Write(address, bytes[0])).crashed)
            && (Step(t, WriteBytes(address, bytes)).crashed <==> inside)
            && (Step(t, ReadBytes(address, |bytes|)).crashed <==> inside)
  {}

  // ---------------------------------------------------------------------------
  // Reopening at other sizes
  // ---------------------------------------------------------------------------

  /** Closing and opening the store again at each size in turn. */
  function Reopenings(sizes: seq<nat>): seq<Event> {
    if sizes == [] then []
    else Reopenings(sizes[..|sizes| - 1]) + [Begin(sizes[|sizes| - 1], NoFault), End(true)]
  }

  /** One reopening of a closed object. */
  lemma OneReopening(events: seq<Event>, size: nat)
    requires Run(events).size == 0 && Run(events).data.None? && size > 0
    ensures var t := Run(events + [Begin(size, NoFault), End(true)]);
            t.size == 0 && t.data.None? && t.stored == Resized(Run(events).stored, size)
  {
    var before := events + [Begin(size, NoFault)];
    assert events + [Begin(size, NoFault), End(true)] == before + [End(true)];
    assert (before + [End(true)])[..|before|] == before && before[..|events|] == events;
  }

  /**
    Any chain of reopenings, after any run that leaves the object closed, keeps the
    prefix of the stored blob up to the smallest size used.
   */
  lemma {:induction false} ReopeningKeepsPrefix(events: seq<Event>, sizes: seq<nat>, keep: nat)
    requires Run(events).size == 0 && Run(events).data.None?
    requires keep <= |Run(events).stored| && forall i | 0 <= i < |sizes| :: keep <= sizes[i] && sizes[i] > 0
    ensures var s, t := Run(events), Run(events + Reopenings(sizes));
            && t.size == 0 && t.data.None?
            && keep <= |t.stored| && t.stored[..keep] == s.stored[..keep]
  {
    hide Run, Resized;
    if sizes == [] {
      assert events + Reopenings(sizes) == events;
    } else {
      var n := |sizes| - 1;
      ReopeningKeepsPrefix(events, sizes[..n], keep);
      var before := events + Reopenings(sizes[..n]);
      assert sizes[n] > 0 && keep <= sizes[n];
      OneReopening(before, sizes[n]);
      Reassociate(events, Reopenings(sizes[..n]), [Begin(sizes[n], NoFault), End(true)]);
    }
  }
}
