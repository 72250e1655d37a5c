/**
  The value of a GATT characteristic: queued writes (Bluetooth Core Specification,
  Vol 3, Part F, section 3.4.6) and reads served in pieces (section 3.4.4.5).
 */
module GattValue {
  import opened Sequences

  /** The largest value a direct write may set. */
  const MAX_ATTR_LEN := 600

  const SIZE_T_LIMIT := 0x1_0000_0000
  const OFFSET_LIMIT := 0x1_0000

  type Word16 = x: int | 0 <= x < 0x1_0000

  datatype State = State(value: seq<byte>, accumulation: seq<byte>, readOffset: Word16, writeEvt: bool)

  /** Requests for this characteristic; `room` is the most a response can carry. */
  datatype Event =
    | Prepare(part: seq<byte>)
    | Execute
    | Cancel
    | Direct(data: seq<byte>)  // a direct write, or the application's own call
    | Read(isLong: bool, room: Word16)

  /** A piece of the value, or a read outside of it. */
  datatype Response = Response(offset: Word16, data: seq<byte>) | Overread

  const INIT := State([], [], 0, false)

  /** The length of what is left behind the offset, as an unsigned difference. */
  function Behind(length: nat, offset: nat): int {
    (length - offset) % SIZE_T_LIMIT
  }

  /** Bytes `from` to `from + count` of the value, if they exist. */
  function Slice(value: seq<byte>, from: Word16, count: nat): Response {
    if from + count <= |value| then Response(from, value[from..from + count]) else Overread
  }

  function Answer(value: seq<byte>, offset: Word16, isLong: bool, room: Word16): Response {
    if isLong then
      var left := Behind(|value|, offset);
      Slice(value, offset, if left < room then left else room)
    else if |value| + 1 > room then Slice(value, 0, room)
    else Slice(value, 0, |value|)
  }

  function NextOffset(value: seq<byte>, offset: Word16, isLong: bool, room: Word16): Word16 {
    if isLong then
      if Behind(|value|, offset) < room then 0 else (offset + room) % OFFSET_LIMIT
    else if |value| + 1 > room then room
    else offset
  }

  function Step(s: State, e: Event): State {
    match e
    case Prepare(part) => s.(accumulation := s.accumulation + part, writeEvt := true)
    case Execute =>
      if !s.writeEvt then s
      else if s.accumulation == [] then s.(writeEvt := false)
      else State(s.accumulation, [], 0, false)
    case Cancel => if !s.writeEvt then s else s.(accumulation := [], readOffset := 0, writeEvt := false)
    case Direct(data) => if |data| > MAX_ATTR_LEN then s else s.(value := data)
    case Read(isLong, room) => s.(readOffset := NextOffset(s.value, s.readOffset, isLong, room))
  }

  function Run(events: seq<Event>): State {
    if events == [] then INIT else Step(Run(events[..|events| - 1]), events[|events| - 1])
  }

  // ---------------------------------------------------------------------------
  // Queued writes: a replay of the history
  // ---------------------------------------------------------------------------

  /** The parts prepared since the last execute or cancel, in order. */
  function PartsSince(events: seq<Event>): seq<byte> {
    if events == [] then []
    else
      var init, last := events[..|events| - 1], events[|events| - 1];
      match last
      case Prepare(part) => PartsSince(init) + part
      case Execute => []
      case Cancel => []
      case _ => PartsSince(init)
  }

  /** A part has been prepared since the last execute or cancel. */
  predicate LongWritePending(events: seq<Event>) {
    events != [] &&
    var last := events[|events| - 1];
    last.Prepare? || (!last.Execute? && !last.Cancel? && LongWritePending(events[..|events| - 1]))
  }

  /**
    The last accepted direct write, or the last executed parts if they are not
    empty, whichever came later.
   */
  function Replay(events: seq<Event>): seq<byte> {
    if events == [] then []
    else
      var init, last := events[..|events| - 1], events[|events| - 1];
      if last.Direct? && |last.data| <= MAX_ATTR_LEN then last.data
      else if last.Execute? && PartsSince(init) != [] then PartsSince(init)
      else Replay(init)
  }

  /**
    Over every sequence of requests the value is its replay, the accumulation is
    what has been prepared since, and it is empty when no long write is pending.
   */
  lemma {:induction false} RunIsReplay(events: seq<Event>)
    ensures Run(events).value == Replay(events)
    ensures Run(events).accumulation == PartsSince(events)
    ensures Run(events).writeEvt <==> LongWritePending(events)
    ensures !LongWritePending(events) ==> PartsSince(events) == []
  {
    if events != [] {
      hide NextOffset;
      RunIsReplay(events[..|events| - 1]);
    }
  }

  /**
    Ending a long write also ends a transfer under way, unless it was executed
    without parts; a direct write or a prepared part leaves the read offset alone.
   */
  lemma RewindIff(events: seq<Event>, e: Event)
    requires !e.Read?
    ensures Run(events + [e]).readOffset ==
            if LongWritePending(events) && (e.Cancel? || (e.Execute? && PartsSince(events) != [])) then 0
            else Run(events).readOffset
  {
    RunIsReplay(events);
    hide LongWritePending, PartsSince, Replay;
    assert (events + [e])[..|events|] == events;
  }

  /** The size limit of direct writes does not apply to queued ones. */
  lemma QueuedWritesAreNotLimited(data: seq<byte>)
    ensures Run([Prepare(data), Execute]).value == data
    ensures Run([Direct(data)]).value == (if |data| <= 600 then data else [])
  {
    assert [Prepare(data), Execute][..1] == [Prepare(data)];
    assert [Prepare(data)][..0] == [] && [Direct(data)][..0] == [];
    assert Run([]) == INIT;
    assert Run([Prepare(data)]) == Step(INIT, Prepare(data));
    assert Run([Direct(data)]) == Step(INIT, Direct(data));
    assert [] + data == data;
  }

  // ---------------------------------------------------------------------------
  // Long reads
  // ---------------------------------------------------------------------------

  /** The server reads outside the value exactly when its offset lies behind the end. */
  lemma OverreadIff(value: seq<byte>, offset: Word16, isLong: bool, room: Word16)
    requires |value| < SIZE_T_LIMIT
    ensures Answer(value, offset, isLong, room).Overread? <==> isLong && offset > |value|
    ensures isLong && offset > |value| ==> NextOffset(value, offset, isLong, room) == (offset + room) % 65536
  {
    if isLong {
      if offset <= |value| {
        assert Behind(|value|, offset) == |value| - offset;
      } else {
        assert Behind(|value|, offset) == SIZE_T_LIMIT + |value| - offset;
      }
    }
  }

  /** An accepted direct write of a value that ends before the read offset. */
  predicate Shortens(before: seq<Event>, e: Event) {
    e.Direct? && |e.data| <= MAX_ATTR_LEN && |e.data| < Run(before).readOffset
  }

  lemma OffsetInside(s: State, e: Event)
    requires s.readOffset <= |s.value|
    requires e.Direct? && |e.data| <= MAX_ATTR_LEN ==> |e.data| >= s.readOffset
    ensures Step(s, e).readOffset <= |Step(s, e).value|
  {
    assert Behind(|s.value|, s.readOffset) <= |s.value| - s.readOffset;
  }

  /** Unless a direct write has shortened the value so, no read leaves it. */
  lemma {:induction false} NoOverread(events: seq<Event>, isLong: bool, room: Word16)
    requires forall i | 0 <= i < |events| :: !Shortens(events[..i], events[i])
    ensures Run(events).readOffset <= |Run(events).value|
    ensures Answer(Run(events).value, Run(events).readOffset, isLong, room).Response?
  {
    if events != [] {
      var n := |events| - 1;
      assert forall i | 0 <= i < n :: events[..n][..i] == events[..i];
      NoOverread(events[..n], isLong, room);
      assert Run(events) == Step(Run(events[..n]), events[n]);
      hide NextOffset, Run;
      OffsetInside(Run(events[..n]), events[n]);
    }
    assert Behind(|Run(events).value|, Run(events).readOffset) <= |Run(events).value| - Run(events).readOffset;
  }

  /** And if one does, the next long read leaves the value, whatever the room. */
  lemma ShorteningOverreads(events: seq<Event>, data: seq<byte>, room: Word16)
    requires |data| <= MAX_ATTR_LEN
    ensures var s := Run(events + [Direct(data)]);
            Answer(s.value, s.readOffset, true, room).Overread? <==> Shortens(events, Direct(data))
  {
    assert (events + [Direct(data)])[..|events|] == events;
    OverreadIff(data, Run(events).readOffset, true, room);
  }

  /** Such a run: a read of a longer value is followed by a write of the empty one. */
  lemma OverreadIsReachable(data: seq<byte>, room: Word16)
    requires 0 < room <= |data| <= MAX_ATTR_LEN
    ensures var s := Run([Direct(data), Read(false, room), Direct([])]);
            Answer(s.value, s.readOffset, true, room).Overread?
  {
    var before := [Direct(data), Read(false, room)];
    assert before[..1] == [Direct(data)] && [Direct(data)][..0] == [];
    assert Run([]) == INIT && Run([Direct(data)]) == Step(INIT, Direct(data));
    ShorteningOverreads(before, [], room);
    assert before + [Direct([])] == [Direct(data), Read(false, room), Direct([])];
  }

  /** The offset after the first read and `count - 1` long reads. */
  function OffsetAfter(value: seq<byte>, start: Word16, room: Word16, count: nat): Word16 {
    if count == 0 then start
    else NextOffset(value, OffsetAfter(value, start, room, count - 1), count > 1, room)
  }

  /** Response number `k` of a transfer, counting from one. */
  function AnswerNo(value: seq<byte>, start: Word16, room: Word16, k: nat): Response
    requires k > 0
  {
    Answer(value, OffsetAfter(value, start, room, k - 1), k > 1, room)
  }

  /** What the client has put together after `count` responses. */
  function Reassembled(value: seq<byte>, start: Word16, room: Word16, count: nat): seq<byte> {
    if count == 0 then []
    else
      var last := AnswerNo(value, start, room, count);
      Reassembled(value, start, room, count - 1) + if last.Response? then last.data else []
  }

  /** The client asks for more exactly as long as it gets full responses. */
  predicate Full(r: Response, room: Word16) {
    r.Response? && |r.data| == room
  }

  /** `count` is the number of responses after which the client stops. */
  ghost predicate StopsAfter(value: seq<byte>, start: Word16, room: Word16, count: nat) {
    && count > 0
    && (forall k: nat | 0 < k < count :: Full(AnswerNo(value, start, room, k), room))
    && !Full(AnswerNo(value, start, room, count), room)
  }

  /** The client ends up with the value, in the number of responses it takes. */
  ghost predicate Transfers(value: seq<byte>, start: Word16, room: Word16, count: nat) {
    StopsAfter(value, start, room, count) && Reassembled(value, start, room, count) == value
  }

  /** `k` full pieces, as repeated addition. */
  function Pieces(room: Word16, k: nat): nat {
    if k == 0 then 0 else Pieces(room, k - 1) + room
  }

  lemma {:induction false} PiecesIsProduct(room: Word16, k: nat)
    ensures Pieces(room, k) == k * room
  {
    if k > 0 {
      PiecesIsProduct(room, k - 1);
    }
  }

  lemma {:induction false} PiecesMonotone(room: Word16, j: nat, k: nat)
    requires j <= k
    ensures Pieces(room, j) <= Pieces(room, k)
    ensures j < k ==> Pieces(room, j) + room <= Pieces(room, k)
    decreases k
  {
    if j < k {
      PiecesMonotone(room, j, k - 1);
    }
  }

  /** `d` whole pieces fit into the value and `d + 1` do not. */
  ghost predicate Divides(value: seq<byte>, room: Word16, d: nat) {
    && 0 < room && |value| < SIZE_T_LIMIT
    && Pieces(room, d) <= |value| < Pieces(room, d) + room
  }

  /** A long read inside the value is answered from its offset. */
  lemma LongAnswer(value: seq<byte>, offset: Word16, room: Word16)
    requires |value| < SIZE_T_LIMIT && offset <= |value|
    ensures var left := |value| - offset;
            var n := if left < room then left else room;
            && Answer(value, offset, true, room) == Response(offset, value[offset..offset + n])
            && NextOffset(value, offset, true, room) == if left < room then 0 else (offset + room) % OFFSET_LIMIT
  {
    assert Behind(|value|, offset) == |value| - offset;
  }

  lemma WholeAnswer(value: seq<byte>, offset: Word16, room: Word16, first: bool)
    requires |value| < SIZE_T_LIMIT && 0 < room && (first ==> offset == 0)
    requires offset + room <= |value| && offset + room < OFFSET_LIMIT
    ensures Full(Response(offset, value[offset..offset + room]), room)
    ensures !first ==> Answer(value, offset, true, room) == Response(offset, value[offset..offset + room])
    ensures !first ==> NextOffset(value, offset, true, room) == offset + room
    ensures value[..offset + room] == value[..offset] + value[offset..offset + room]
  {
    LongAnswer(value, offset, room);
  }

  /** The first read is answered from the start, whatever the offset is. */
  lemma PlainAnswer(value: seq<byte>, offset: Word16, room: Word16)
    ensures Answer(value, offset, false, room) ==
      Response(0, if |value| >= room then value[0..room] else value[0..|value|])
    ensures NextOffset(value, offset, false, room) == if |value| >= room then room else offset
  {}

  /** As long as whole pieces are left, each response carries the next one. */
  lemma {:induction false} WholePieces(value: seq<byte>, start: Word16, room: Word16, d: nat, k: nat)
    requires Divides(value, room, d) && Pieces(room, d) < OFFSET_LIMIT && k <= d
    ensures Pieces(room, k) <= Pieces(room, d)
    ensures k > 0 ==> OffsetAfter(value, start, room, k) == Pieces(room, k)
    ensures k > 0 ==> Full(AnswerNo(value, start, room, k), room)
    ensures k > 0 ==> AnswerNo(value, start, room, k).offset == Pieces(room, k - 1)
    ensures Reassembled(value, start, room, k) == value[..Pieces(room, k)]
  {
    hide Answer, NextOffset;
    PiecesMonotone(room, k, d);
    if k > 0 {
      WholePieces(value, start, room, d, k - 1);
      var from := Pieces(room, k - 1);
      WholeAnswer(value, from, room, k == 1);
      PlainAnswer(value, OffsetAfter(value, start, room, 0), room);
      assert AnswerNo(value, start, room, k) == Response(from, value[from..from + room]);
    }
  }

  lemma LastPiece(value: seq<byte>, start: Word16, room: Word16, d: nat)
    requires Divides(value, room, d) && Pieces(room, d) < OFFSET_LIMIT
    ensures AnswerNo(value, start, room, d + 1) == Response(Pieces(room, d), value[Pieces(room, d)..])
    ensures OffsetAfter(value, start, room, d + 1) == if d > 0 then 0 else start
    ensures Reassembled(value, start, room, d + 1) == value
  {
    hide Answer, NextOffset;
    WholePieces(value, start, room, d, d);
    var from := Pieces(room, d);
    if d > 0 {
      LongAnswer(value, from, room);
    } else {
      PlainAnswer(value, OffsetAfter(value, start, room, 0), room);
    }
    assert value[from..] == value[from..|value|];
    assert value == value[..from] + value[from..];
  }

  /** No long read of a wrapping transfer comes near the end of the value. */
  lemma WrappedOffset(value: seq<byte>, room: Word16, d: nat, k: nat)
    requires Divides(value, room, d) && Pieces(room, d) >= OFFSET_LIMIT && k <= d
    ensures Pieces(room, k) % OFFSET_LIMIT + room <= |value|
    ensures (Pieces(room, k) % OFFSET_LIMIT + room) % OFFSET_LIMIT == Pieces(room, k + 1) % OFFSET_LIMIT
  {
    PiecesMonotone(room, k, d);
  }

  /** Once an offset has wrapped, or will before the end, every response is full. */
  lemma {:induction false} WrappedPieces(value: seq<byte>, start: Word16, room: Word16, d: nat, k: nat)
    requires Divides(value, room, d) && Pieces(room, d) >= OFFSET_LIMIT && 0 < k <= d + 1
    ensures OffsetAfter(value, start, room, k) == Pieces(room, k) % OFFSET_LIMIT
    ensures Full(AnswerNo(value, start, room, k), room)
    ensures |Reassembled(value, start, room, k)| == Pieces(room, k)
  {
    hide Answer, NextOffset;
    if k > 1 {
      WrappedPieces(value, start, room, d, k - 1);
      WrappedOffset(value, room, d, k - 1);
      LongAnswer(value, Pieces(room, k - 1) % OFFSET_LIMIT, room);
    } else {
      WrappedOffset(value, room, d, 0);
      assert Pieces(room, 1) == Pieces(room, 0) + room;
      assert Reassembled(value, start, room, 0) == [];
      PlainAnswer(value, OffsetAfter(value, start, room, 0), room);
    }
  }

  lemma Quotient(value: seq<byte>, room: Word16)
    requires 0 < room && |value| < SIZE_T_LIMIT
    ensures Divides(value, room, |value| / room)
    ensures Pieces(room, |value| / room) == |value| / room * room == |value| - |value| % room
  {
    PiecesIsProduct(room, |value| / room);
  }

  /**
    When no offset of the transfer needs more than 16 bits, the client gets the
    value in length / room + 1 responses from any stale offset; the last one is the
    remainder, empty if it divides evenly, and leaves the offset at the start.
   */
  lemma TransferReassembles(value: seq<byte>, start: Word16, room: Word16)
    requires 0 < room && |value| < SIZE_T_LIMIT
    requires |value| / room * room < OFFSET_LIMIT
    ensures Transfers(value, start, room, |value| / room + 1)
    ensures var last := AnswerNo(value, start, room, |value| / room + 1);
            last.Response? && |last.data| == |value| % room
    ensures OffsetAfter(value, start, room, |value| / room + 1) == if |value| >= room then 0 else start
    ensures forall k: nat | 0 < k <= |value| / room + 1 ::
      var r := AnswerNo(value, start, room, k); r.Response? && r.offset == (k - 1) * room
  {
    var d := |value| / room;
    Quotient(value, room);
    LastPiece(value, start, room, d);
    forall k: nat | 0 < k <= d + 1
      ensures k <= d ==> Full(AnswerNo(value, start, room, k), room)
      ensures var r := AnswerNo(value, start, room, k); r.Response? && r.offset == (k - 1) * room
    {
      PiecesIsProduct(room, k - 1);
      if k <= d {
        WholePieces(value, start, room, d, k);
      }
    }
  }

  lemma {:induction false} ReassembledGrows(value: seq<byte>, start: Word16, room: Word16, j: nat, k: nat)
    requires j <= k
    ensures |Reassembled(value, start, room, j)| <= |Reassembled(value, start, room, k)|
    decreases k
  {
    hide AnswerNo;
    if j < k {
      ReassembledGrows(value, start, room, j, k - 1);
    }
  }

  /**
    Otherwise the first length / room + 1 responses are all full, and together
    already longer than the value; wherever the client stops, it has too much.
   */
  lemma WrappedNeverTransfers(value: seq<byte>, start: Word16, room: Word16, count: nat)
    requires 0 < room && |value| < SIZE_T_LIMIT
    requires |value| / room * room >= OFFSET_LIMIT
    ensures !Transfers(value, start, room, count)
  {
    hide AnswerNo, Reassembled;
    var d := |value| / room;
    Quotient(value, room);
    if 0 < count <= d + 1 {
      WrappedPieces(value, start, room, d, count);
    } else if count > 0 {
      WrappedPieces(value, start, room, d, d + 1);
      ReassembledGrows(value, start, room, d + 1, count);
    }
  }

  /**
    The exact condition: a client that asks until a response is not full gets the
    value if and only if the offset of the last piece fits the 16 bit offset.
   */
  lemma TransferIsExactIff(value: seq<byte>, start: Word16, room: Word16)
    requires 0 < room && |value| < SIZE_T_LIMIT
    ensures (exists count :: Transfers(value, start, room, count)) <==> |value| / room * room < OFFSET_LIMIT
    ensures Transfers(value, start, room, |value| / room + 1) <==> |value| / room * room < OFFSET_LIMIT
  {
    if |value| / room * room < OFFSET_LIMIT {
      TransferReassembles(value, start, room);
    } else {
      forall count ensures !Transfers(value, start, room, count) {
        WrappedNeverTransfers(value, start, room, count);
      }
    }
  }

  /** Every value a direct write can set is transferred exactly. */
  lemma DirectlyWrittenValuesTransfer(value: seq<byte>, start: Word16, room: Word16)
    requires 0 < room && |value| <= MAX_ATTR_LEN
    ensures Transfers(value, start, room, |value| / room + 1)
  {
    Quotient(value, room);
    TransferReassembles(value, start, room);
  }

  /** One plain read and `count - 1` long reads. */
  function Transfer(room: Word16, count: nat): seq<Event> {
    if count == 0 then [] else Transfer(room, count - 1) + [Read(count > 1, room)]
  }

  /**
    A transfer started in any reachable state, whatever offset an earlier one left
    behind, changes nothing but the offset and is answered as described above.
   */
  lemma {:induction false} TransferAfterAnyRun(events: seq<Event>, room: Word16, count: nat)
    ensures var s := Run(events);
            Run(events + Transfer(room, count))
            == s.(readOffset := OffsetAfter(s.value, s.readOffset, room, count))
  {
    if count == 0 {
      assert events + Transfer(room, 0) == events;
    } else {
      hide NextOffset;
      TransferAfterAnyRun(events, room, count - 1);
      var before := events + Transfer(room, count - 1);
      assert events + Transfer(room, count) == before + [Read(count > 1, room)];
      assert (before + [Read(count > 1, room)])[..|before|] == before;
    }
  }
}
