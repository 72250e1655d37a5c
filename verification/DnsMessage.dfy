/**
  Names in DNS messages (sections 3.1, 4.1.2 and 4.1.4 of RFC 1035): their encoding,
  an independent decoder, and the reply to a question.
 */
module DnsMessage {
  import opened Sequences

  const HEADER_SIZE := 12
  const MAX_LABEL := 63
  const MAX_QNAME_LENGTH := 127  // what the server's 8 bit length can say
  const DOT: byte := 46

  type Label = seq<byte>

  ghost predicate ValidLabels(labels: seq<Label>) {
    forall i | 0 <= i < |labels| :: 1 <= |labels[i]| <= MAX_LABEL
  }

  /** One label: a length byte and that many bytes. */
  function Wire(text: Label): seq<byte>
    requires |text| < 256
  {
    [|text|] + text
  }

  function EncodeLabels(labels: seq<Label>): (wire: seq<byte>)
    requires ValidLabels(labels)
  {
    if labels == [] then [] else EncodeLabels(labels[..|labels| - 1]) + Wire(labels[|labels| - 1])
  }

  /** A name ends with the empty label. */
  function EncodeName(labels: seq<Label>): seq<byte>
    requires ValidLabels(labels)
  {
    EncodeLabels(labels) + [0]
  }

  /** The labels joined by dots. */
  function Dotted(labels: seq<Label>): seq<byte> {
    if labels == [] then []
    else if |labels| == 1 then labels[0]
    else Dotted(labels[..|labels| - 1]) + [DOT] + labels[|labels| - 1]
  }

  /** The parts with `more` put behind the last one. */
  function GrowLast(parts: seq<Label>, more: Label): (grown: seq<Label>)
    requires parts != []
    ensures |grown| == |parts|
  {
    parts[..|parts| - 1] + [parts[|parts| - 1] + more]
  }

  /** The parts of a text between its dots, from the back. */
  function SplitAtDots(text: seq<byte>): (parts: seq<Label>)
    ensures parts != []
  {
    if text == [] then [[]]
    else
      var n := |text| - 1;
      if text[n] == 46 then SplitAtDots(text[..n]) + [[]] else GrowLast(SplitAtDots(text[..n]), [text[n]])
  }

  lemma SplitOneMore(text: seq<byte>, c: byte)
    requires c != 46
    ensures SplitAtDots(text + [c]) == GrowLast(SplitAtDots(text), [c])
  {
    assert (text + [c])[..|text|] == text;
  }

  lemma GrowTwice(parts: seq<Label>, a: Label, b: Label)
    requires parts != []
    ensures GrowLast(GrowLast(parts, a), b) == GrowLast(parts, a + b)
    ensures GrowLast(parts, []) == parts
  {
    Reassociate(parts[|parts| - 1], a, b);
    assert parts[|parts| - 1] + [] == parts[|parts| - 1];
  }

  lemma {:induction false} SplitWithLabel(text: seq<byte>, more: Label)
    requires 46 !in more
    ensures SplitAtDots(text + more) == GrowLast(SplitAtDots(text), more)
    decreases |more|
  {
    hide SplitAtDots, GrowLast;
    var parts := SplitAtDots(text);
    if more == [] {
      assert text + more == text;
      GrowTwice(parts, [], []);
    } else {
      var n := |more| - 1;
      SplitWithLabel(text, more[..n]);
      SplitOneMore(text + more[..n], more[n]);
      assert text + more == text + more[..n] + [more[n]];
      GrowTwice(parts, more[..n], [more[n]]);
      assert more == more[..n] + [more[n]];
    }
  }

  /** Splitting the joined text at its dots gives the labels back. */
  lemma {:induction false} DottedSplits(labels: seq<Label>)
    requires labels != [] && forall i | 0 <= i < |labels| :: 46 !in labels[i]
    ensures SplitAtDots(Dotted(labels)) == labels
  {
    var n := |labels| - 1;
    if n == 0 {
      SplitWithLabel([], labels[0]);
      assert [] + labels[0] == labels[0];
      assert labels == [labels[0]];
    } else {
      var front := Dotted(labels[..n]);
      DottedSplits(labels[..n]);
      assert (front + [DOT])[..|front|] == front;
      assert SplitAtDots(front + [DOT]) == labels[..n] + [[]];
      SplitWithLabel(front + [DOT], labels[n]);
      assert [] + labels[n] == labels[n];
      assert labels == labels[..n] + [labels[n]];
    }
  }

  /** `buffer` is a message whose first question asks for `labels`. */
  ghost predicate Asks(buffer: seq<byte>, labels: seq<Label>) {
    && ValidLabels(labels)
    && HEADER_SIZE + |EncodeName(labels)| + 4 <= |buffer|
    && buffer[HEADER_SIZE..HEADER_SIZE + |EncodeName(labels)|] == EncodeName(labels)
  }

  /** Where label `k` starts, counted from the start of the name. */
  function Offset(labels: seq<Label>, k: nat): nat
    requires ValidLabels(labels) && k <= |labels|
  {
    |EncodeLabels(labels[..k])|
  }

  /** The encoding of a name shows each label in its place. */
  lemma {:induction false} LabelAt(labels: seq<Label>, k: nat)
    requires ValidLabels(labels) && k < |labels|
    ensures Offset(labels, k + 1) == Offset(labels, k) + 1 + |labels[k]| <= |EncodeLabels(labels)|
    ensures EncodeLabels(labels)[..Offset(labels, k)] == EncodeLabels(labels[..k])
    ensures EncodeLabels(labels)[Offset(labels, k)..Offset(labels, k + 1)] == Wire(labels[k])
    ensures EncodeLabels(labels[..k + 1]) == EncodeLabels(labels[..k]) + Wire(labels[k])
  {
    var n := |labels| - 1;
    assert labels[..k + 1][..k] == labels[..k];
    if k < n {
      LabelAt(labels[..n], k);
      assert labels[..n][..k] == labels[..k] && labels[..n][..k + 1] == labels[..k + 1];
    } else {
      assert labels[..k + 1] == labels;
    }
  }

  lemma OffsetEnds(labels: seq<Label>)
    requires ValidLabels(labels)
    ensures Offset(labels, 0) == 0 && Offset(labels, |labels|) == |EncodeLabels(labels)|
  {
    assert labels[..|labels|] == labels && labels[..0] == [];
  }

  /** A message shows at the place of label `k` the length and the bytes of the label. */
  ghost predicate ShowsLabel(buffer: seq<byte>, labels: seq<Label>, k: nat)
    requires ValidLabels(labels) && k < |labels|
  {
    var at := HEADER_SIZE + Offset(labels, k);
    && at + 1 + |labels[k]| <= |buffer|
    && Offset(labels, k + 1) == Offset(labels, k) + 1 + |labels[k]| <= |EncodeLabels(labels)|
    && buffer[at] == |labels[k]|
    && buffer[at + 1..at + 1 + |labels[k]|] == labels[k]
    && buffer[at..at + 1 + |labels[k]|] == Wire(labels[k])
  }

  lemma WireShows(buffer: seq<byte>, at: nat, text: Label)
    requires |text| < 256 && at + 1 + |text| <= |buffer| && buffer[at..at + 1 + |text|] == Wire(text)
    ensures buffer[at] == |text| && buffer[at + 1..at + 1 + |text|] == text
  {
    var wire := Wire(text);
    assert buffer[at] == wire[0];
    assert wire[1..] == text;
    assert buffer[at + 1..at + 1 + |text|] == buffer[at..at + 1 + |text|][1..];
  }

  lemma SliceOfSlice(s: seq<byte>, a: nat, b: nat, i: nat, j: nat)
    requires i <= j && a + j <= b <= |s|
    ensures s[a..b][i..j] == s[a + i..a + j]
  {
    forall k | 0 <= k < j - i ensures s[a..b][i..j][k] == s[a + i..a + j][k] {
      assert s[a..b][i + k] == s[a + i + k];
    }
  }

  lemma AsksAt(buffer: seq<byte>, labels: seq<Label>, k: nat)
    requires Asks(buffer, labels) && k < |labels|
    ensures ShowsLabel(buffer, labels, k)
  {
    hide EncodeLabels;
    var name, p, len := EncodeName(labels), Offset(labels, k), |labels[k]|;
    LabelAt(labels, k);
    assert name[p..p + 1 + len] == EncodeLabels(labels)[p..p + 1 + len];
    SliceOfSlice(buffer, HEADER_SIZE, HEADER_SIZE + |name|, p, p + 1 + len);
    WireShows(buffer, HEADER_SIZE + p, labels[k]);
  }

  lemma AsksEnd(buffer: seq<byte>, labels: seq<Label>)
    requires Asks(buffer, labels)
    ensures Offset(labels, |labels|) == |EncodeLabels(labels)| == |EncodeName(labels)| - 1
    ensures HEADER_SIZE + Offset(labels, |labels|) < |buffer| && buffer[HEADER_SIZE + Offset(labels, |labels|)] == 0
    ensures labels[..|labels|] == labels && Offset(labels, 0) == 0
  {
    var name := EncodeName(labels);
    OffsetEnds(labels);
    assert buffer[HEADER_SIZE + |name| - 1] == buffer[HEADER_SIZE..HEADER_SIZE + |name|][|name| - 1];
  }

  // ---------------------------------------------------------------------------
  // Decoding a message
  // ---------------------------------------------------------------------------

  /**
    Decodes the name at `at`, following pointers, which must lead to before `start`.
    Yields the labels and the position behind the name.
   */
  function DecodeName(msg: seq<byte>, start: nat, at: nat): Option<(seq<Label>, nat)>
    decreases start, |msg| - at
  {
    if at >= |msg| then None
    else if msg[at] == 0 then Some(([], at + 1))
    else if msg[at] <= MAX_LABEL then
      if at + 1 + msg[at] > |msg| then None
      else
        var tail := DecodeName(msg, start, at + 1 + (msg[at] as int));
        if tail.None? then None
        else Some(([msg[at + 1..at + 1 + (msg[at] as int)]] + tail.value.0, tail.value.1))
    else if msg[at] < 0xC0 || at + 1 >= |msg| then None
    else
      var target := PointerTarget(msg[at], msg[at + 1]);
      if target >= start then None
      else
        var pointed := DecodeName(msg, target, target);
        if pointed.None? then None else Some((pointed.value.0, at + 2))
  }

  /** The low 14 bits of a pointer are the offset from the start of the message. */
  function PointerTarget(high: int, low: int): nat
    requires 0xC0 <= high < 256 && 0 <= low < 256
  {
    (high - 0xC0) * 256 + low
  }

  lemma {:induction false} DecodeFrom(msg: seq<byte>, labels: seq<Label>, start: nat, k: nat)
    requires Asks(msg, labels) && k <= |labels|
    ensures DecodeName(msg, start, HEADER_SIZE + Offset(labels, k))
         == Some((labels[k..], HEADER_SIZE + |EncodeName(labels)|))
    decreases |labels| - k
  {
    hide Offset, EncodeLabels;
    AsksEnd(msg, labels);
    if k < |labels| {
      AsksAt(msg, labels, k);
      DecodeFrom(msg, labels, start, k + 1);
      assert labels[k..] == [labels[k]] + labels[k + 1..];
    } else {
      assert labels[k..] == [];
    }
  }

  /** The decoder finds the name that a message asks for. */
  lemma DecodeAsked(msg: seq<byte>, labels: seq<Label>, start: nat)
    requires Asks(msg, labels)
    ensures DecodeName(msg, start, HEADER_SIZE) == Some((labels, HEADER_SIZE + |EncodeName(labels)|))
  {
    OffsetEnds(labels);
    DecodeFrom(msg, labels, start, 0);
    assert labels[0..] == labels;
  }

  // ---------------------------------------------------------------------------
  // Replying
  // ---------------------------------------------------------------------------

  /** The response bit is the highest bit of the third byte. */
  function AsResponse(flags: byte): byte {
    if flags < 128 then flags + 128 else flags
  }

  /** The request's header as a response with as many answers as questions. */
  function ReplyHeader(header: seq<byte>): (r: seq<byte>)
    requires |header| == HEADER_SIZE
    ensures |r| == HEADER_SIZE
  {
    header[2 := AsResponse(header[2])][6 := header[4]][7 := header[5]]
  }

  /** A pointer to offset 12, type A, class IN, time to live, and an address of four bytes. */
  function Answer(ttl: seq<byte>, address: seq<byte>): (r: seq<byte>)
    requires |ttl| == 4 == |address|
    ensures |r| == 16
  {
    [0xC0, HEADER_SIZE] + [0, 1] + [0, 1] + ttl + [0, 4] + address
  }

  function Reply(header: seq<byte>, qname: seq<byte>, qtype: seq<byte>, qclass: seq<byte>,
                 ttl: seq<byte>, address: seq<byte>): seq<byte>
    requires |header| == HEADER_SIZE && |qtype| == 2 == |qclass| && |ttl| == 4 == |address|
  {
    ReplyHeader(header) + qname + qtype + qclass + Answer(ttl, address)
  }

  /**
    The header of a response to `header`: the same identification, the response bit
    set and the other flags as they were, one answer for each question, and the
    remaining counts as they were.
   */
  ghost predicate RespondsTo(reply: seq<byte>, header: seq<byte>)
    requires |header| == 12 <= |reply|
  {
    && reply[0] == header[0] && reply[1] == header[1]
    && reply[2] >= 128 && reply[2] % 128 == header[2] % 128
    && reply[3] == header[3]
    && reply[4..6] == header[4..6] == reply[6..8]
    && reply[8..12] == header[8..12]
  }

  /** What a resolver must find in the reply to a question it sent. */
  ghost predicate Answers(reply: seq<byte>, header: seq<byte>, labels: seq<Label>, qtype: seq<byte>,
                          qclass: seq<byte>, ttl: seq<byte>, address: seq<byte>)
    requires ValidLabels(labels) && |header| == 12
  {
    var q := 12 + |EncodeName(labels)|;
    && |reply| == q + 20
    && RespondsTo(reply, header)
    && DecodeName(reply, 0, 12) == Some((labels, q))
    && reply[q..q + 2] == qtype && reply[q + 2..q + 4] == qclass
    && reply[q + 4] == 0xC0 && reply[q + 5] == 12
    && DecodeName(reply, q + 4, q + 4) == Some((labels, q + 6))
    && reply[q + 6..q + 8] == [0, 1] && reply[q + 8..q + 10] == [0, 1]
    && reply[q + 10..q + 14] == ttl && reply[q + 14..q + 16] == [0, 4] && reply[q + 16..] == address
  }

  lemma HeaderResponds(header: seq<byte>, rest: seq<byte>)
    requires |header| == HEADER_SIZE
    ensures RespondsTo(ReplyHeader(header) + rest, header)
  {
    var r := ReplyHeader(header);
    assert (r + rest)[..12] == r;
    assert (r + rest)[4..6] == r[4..6] && (r + rest)[6..8] == r[6..8] && (r + rest)[8..12] == r[8..12];
    assert r[4..6] == header[4..6] == r[6..8] && r[8..12] == header[8..12];
  }

  /**
    Decoding the reply returns the name, type and class of the question, and its
    answer, whose name is a pointer to offset 12, is for the same name.  Its header
    makes it a response with one answer.
   */
  lemma ReplyAnswers(header: seq<byte>, labels: seq<Label>, qtype: seq<byte>, qclass: seq<byte>,
                     ttl: seq<byte>, address: seq<byte>)
    requires ValidLabels(labels)
    requires |header| == HEADER_SIZE && |qtype| == 2 == |qclass| && |ttl| == 4 == |address|
    ensures Answers(Reply(header, EncodeName(labels), qtype, qclass, ttl, address), header, labels, qtype, qclass,
                    ttl, address)
  {
    hide EncodeName, DecodeName, ReplyHeader, RespondsTo;
    var name := EncodeName(labels);
    var reply := Reply(header, name, qtype, qclass, ttl, address);
    var q := HEADER_SIZE + |name|;
    var tail := Answer(ttl, address);
    ReplyLayout(ReplyHeader(header), name, qtype, qclass, tail);
    ReplyIsHeaderAndRest(header, name, qtype, qclass, ttl, address);
    assert reply[q + 4..] == tail;
    AnswerLayout(ttl, address);
    assert Asks(reply, labels);
    DecodeAsked(reply, labels, 0);
    DecodeAsked(reply, labels, HEADER_SIZE);
    assert reply[q + 4] == tail[0] && reply[q + 5] == tail[1];
    DecodePointer(reply, q + 4);
    assert forall i, j | 0 <= i <= j <= 16 :: reply[q + 4 + i..q + 4 + j] == tail[i..j];
    assert reply[q + 16..] == tail[12..];
  }

  lemma ReplyIsHeaderAndRest(header: seq<byte>, qname: seq<byte>, qtype: seq<byte>, qclass: seq<byte>,
                             ttl: seq<byte>, address: seq<byte>)
    requires |header| == HEADER_SIZE && |qtype| == 2 == |qclass| && |ttl| == 4 == |address|
    ensures RespondsTo(Reply(header, qname, qtype, qclass, ttl, address), header)
  {
    hide ReplyHeader, RespondsTo;
    var rest := qname + (qtype + (qclass + Answer(ttl, address)));
    HeaderResponds(header, rest);
    assert Reply(header, qname, qtype, qclass, ttl, address) == ReplyHeader(header) + rest;
  }

  lemma ReplyLayout(header: seq<byte>, name: seq<byte>, qtype: seq<byte>, qclass: seq<byte>, tail: seq<byte>)
    requires |header| == HEADER_SIZE && |qtype| == 2 == |qclass|
    ensures var reply := header + name + qtype + qclass + tail;
            var q := HEADER_SIZE + |name|;
            && reply[HEADER_SIZE..q] == name
            && reply[q..q + 2] == qtype && reply[q + 2..q + 4] == qclass && reply[q + 4..] == tail
  {}

  lemma AnswerLayout(ttl: seq<byte>, address: seq<byte>)
    requires |ttl| == 4 == |address|
    ensures var a := Answer(ttl, address);
            && a[0] == 0xC0 && a[1] == HEADER_SIZE
            && a[2..4] == [0, 1] && a[4..6] == [0, 1] && a[6..10] == ttl && a[10..12] == [0, 4] && a[12..] == address
  {}

  lemma DecodePointer(msg: seq<byte>, at: nat)
    requires HEADER_SIZE < at && at + 1 < |msg| && msg[at] == 0xC0 && msg[at + 1] == HEADER_SIZE
    ensures var pointed := DecodeName(msg, HEADER_SIZE, HEADER_SIZE);
            DecodeName(msg, at, at) == if pointed.None? then None else Some((pointed.value.0, at + 2))
  {
    assert PointerTarget(msg[at], msg[at + 1]) == HEADER_SIZE;
  }
}
