/**
  The DNS responder: it copies the question out of the received packet, label by
  label, walks the name a second time to compare it, and replies from its copy.
 */
module DnsServer {
  import opened Sequences
  import opened DnsMessage

  const QNAME_CAPACITY := 255

  /** What a request leads to. `Fault` is an access outside a buffer. */
  datatype Outcome = Ignored | ErrorReply | Replied(bytes: seq<byte>) | Fault

  /** Assigning to the signed 8 bit name length. */
  function Int8(n: int): (r: int)
    ensures -128 <= r < 128
    ensures -128 <= n < 128 ==> r == n
    ensures (r - n) % 256 == 0
  {
    (n + 128) % 256 - 128
  }

  lemma NothingCopied(labels: seq<Label>)
    requires ValidLabels(labels)
    ensures EncodeLabels(labels[..0]) == []
  {}

  /** A query of the standard kind: bits of the third byte of the header. */
  predicate IsQuery(header: seq<byte>)
    requires |header| == HEADER_SIZE
  {
    header[2] < 128
  }

  predicate IsStandard(header: seq<byte>)
    requires |header| == HEADER_SIZE
  {
    header[2] / 8 % 16 == 0
  }

  predicate OnlyOneQuestion(header: seq<byte>)
    requires |header| == HEADER_SIZE
  {
    header[4..12] == [0, 1, 0, 0, 0, 0, 0, 0]
  }

  class Server {
    const domainName: seq<byte>
    const normalise: seq<byte> -> seq<byte>  // lower case, without the "www." prefix
    const ttl: seq<byte>
    const resolvedIP: seq<byte>
    const qName: array<byte>
    var qNameLength: int
    var qType: seq<byte>
    var qClass: seq<byte>

    ghost predicate Valid()
      reads this
    {
      qName.Length == QNAME_CAPACITY && |ttl| == 4 == |resolvedIP|
    }

    constructor (domainName: seq<byte>, normalise: seq<byte> -> seq<byte>, ttl: seq<byte>, resolvedIP: seq<byte>)
      requires |ttl| == 4 == |resolvedIP|
      ensures Valid() && fresh(qName)
    {
      this.domainName, this.normalise, this.ttl, this.resolvedIP := domainName, normalise, ttl, resolvedIP;
      qName := new byte[QNAME_CAPACITY];
      qNameLength, qType, qClass := 0, [], [];
    }

    /** The copied question is the one for `labels`, with the type and class behind it. */
    ghost predicate Holds(buffer: seq<byte>, labels: seq<Label>)
      reads this, qName
      requires Valid() && Asks(buffer, labels)
    {
      var name := EncodeName(labels);
      var q := HEADER_SIZE + |name|;
      && qNameLength == |name| <= QNAME_CAPACITY
      && qName[..|name|] == name
      && qType == buffer[q..q + 2] && qClass == buffer[q + 2..q + 4]
    }

    /**
      Copies the name, type and class of the question.  The length is a signed byte:
      once it turns negative the next access is outside of the buffers.  For a well
      formed question this happens exactly when the name has more than 127 bytes.
     */
    method CopyQuestion(buffer: seq<byte>, ghost labels: seq<Label>) returns (ok: bool)
      requires Valid()
      modifies this`qNameLength, this`qType, this`qClass, qName
      ensures Asks(buffer, labels) ==> (ok <==> |EncodeName(labels)| <= 127)
      ensures Asks(buffer, labels) && ok ==> Holds(buffer, labels)
    {
      ok := CopyLabels(buffer, labels);
      if !ok {
        return;
      }
      if Asks(buffer, labels) {
        AsksEnd(buffer, labels);
      }
      qName[qNameLength] := 0;
      qNameLength := Int8(qNameLength + 1);
      if qNameLength < 0 || HEADER_SIZE + qNameLength + 4 > |buffer| {
        return false;
      }
      qType := buffer[HEADER_SIZE + qNameLength..HEADER_SIZE + qNameLength + 2];
      qClass := buffer[HEADER_SIZE + qNameLength + 2..HEADER_SIZE + qNameLength + 4];
      if Asks(buffer, labels) {
        assert qName[..qNameLength] == qName[..qNameLength - 1] + [0];
      }
    }

    /** The first `k` labels have been copied, or the length has wrapped in doing so. */
    ghost predicate Copied(labels: seq<Label>, k: nat)
      reads this, qName
      requires ValidLabels(labels)
    {
      && qName.Length == QNAME_CAPACITY && k <= |labels|
      && qNameLength == Int8(Offset(labels, k))
      && (qNameLength < 0 ==> |EncodeLabels(labels)| >= 128)
      && (qNameLength >= 0 ==>
            qNameLength == Offset(labels, k) && qName[..qNameLength] == EncodeLabels(labels[..k]))
    }

    method CopyLabels(buffer: seq<byte>, ghost labels: seq<Label>) returns (ok: bool)
      requires Valid()
      modifies this`qNameLength, qName
      ensures ok ==> 0 <= qNameLength < 128
      ensures Asks(buffer, labels) ==> (ok <==> |EncodeName(labels)| <= MAX_QNAME_LENGTH + 1)
      ensures Asks(buffer, labels) && ok ==>
        qNameLength == |EncodeLabels(labels)| && qName[..qNameLength] == EncodeLabels(labels)
    {
      hide EncodeLabels, Offset;
      qNameLength := 0;
      ghost var k := 0;
      ghost var asked := Asks(buffer, labels);
      if asked {
        AsksEnd(buffer, labels);
        NothingCopied(labels);
      }
      while true
        invariant -128 <= qNameLength < 128
        invariant asked ==> Copied(labels, k)
        decreases if qNameLength < 0 then 0 else 128 - qNameLength
      {
        if qNameLength < 0 || HEADER_SIZE + qNameLength >= |buffer| {
          if asked && k < |labels| { AsksAt(buffer, labels, k); }
          return false;
        }
        if asked && k < |labels| { AsksAt(buffer, labels, k); }
        if buffer[HEADER_SIZE + qNameLength] == 0 {
          return true;
        }
        ok := CopyOne(buffer, labels, k);
        if !ok {
          return;
        }
        k := k + 1;
      }
    }

    /** One turn of the loop: the label at the current length. */
    method CopyOne(buffer: seq<byte>, ghost labels: seq<Label>, ghost k: nat) returns (ok: bool)
      requires Valid() && 0 <= qNameLength < 128
      requires HEADER_SIZE + qNameLength < |buffer| && buffer[HEADER_SIZE + qNameLength] != 0
      requires Asks(buffer, labels) ==> k < |labels| && Copied(labels, k)
      modifies this`qNameLength, qName
      ensures ok ==> -128 <= qNameLength < 0 || old(qNameLength) < qNameLength < 128
      ensures Asks(buffer, labels) ==> ok && Copied(labels, k + 1)
    {
      hide EncodeLabels, Offset;
      if Asks(buffer, labels) {
        AsksAt(buffer, labels, k);
        LabelAt(labels, k);
      }
      var end := qNameLength + buffer[HEADER_SIZE + qNameLength] as int + 1;
      if HEADER_SIZE + end > |buffer| || end > QNAME_CAPACITY {
        return false;
      }
      CopyIn(qNameLength, buffer[HEADER_SIZE + qNameLength..HEADER_SIZE + end]);
      qNameLength := Int8(end);
      return true;
    }

    method CopyIn(at: nat, source: seq<byte>)
      requires at + |source| <= qName.Length
      modifies qName
      ensures qName[..at + |source|] == old(qName[..at]) + source
    {
      for i := 0 to |source|
        invariant qName[..at] == old(qName[..at])
        invariant qName[at..at + i] == source[..i]
      {
        qName[at + i] := source[i];
      }
      assert qName[..at + |source|] == qName[..at] + qName[at..at + |source|];
    }

    /**
      Walks the name again, this time without a limit on its length, and joins its
      labels with dots.  It stops on the byte that ends the name.
     */
    method DomainName(buffer: seq<byte>, ghost labels: seq<Label>)
      returns (ok: bool, name: seq<byte>, pos: nat)
      ensures Asks(buffer, labels) ==>
        ok && name == Dotted(labels) && pos == |EncodeName(labels)| - 1
      ensures ok ==> HEADER_SIZE + pos < |buffer| && buffer[HEADER_SIZE + pos] == 0
    {
      name, pos := [], 0;
      if HEADER_SIZE >= |buffer| {
        return false, name, pos;
      }
      hide EncodeName, Dotted, Asks, Walked;
      if Asks(buffer, labels) {
        WalkStart(buffer, labels);
      }
      if buffer[HEADER_SIZE] == 0 {
        return true, name, pos;
      }
      ghost var k := 0;
      while true
        invariant HEADER_SIZE + pos < |buffer|
        invariant Asks(buffer, labels) ==> Walked(labels, k, pos, name)
        decreases |buffer| - pos
      {
        if Asks(buffer, labels) { WalkStep(buffer, labels, k, pos, name); }
        ok, name, pos := AppendLabel(buffer, name, pos);
        if !ok || buffer[HEADER_SIZE + pos] == 0 {
          return;
        }
        name := name + [DOT];
        k := k + 1;
      }
    }

    /** The inner loop: appends the bytes of one label and moves behind it. */
    method AppendLabel(buffer: seq<byte>, name: seq<byte>, start: nat)
      returns (ok: bool, longer: seq<byte>, pos: nat)
      requires HEADER_SIZE + start < |buffer|
      ensures ok <==> HEADER_SIZE + start + buffer[HEADER_SIZE + start] as int + 1 < |buffer|
      ensures ok ==> pos == start + buffer[HEADER_SIZE + start] as int + 1
      ensures ok ==> longer == name + buffer[HEADER_SIZE + start + 1..HEADER_SIZE + pos]
    {
      var labelLength := buffer[HEADER_SIZE + start] as int;
      longer, pos := name, start;
      for i := 0 to labelLength
        invariant pos == start + i && HEADER_SIZE + pos < |buffer|
        invariant longer == name + buffer[HEADER_SIZE + start + 1..HEADER_SIZE + pos + 1]
      {
        pos := pos + 1;
        if HEADER_SIZE + pos >= |buffer| {
          return false, longer, pos;
        }
        longer := longer + [buffer[HEADER_SIZE + pos]];
      }
      pos := pos + 1;
      ok := HEADER_SIZE + pos < |buffer|;
    }

    /**
      Handles one received packet.  Of the header, the highest bit of byte 2 says that
      it is a response, the next four are the operation code, and bytes 4 to 11 are
      the four counts.
     */
    method ProcessRequest(buffer: seq<byte>, ghost labels: seq<Label>) returns (outcome: Outcome)
      requires Valid()
      modifies this`qNameLength, this`qType, this`qClass, qName
      ensures buffer == [] ==> outcome == Ignored
      ensures 0 < |buffer| < 12 ==> outcome == Fault
      ensures |buffer| >= 12 && outcome != Fault ==>
        && (outcome.Ignored? <==> buffer[2] >= 128)
        && (outcome.Replied? ==> buffer[2] / 8 == 0 && buffer[4..12] == [0, 1, 0, 0, 0, 0, 0, 0])
        && (outcome.Replied? ==> |outcome.bytes| >= 12 && RespondsTo(outcome.bytes, buffer[..12]))
      ensures |buffer| >= 12 && buffer[4..12] != [0, 1, 0, 0, 0, 0, 0, 0] ==>
        outcome == if buffer[2] < 128 then ErrorReply else Ignored
      ensures Asks(buffer, labels) && buffer[4..12] == [0, 1, 0, 0, 0, 0, 0, 0] ==>
        var q := 12 + |EncodeName(labels)|;
        if |EncodeName(labels)| > 127 then outcome == Fault
        else if buffer[2] >= 128 then outcome == Ignored
        else if buffer[2] / 8 == 0 && (domainName == [42] || normalise(Dotted(labels)) == domainName) then
          outcome.Replied? &&
          Answers(outcome.bytes, buffer[..12], labels, buffer[q..q + 2], buffer[q + 2..q + 4], ttl, resolvedIP)
        else outcome == ErrorReply
    {
      if buffer == [] {
        return Ignored;
      }
      if |buffer| < HEADER_SIZE {
        return Fault;
      }
      var header := buffer[..HEADER_SIZE];
      if OnlyOneQuestion(header) {
        var copied := CopyQuestion(buffer, labels);
        if !copied {
          return Fault;
        }
      }
      if IsQuery(header) && IsStandard(header) && OnlyOneQuestion(header) {
        var matches := domainName == [42];
        if !matches {
          var ok, name, _ := DomainName(buffer, labels);
          if !ok {
            return Fault;
          }
          matches := normalise(name) == domainName;
        }
        if matches {
          outcome := ReplyWithIP(header);
          if Asks(buffer, labels) {
            var q := HEADER_SIZE + |EncodeName(labels)|;
            ReplyAnswers(header, labels, buffer[q..q + 2], buffer[q + 2..q + 4], ttl, resolvedIP);
          }
          return;
        }
      }
      return if IsQuery(header) then ErrorReply else Ignored;
    }

    /** Writes the reply from the header and the copied question. */
    method ReplyWithIP(header: seq<byte>) returns (outcome: Outcome)
      requires Valid() && |header| == HEADER_SIZE
      ensures outcome == Fault || (outcome.Replied? && |outcome.bytes| >= 12 && RespondsTo(outcome.bytes, header))
      ensures 0 <= qNameLength <= QNAME_CAPACITY && |qType| == 2 == |qClass| ==>
        outcome == Replied(Reply(header, qName[..qNameLength], qType, qClass, ttl, resolvedIP))
    {
      if qNameLength < 0 || qNameLength > QNAME_CAPACITY || |qType| != 2 || |qClass| != 2 {
        return Fault;
      }
      var packet := ReplyHeader(header);
      packet := packet + qName[..qNameLength];
      packet := packet + qType + qClass;
      packet := packet + Answer(ttl, resolvedIP);
      ReplyIsHeaderAndRest(header, qName[..qNameLength], qType, qClass, ttl, resolvedIP);
      return Replied(packet);
    }
  }

  /** The name so far, with the dot behind it, when the walk comes to label `k`. */
  ghost function Leading(labels: seq<Label>, k: nat): seq<byte>
    requires k <= |labels|
  {
    if k == 0 then [] else Dotted(labels[..k]) + [DOT]
  }

  lemma DottedSnoc(labels: seq<Label>, k: nat)
    requires k < |labels|
    ensures Dotted(labels[..k + 1]) == Leading(labels, k) + labels[k]
  {
    assert labels[..k + 1][..k] == labels[..k];
  }

  /** The walk has come to label `k` with the name so far. */
  ghost predicate Walked(labels: seq<Label>, k: nat, pos: nat, name: seq<byte>) {
    ValidLabels(labels) && k < |labels| && pos == Offset(labels, k) && name == Leading(labels, k)
  }

  lemma WalkStart(buffer: seq<byte>, labels: seq<Label>)
    requires Asks(buffer, labels)
    ensures if buffer[HEADER_SIZE] == 0 then Dotted(labels) == [] && |EncodeName(labels)| == 1
            else Walked(labels, 0, 0, [])
  {
    AsksEnd(buffer, labels);
    if labels != [] {
      AsksAt(buffer, labels, 0);
    }
  }

  /** One turn of the walk: it comes to the next label, or has the whole name. */
  lemma WalkStep(buffer: seq<byte>, labels: seq<Label>, k: nat, pos: nat, name: seq<byte>)
    requires Asks(buffer, labels) && Walked(labels, k, pos, name) && HEADER_SIZE + pos < |buffer|
    ensures var end := pos + buffer[HEADER_SIZE + pos] as int + 1;
            && HEADER_SIZE + end < |buffer|
            && var longer := name + buffer[HEADER_SIZE + pos + 1..HEADER_SIZE + end];
               if buffer[HEADER_SIZE + end] == 0 then longer == Dotted(labels) && end == |EncodeName(labels)| - 1
               else Walked(labels, k + 1, end, longer + [DOT])
  {
    hide EncodeLabels, Offset, Dotted, Asks, Leading, ShowsLabel;
    WalkLabel(buffer, labels, k, pos, name);
    AsksEnd(buffer, labels);
    if k + 1 < |labels| {
      NextLabel(buffer, labels, k + 1);
    }
  }

  /** The walk over label `k` itself. */
  lemma WalkLabel(buffer: seq<byte>, labels: seq<Label>, k: nat, pos: nat, name: seq<byte>)
    requires Asks(buffer, labels) && Walked(labels, k, pos, name) && HEADER_SIZE + pos < |buffer|
    ensures buffer[HEADER_SIZE + pos] == |labels[k]|
    ensures var end := pos + |labels[k]| + 1;
            && end == Offset(labels, k + 1) && HEADER_SIZE + end <= |buffer|
            && name + buffer[HEADER_SIZE + pos + 1..HEADER_SIZE + end] == Dotted(labels[..k + 1])
  {
    hide EncodeLabels, Offset, Dotted, Asks;
    AsksAt(buffer, labels, k);
    DottedSnoc(labels, k);
  }

  /** Label `k` starts inside the message, and not with the byte that ends a name. */
  lemma NextLabel(buffer: seq<byte>, labels: seq<Label>, k: nat)
    requires Asks(buffer, labels) && 0 < k < |labels|
    ensures HEADER_SIZE + Offset(labels, k) < |buffer| && buffer[HEADER_SIZE + Offset(labels, k)] != 0
    ensures Leading(labels, k) == Dotted(labels[..k]) + [DOT]
  {
    hide EncodeLabels, Offset, Dotted;
    AsksAt(buffer, labels, k);
  }
}
