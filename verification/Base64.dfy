/**
  The Base64 codec: index-driven loops over three and four byte groups, proved
  against the 6-bit-group description of section 4 of RFC 4648.
 */
module Base64 {
  import opened Sequences

  const UPPER: string := "ABCDEFGHIJKLMNOPQRSTUVWXYZ"
  const LOWER: string := "abcdefghijklmnopqrstuvwxyz"
  const OTHER: string := "0123456789+/"
  const ALPHABET: string := UPPER + LOWER + OTHER

  type Sextet = x: int | 0 <= x < 64

  function Symbol(d: Sextet): (c: char) {
    ALPHABET[d]
  }

  // ---------------------------------------------------------------------------
  // The standard
  // ---------------------------------------------------------------------------

  function Number(b0: int, b1: int, b2: int): int {
    b0 * 65536 + b1 * 256 + b2
  }

  /** 24 bits as four groups of six. */
  function Quantum(b0: byte, b1: byte, b2: byte): (q: string)
    ensures |q| == 4
  {
    var n := Number(b0, b1, b2);
    [Symbol(n / 262144), Symbol(n / 4096 % 64), Symbol(n / 64 % 64), Symbol(n % 64)]
  }

  /** Final 16 bits, extended with two zeros to three groups. */
  function Quantum2(b0: byte, b1: byte): (q: string)
    ensures |q| == 4
  {
    var n := Number(0, b0, b1) * 4;
    [Symbol(n / 4096), Symbol(n / 64 % 64), Symbol(n % 64), '=']
  }

  /** Final 8 bits, extended with four zeros to two groups. */
  function Quantum1(b0: byte): (q: string)
    ensures |q| == 4
  {
    var n := Number(0, 0, b0) * 16;
    [Symbol(n / 64), Symbol(n % 64), '=', '=']
  }

  function Standard(data: seq<byte>): string {
    if data == [] then ""
    else if |data| == 1 then Quantum1(data[0])
    else if |data| == 2 then Quantum2(data[0], data[1])
    else Quantum(data[0], data[1], data[2]) + Standard(data[3..])
  }

  /** The number of padding characters for each residue of the length. */
  function Padding(n: nat): nat {
    if n % 3 == 0 then 0 else 3 - n % 3
  }

  lemma {:induction false} StandardLength(data: seq<byte>)
    ensures |Standard(data)| == (|data| + 2) / 3 * 4
  {
    hide Quantum, Quantum1, Quantum2;
    if |data| > 2 {
      StandardLength(data[3..]);
    }
  }

  lemma {:induction false} StandardConcat(front: seq<byte>, back: seq<byte>)
    requires |front| % 3 == 0
    ensures Standard(front + back) == Standard(front) + Standard(back)
  {
    hide Quantum, Quantum1, Quantum2;
    var all := front + back;
    if front == [] {
      assert all == back;
    } else {
      StandardConcat(front[3..], back);
      assert all[3..] == front[3..] + back;
      assert all[0] == front[0] && all[1] == front[1] && all[2] == front[2];
    }
  }

  // ---------------------------------------------------------------------------
  // The code's own steps
  // ---------------------------------------------------------------------------

  /** Three bytes to four sextets, by masks and shifts. */
  function A3ToA4(a3: seq<byte>): (a4: seq<Sextet>)
    requires |a3| == 3
    ensures |a4| == 4
  {
    [a3[0] / 4, a3[0] % 4 * 16 + a3[1] / 16, a3[1] % 16 * 4 + a3[2] / 64, a3[2] % 64]
  }

  /** Four looked-up characters to three bytes; the sums are cut to a byte. */
  function A4ToA3(a4: seq<byte>): (a3: seq<byte>)
    requires |a4| == 4
    ensures |a3| == 3
  {
    var x0: int, x1: int, x2: int, x3: int := a4[0], a4[1], a4[2], a4[3];
    [(x0 * 4 + x1 / 16 % 4) % 256, (x1 % 16 * 16 + x2 / 4 % 16) % 256, (x2 % 4 * 64 + x3) % 256]
  }

  /** The six bits of a character; 255 for anything outside the alphabet. */
  function Lookup(c: char): byte {
    if 'A' <= c <= 'Z' then c as int - 65
    else if 'a' <= c <= 'z' then c as int - 71
    else if '0' <= c <= '9' then c as int + 4
    else if c == '+' then 62
    else if c == '/' then 63
    else 255
  }

  lemma LookupUpper(d: nat)
    requires d < 26
    ensures 'A' <= UPPER[d] <= 'Z' && UPPER[d] as int == d + 65
  {}

  lemma LookupLower(d: nat)
    requires d < 26
    ensures 'a' <= LOWER[d] <= 'z' && LOWER[d] as int == d + 97
  {}

  lemma LookupInvertsSymbol(d: Sextet)
    ensures Lookup(Symbol(d)) == d && Symbol(d) != '='
  {
    if d < 26 {
      LookupUpper(d);
      assert Symbol(d) == UPPER[d];
    } else if d < 52 {
      LookupLower(d - 26);
      assert Symbol(d) == LOWER[d - 26];
    } else {
      assert Symbol(d) == OTHER[d - 52];
    }
  }

  lemma LookupUpperOf(c: char)
    requires 'A' <= c <= 'Z'
    ensures UPPER[Lookup(c)] == c
  {}

  lemma LookupLowerOf(c: char)
    requires 'a' <= c <= 'z'
    ensures LOWER[Lookup(c) as int - 26] == c
  {}

  lemma LookupOtherOf(c: char)
    requires '0' <= c <= '9' || c == '+' || c == '/'
    ensures OTHER[Lookup(c) as int - 52] == c
  {}

  /** A character whose lookup is not 255 is the symbol of its value. */
  lemma SymbolInvertsLookup(c: char)
    requires Lookup(c) != 255
    ensures Lookup(c) < 64 && Symbol(Lookup(c)) == c
  {
    if 'A' <= c <= 'Z' {
      LookupUpperOf(c);
      assert Symbol(Lookup(c)) == UPPER[Lookup(c)];
    } else if 'a' <= c <= 'z' {
      LookupLowerOf(c);
      assert Symbol(Lookup(c)) == LOWER[Lookup(c) as int - 26];
    } else {
      LookupOtherOf(c);
      assert Symbol(Lookup(c)) == OTHER[Lookup(c) as int - 52];
    }
  }

  /** Exactly the characters outside the alphabet look up as 255. */
  lemma LookupElsewhere(c: char)
    ensures Lookup(c) == 255 <==> c !in ALPHABET
  {
    hide Lookup, Symbol;
    if Lookup(c) != 255 {
      SymbolInvertsLookup(c);
      SymbolInAlphabet(Lookup(c));
    } else if c in ALPHABET {
      var d: nat :| d < |ALPHABET| && ALPHABET[d] == c;
      SymbolInAlphabet(d);
      LookupInvertsSymbol(d);
    }
  }

  lemma SymbolInAlphabet(d: Sextet)
    ensures |ALPHABET| == 64 && Symbol(d) == ALPHABET[d] && Symbol(d) in ALPHABET
  {}

  lemma GroupIsQuantum(a3: seq<byte>)
    requires |a3| == 3
    ensures var a4 := A3ToA4(a3);
            Quantum(a3[0], a3[1], a3[2]) == [Symbol(a4[0]), Symbol(a4[1]), Symbol(a4[2]), Symbol(a4[3])]
  {
    GroupNumbers(a3[0], a3[1], a3[2]);
  }

  lemma GroupNumbers(b0: int, b1: int, b2: int)
    requires 0 <= b0 < 256 && 0 <= b1 < 256 && 0 <= b2 < 256
    ensures var n := Number(b0, b1, b2);
            && n / 262144 == b0 / 4
            && n / 4096 % 64 == b0 % 4 * 16 + b1 / 16
            && n / 64 % 64 == b1 % 16 * 4 + b2 / 64
            && n % 64 == b2 % 64
  {
    var n := Number(b0, b1, b2);
    GroupHigh(b0, b1 * 256 + b2);
    GroupMiddle(b0, b1, b2);
  }

  lemma GroupHigh(b0: int, low: int)
    requires 0 <= b0 < 256 && 0 <= low < 65536
    ensures (b0 * 65536 + low) / 262144 == b0 / 4
    ensures (b0 * 65536 + low) / 4096 % 64 == b0 % 4 * 16 + low / 4096
  {
    var q, r := b0 / 4, b0 % 4;
    assert (b0 * 65536 + low) / 4096 == 64 * q + (16 * r + low / 4096);
  }

  lemma GroupMiddle(b0: int, b1: int, b2: int)
    requires 0 <= b0 < 256 && 0 <= b1 < 256 && 0 <= b2 < 256
    ensures (b1 * 256 + b2) / 4096 == b1 / 16
    ensures (b0 * 65536 + b1 * 256 + b2) / 64 % 64 == b1 % 16 * 4 + b2 / 64
    ensures (b0 * 65536 + b1 * 256 + b2) % 64 == b2 % 64
  {
    var q, r := b1 / 16, b1 % 16;
    Sextets(b0 * 1024 + b1 * 4, b2);
    Sextets(16 * b0 + q, 4 * r + b2 / 64);
  }

  lemma Sextets(high: int, low: int)
    requires 0 <= high && 0 <= low
    ensures (64 * high + low) / 64 == high + low / 64 && (64 * high + low) % 64 == low % 64
  {}

  lemma TailNumbers(b0: int, b1: int)
    requires 0 <= b0 < 256 && 0 <= b1 < 256
    ensures var n := Number(0, b0, b1) * 4;
            n / 4096 == b0 / 4 && n / 64 % 64 == b0 % 4 * 16 + b1 / 16 && n % 64 == b1 % 16 * 4
    ensures var n := Number(0, 0, b0) * 16;
            n / 64 == b0 / 4 && n % 64 == b0 % 4 * 16
  {
    var q0, r0, q1, r1 := b0 / 4, b0 % 4, b1 / 16, b1 % 16;
    var middle := 16 * r0 + q1;
    assert Number(0, b0, b1) * 4 == 64 * (64 * q0 + middle) + 4 * r1;
    Sextets(64 * q0 + middle, 4 * r1);
    Sextets(q0, middle);
    Sextets(q0, 16 * r0);
  }

  /** Splitting three bytes and joining them again gives them back. */
  lemma JoinInvertsSplit(a3: seq<byte>)
    requires |a3| == 3
    ensures A4ToA3(A3ToA4(a3)) == a3
  {
    JoinNumbers(a3[0], a3[1], a3[2]);
    var joined := A4ToA3(A3ToA4(a3));
    assert joined[0] == a3[0] && joined[1] == a3[1] && joined[2] == a3[2];
  }

  lemma JoinNumbers(b0: int, b1: int, b2: int)
    requires 0 <= b0 < 256 && 0 <= b1 < 256 && 0 <= b2 < 256
    ensures (b0 / 4 * 4 + (b0 % 4 * 16 + b1 / 16) / 16 % 4) % 256 == b0
    ensures ((b0 % 4 * 16 + b1 / 16) % 16 * 16 + (b1 % 16 * 4 + b2 / 64) / 4 % 16) % 256 == b1
    ensures ((b1 % 16 * 4 + b2 / 64) % 4 * 64 + b2 % 64) % 256 == b2
  {
    Halves16(b0 % 4, b1 / 16);
    Halves4(b1 % 16, b2 / 64);
  }

  lemma Halves16(high: int, low: int)
    requires 0 <= high && 0 <= low < 16
    ensures (high * 16 + low) / 16 == high && (high * 16 + low) % 16 == low
  {}

  lemma Halves4(high: int, low: int)
    requires 0 <= high && 0 <= low < 4
    ensures (high * 4 + low) / 4 == high && (high * 4 + low) % 4 == low
  {}

  /** Joining any four bytes: of the inner ones only the low six bits matter. */
  lemma JoinTakesLowBits(a4: seq<byte>)
    requires |a4| == 4
    ensures var x0: int, x1: int, x2: int, x3: int := a4[0], a4[1] % 64, a4[2] % 64, a4[3];
            A4ToA3(a4) == [(4 * x0 + x1 / 16) % 256, 16 * (x1 % 16) + x2 / 4, (64 * (x2 % 4) + x3) % 256]
  {
    JoinedNumbers(a4[0], a4[1], a4[2], a4[3]);
  }

  lemma JoinedNumbers(x0: int, x1: int, x2: int, x3: int)
    requires 0 <= x0 < 256 && 0 <= x1 < 256 && 0 <= x2 < 256 && 0 <= x3 < 256
    ensures (x0 * 4 + x1 / 16 % 4) % 256 == (4 * x0 + x1 % 64 / 16) % 256
    ensures (x1 % 16 * 16 + x2 / 4 % 16) % 256 == 16 * (x1 % 64 % 16) + x2 % 64 / 4
    ensures (x2 % 4 * 64 + x3) % 256 == (64 * (x2 % 64 % 4) + x3) % 256
  {
    LowBits(x1);
    LowBits(x2);
    var high, low := x1 % 16, x2 / 4 % 16;
    assert 0 <= high * 16 + low < 256;
  }

  lemma LowBits(x: int)
    requires 0 <= x < 256
    ensures x / 16 % 4 == x % 64 / 16 && x % 16 == x % 64 % 16
    ensures x / 4 % 16 == x % 64 / 4 && x % 4 == x % 64 % 4
  {
    var q, r := x / 64, x % 64;
    assert x / 16 == 4 * q + r / 16 && x / 4 == 16 * q + r / 4;
  }

  // ---------------------------------------------------------------------------
  // Encoding
  // ---------------------------------------------------------------------------

  /** The length the encoder reserves. */
  function EncodedLength(length: nat): nat {
    (length + 2 - (length + 2) % 3) / 3 * 4
  }

  lemma EncodedLengthIsStandard(data: seq<byte>)
    ensures EncodedLength(|data|) == |Standard(data)|
  {
    hide Standard;
    StandardLength(data);
    var n := |data| + 2;
    assert n == n / 3 * 3 + n % 3;
  }

  lemma StandardNextGroup(input: seq<byte>, at: nat)
    requires at % 3 == 0 && at + 3 <= |input|
    ensures Standard(input[..at + 3]) == Standard(input[..at]) + Quantum(input[at], input[at + 1], input[at + 2])
  {
    hide Quantum;
    var group := input[at..at + 3];
    StandardConcat(input[..at], group);
    assert input[..at + 3] == input[..at] + group;
    assert Standard(group[3..]) == "";
  }

  /** The text of one or two final bytes, as the encoder's tail case writes it. */
  function TailText(tail: seq<byte>): (text: string)
    requires |tail| == 1 || |tail| == 2
    ensures |text| == 4
  {
    var a4 := A3ToA4([tail[0], if |tail| == 2 then tail[1] else 0, 0]);
    [Symbol(a4[0]), Symbol(a4[1])] + (if |tail| == 2 then [Symbol(a4[2]), '='] else ['=', '='])
  }

  lemma TailTextIsStandard(tail: seq<byte>)
    requires |tail| == 1 || |tail| == 2
    ensures TailText(tail) == Standard(tail)
  {
    hide Symbol, A3ToA4, Number;
    if |tail| == 1 {
      Tail1(tail[0]);
    } else {
      Tail2(tail[0], tail[1]);
    }
  }

  lemma Tail1(b0: byte)
    ensures var a4 := A3ToA4([b0, 0, 0]); Quantum1(b0) == [Symbol(a4[0]), Symbol(a4[1]), '=', '=']
  {
    hide Symbol;
    TailNumbers(b0, 0);
  }

  lemma Tail2(b0: byte, b1: byte)
    ensures var a4 := A3ToA4([b0, b1, 0]); Quantum2(b0, b1) == [Symbol(a4[0]), Symbol(a4[1]), Symbol(a4[2]), '=']
  {
    hide Symbol;
    TailNumbers(b0, b1);
  }

  lemma StandardTail(input: seq<byte>, at: nat)
    requires at % 3 == 0 && at < |input| < at + 3
    ensures Standard(input) == Standard(input[..at]) + TailText(input[at..])
  {
    hide TailText, Standard;
    StandardConcat(input[..at], input[at..]);
    assert input == input[..at] + input[at..];
    TailTextIsStandard(input[at..]);
  }

  /** Encodes `input`; the result always fills the reserved length. */
  method Encode(input: seq<byte>) returns (ok: bool, out: array<char>)
    ensures fresh(out) && ok && out[..] == Standard(input)
  {
    hide Standard, Quantum, A3ToA4, Symbol, TailText;
    EncodedLengthIsStandard(input);
    out := new char[EncodedLength(|input|)];
    var i, encLen := 0, 0;
    var a3: seq<byte> := [0, 0, 0];
    StandardEmpty();
    var pos := 0;
    ghost var base := 0;
    while pos < |input|
      invariant base % 3 == 0 && i < 3 && base + i == pos <= |input| && |a3| == 3
      invariant forall j | 0 <= j < i :: a3[j] == input[base + j]
      invariant encLen == |Standard(input[..base])| <= out.Length
      invariant out[..encLen] == Standard(input[..base])
    {
      a3 := a3[i := input[pos]];
      i, pos := i + 1, pos + 1;
      if i == 3 {
        GroupFits(input, pos);
        encLen := PutGroup(out, encLen, a3);
        i, base := 0, pos;
      }
    }
    assert input[..|input|] == input;
    if i > 0 {
      StandardTail(input, base);
      assert a3[..i] == input[base..];
      encLen := PutTail(out, encLen, a3, i);
    }
    ok := encLen == out.Length;
  }

  lemma StandardEmpty()
    ensures Standard([]) == ""
  {}

  lemma StandardRoom(input: seq<byte>, pos: nat)
    requires pos <= |input| && pos % 3 == 0
    ensures |Standard(input[..pos])| <= |Standard(input)|
  {
    hide Standard;
    StandardConcat(input[..pos], input[pos..]);
    assert input == input[..pos] + input[pos..];
  }

  /** The text of the next group, and room for it in the reserved length. */
  lemma GroupFits(input: seq<byte>, pos: nat)
    requires 3 <= pos <= |input| && pos % 3 == 0
    ensures Standard(input[..pos]) ==
            Standard(input[..pos - 3]) + Quantum(input[pos - 3], input[pos - 2], input[pos - 1])
    ensures |Standard(input[..pos - 3])| + 4 == |Standard(input[..pos])| <= |Standard(input)|
  {
    hide Standard, Quantum;
    StandardNextGroup(input, pos - 3);
    StandardRoom(input, pos);
  }

  /** Writes the four symbols of a full group. */
  method PutGroup(out: array<char>, at: nat, a3: seq<byte>) returns (end: nat)
    requires |a3| == 3 && at + 4 <= out.Length
    modifies out
    ensures end == at + 4
    ensures out[..end] == old(out[..at]) + Quantum(a3[0], a3[1], a3[2])
  {
    hide Quantum, A3ToA4, Symbol;
    var a4 := A3ToA4(a3);
    end := at;
    for i := 0 to 4
      invariant end == at + i && out[..at] == old(out[..at])
      invariant forall j | 0 <= j < i :: out[at + j] == Symbol(a4[j])
    {
      out[end] := Symbol(a4[i]);
      end := end + 1;
    }
    GroupIsQuantum(a3);
    assert out[..end] == out[..at] + [out[at], out[at + 1], out[at + 2], out[at + 3]];
  }

  /** Pads the group with zero bytes, then writes `i + 1` symbols and the padding. */
  method PutTail(out: array<char>, at: nat, a: seq<byte>, i: nat) returns (end: nat)
    requires |a| == 3 && 0 < i < 3 && at + 4 <= out.Length
    modifies out
    ensures end == at + 4
    ensures out[..end] == old(out[..at]) + TailText(a[..i])
  {
    hide A3ToA4, Symbol;
    var a3, j := a, i;
    while j < 3
      invariant i <= j <= 3 && |a3| == 3
      invariant a3[0] == a[0] && (i == 2 ==> a3[1] == a[1]) && forall k | i <= k < j :: a3[k] == 0
    {
      a3 := a3[j := 0];
      j := j + 1;
    }
    assert a3 == [a[0], if i == 2 then a[1] else 0, 0];
    var a4 := A3ToA4(a3);
    end := at;
    for k := 0 to i + 1
      invariant end == at + k && out[..at] == old(out[..at])
      invariant forall m | 0 <= m < k :: out[at + m] == Symbol(a4[m])
    {
      out[end] := Symbol(a4[k]);
      end := end + 1;
    }
    j := i;
    while j < 3
      invariant i <= j <= 3 && end == at + 1 + j && out[..at] == old(out[..at])
      invariant forall m | 0 <= m <= i :: out[at + m] == Symbol(a4[m])
      invariant forall m | at + i < m <= at + j :: out[m] == '='
    {
      out[end] := '=';
      j, end := j + 1, end + 1;
    }
    assert out[..end] == out[..at] + [out[at], out[at + 1], out[at + 2], out[at + 3]];
  }

  // ---------------------------------------------------------------------------
  // Decoding
  // ---------------------------------------------------------------------------

  /**
    How a call of the decoder ends: with data, with a failure because the length
    does not come out, or outside the bounds of its input or its result.
   */
  datatype Decoding = Decoded(data: seq<byte>) | Rejected | OutOfBounds

  /** The characters before the first padding character. */
  function Body(s: string): (b: string)
    ensures |b| <= |s| && b == s[..|b|]
  {
    if s == "" || s[0] == '=' then "" else [s[0]] + Body(s[1..])
  }

  /** The padding characters at the very end. */
  function TrailingPads(s: string): (n: nat)
    ensures n <= |s|
  {
    if s == "" || s[|s| - 1] != '=' then 0 else 1 + TrailingPads(s[..|s| - 1])
  }

  /** One group; missing characters are NUL, which looks up as 255. */
  function DecodeGroup(b: string): (a3: seq<byte>)
    requires 1 <= |b| <= 4
    ensures |a3| == 3
  {
    A4ToA3([Lookup(b[0]),
            Lookup(if |b| > 1 then b[1] else '\0'),
            Lookup(if |b| > 2 then b[2] else '\0'),
            Lookup(if |b| > 3 then b[3] else '\0')])
  }

  /** The bytes of all groups; a group of `i` characters gives `i - 1` bytes. */
  function DecodeBody(b: string): seq<byte> {
    if b == "" then []
    else if |b| < 4 then DecodeGroup(b)[..|b| - 1]
    else DecodeGroup(b[..4]) + DecodeBody(b[4..])
  }

  /** The length the decoder reserves, from the whole input and its padding. */
  function DecodedLength(s: string): int {
    6 * |s| / 8 - TrailingPads(s)
  }

  function Decode(s: string): Decoding {
    var data := DecodeBody(Body(s));
    if TrailingPads(s) == |s| || DecodedLength(s) < |data| then OutOfBounds
    else if DecodedLength(s) == |data| then Decoded(data)
    else Rejected
  }

  lemma {:induction false} DecodeBodyConcat(front: string, back: string)
    requires |front| % 4 == 0
    ensures DecodeBody(front + back) == DecodeBody(front) + DecodeBody(back)
    ensures |DecodeBody(front)| == |front| / 4 * 3
  {
    hide DecodeGroup;
    var all := front + back;
    if front == "" {
      assert all == back;
    } else {
      DecodeBodyConcat(front[4..], back);
      assert all[4..] == front[4..] + back && all[..4] == front[..4];
    }
  }

  lemma {:induction false} DecodeBodyLength(b: string)
    ensures |DecodeBody(b)| == BodyBytes(|b|)
  {
    if |b| >= 4 {
      DecodeBodyLength(b[4..]);
    }
  }

  /** A padded tail decodes to its bytes, although the padding looks up as 255. */
  lemma TailDecodes(tail: seq<byte>)
    requires |tail| == 1 || |tail| == 2
    ensures DecodeBody(Body(Standard(tail))) == tail
    ensures TrailingPads(Standard(tail)) == 3 - |tail|
  {
    hide Body, Standard, TrailingPads, DecodeBody;
    TailTextIsStandard(tail);
    TailTextShape(tail);
    TailShape(TailText(tail), |tail| + 1);
    TailBodyDecodes(tail);
  }

  lemma TailTextShape(tail: seq<byte>)
    requires |tail| == 1 || |tail| == 2
    ensures forall k | 0 <= k <= |tail| :: TailText(tail)[k] != '='
    ensures forall k | |tail| < k < 4 :: TailText(tail)[k] == '='
  {
    hide Symbol, A3ToA4, Lookup;
    var a4 := A3ToA4([tail[0], if |tail| == 2 then tail[1] else 0, 0]);
    LookupInvertsSymbol(a4[0]);
    LookupInvertsSymbol(a4[1]);
    LookupInvertsSymbol(a4[2]);
  }

  lemma TailBodyDecodes(tail: seq<byte>)
    requires |tail| == 1 || |tail| == 2
    ensures DecodeBody(TailText(tail)[..|tail| + 1]) == tail
  {
    hide Symbol, A3ToA4, DecodeGroup;
    var s := TailText(tail);
    var a4 := A3ToA4([tail[0], if |tail| == 2 then tail[1] else 0, 0]);
    if |tail| == 1 {
      assert s[..2] == [Symbol(a4[0]), Symbol(a4[1])];
      TailGroup1(tail[0]);
    } else {
      assert s[..3] == [Symbol(a4[0]), Symbol(a4[1]), Symbol(a4[2])];
      TailGroup2(tail[0], tail[1]);
    }
  }

  lemma TailGroup1(b0: byte)
    ensures var a4 := A3ToA4([b0, 0, 0]);
            DecodeGroup([Symbol(a4[0]), Symbol(a4[1])])[..1] == [b0]
  {
    hide Symbol;
    var a4 := A3ToA4([b0, 0, 0]);
    LookupInvertsSymbol(a4[0]);
    LookupInvertsSymbol(a4[1]);
    JoinNumbers(b0, 0, 0);
  }

  lemma TailGroup2(b0: byte, b1: byte)
    ensures var a4 := A3ToA4([b0, b1, 0]);
            DecodeGroup([Symbol(a4[0]), Symbol(a4[1]), Symbol(a4[2])])[..2] == [b0, b1]
  {
    hide Symbol;
    var a4 := A3ToA4([b0, b1, 0]);
    LookupInvertsSymbol(a4[0]);
    LookupInvertsSymbol(a4[1]);
    LookupInvertsSymbol(a4[2]);
    JoinNumbers(b0, b1, 0);
  }

  lemma TailShape(s: string, n: nat)
    requires |s| == 4 && 2 <= n <= 3
    requires forall k | 0 <= k < n :: s[k] != '='
    requires forall k | n <= k < 4 :: s[k] == '='
    ensures Body(s) == s[..n] && TrailingPads(s) == 4 - n
  {
    BodyConcat(s[..n], s[n..]);
    assert s == s[..n] + s[n..];
    assert Body(s[n..]) == "";
    var s3, s2 := s[..3], s[..2];
    assert s3[..2] == s2;
    assert TrailingPads(s) == 1 + TrailingPads(s3);
    assert TrailingPads(s3) == (if n == 3 then 0 else 1 + TrailingPads(s2));
    assert n == 2 ==> TrailingPads(s2) == 0;
  }

  lemma {:induction false} BodyConcat(front: string, back: string)
    requires forall k | 0 <= k < |front| :: front[k] != '='
    ensures Body(front + back) == front + Body(back)
  {
    if front == "" {
      assert front + back == back;
    } else {
      BodyConcat(front[1..], back);
      assert (front + back)[1..] == front[1..] + back;
    }
  }

  lemma {:induction false} TrailingPadsConcat(front: string, back: string)
    requires back != "" && (front == "" || front[|front| - 1] != '=')
    ensures TrailingPads(front + back) == TrailingPads(back)
  {
    var n := |back| - 1;
    if back[n] == '=' {
      assert (front + back)[..|front| + n] == front + back[..n];
      if n > 0 {
        TrailingPadsConcat(front, back[..n]);
      } else {
        assert front + back[..n] == front;
      }
    }
  }

  lemma QuantumDecodes(b0: byte, b1: byte, b2: byte)
    ensures DecodeGroup(Quantum(b0, b1, b2)) == [b0, b1, b2]
    ensures forall k | 0 <= k < 4 :: Quantum(b0, b1, b2)[k] != '='
  {
    hide Symbol;
    var a3 := [b0, b1, b2];
    var a4 := A3ToA4(a3);
    GroupIsQuantum(a3);
    LookupInvertsSymbol(a4[0]);
    LookupInvertsSymbol(a4[1]);
    LookupInvertsSymbol(a4[2]);
    LookupInvertsSymbol(a4[3]);
    JoinInvertsSplit(a3);
  }

  /** Text in front of which a full group is put decodes to the group and the rest. */
  lemma GroupThenRest(b0: byte, b1: byte, b2: byte, rest: string)
    requires rest == "" || rest[0] != '='
    ensures var q := Quantum(b0, b1, b2);
            && DecodeBody(Body(q + rest)) == [b0, b1, b2] + DecodeBody(Body(rest))
            && TrailingPads(q + rest) == TrailingPads(rest)
  {
    hide DecodeGroup, Quantum, Body, TrailingPads;
    var q := Quantum(b0, b1, b2);
    QuantumDecodes(b0, b1, b2);
    BodyConcat(q, rest);
    assert (q + Body(rest))[..4] == q && (q + Body(rest))[4..] == Body(rest);
    if rest == "" {
      assert q + rest == q;
      NoPads(q);
      NoPads(rest);
    } else {
      TrailingPadsConcat(q, rest);
    }
  }

  lemma NoPads(s: string)
    requires s == "" || s[|s| - 1] != '='
    ensures TrailingPads(s) == 0
  {}

  lemma StandardStart(data: seq<byte>)
    ensures Standard(data) == "" || Standard(data)[0] != '='
  {
    hide Symbol;
    if |data| == 1 || |data| == 2 {
      TailTextIsStandard(data);
      LookupInvertsSymbol(A3ToA4([data[0], if |data| == 2 then data[1] else 0, 0])[0]);
    } else if data != [] {
      QuantumDecodes(data[0], data[1], data[2]);
    }
  }

  lemma StandardGroup(data: seq<byte>)
    requires |data| >= 3
    ensures Standard(data) == Quantum(data[0], data[1], data[2]) + Standard(data[3..])
  {
    hide Quantum, Quantum1, Quantum2;
  }

  lemma EmptyDecodes()
    ensures DecodeBody(Body(Standard([]))) == [] && TrailingPads(Standard([])) == 0
  {}

  lemma PaddingStep(n: nat)
    ensures n >= 3 ==> Padding(n) == Padding(n - 3)
    ensures Padding(0) == 0 && Padding(1) == 2 && Padding(2) == 1
  {}

  lemma {:induction false} StandardDecodes(data: seq<byte>)
    ensures DecodeBody(Body(Standard(data))) == data
    ensures TrailingPads(Standard(data)) == Padding(|data|)
  {
    hide DecodeBody, Body, Standard, TrailingPads, Quantum, Padding;
    PaddingStep(|data|);
    if data == [] {
      EmptyDecodes();
    } else if |data| < 3 {
      TailDecodes(data);
    } else {
      var group, rest := [data[0], data[1], data[2]], data[3..];
      StandardDecodes(rest);
      StandardStart(rest);
      StandardGroup(data);
      GroupThenRest(data[0], data[1], data[2], Standard(rest));
      assert data == group + rest;
    }
  }

  /** Splitting what four sextets were joined to gives them back. */
  lemma SplitInvertsJoin(a4: seq<byte>)
    requires |a4| == 4 && forall k | 0 <= k < 4 :: a4[k] < 64
    ensures A3ToA4(A4ToA3(a4)) == a4
  {
    hide A3ToA4, A4ToA3;
    JoinTakesLowBits(a4);
    SextetsFit(a4[0], a4[1], a4[2], a4[3]);
    SplitOfJoined(A4ToA3(a4), a4[0], a4[1], a4[2], a4[3]);
  }

  lemma SextetsFit(x0: int, x1: int, x2: int, x3: int)
    requires 0 <= x0 < 64 && 0 <= x1 < 64 && 0 <= x2 < 64 && 0 <= x3 < 64
    ensures x1 % 64 == x1 && x2 % 64 == x2
    ensures (4 * x0 + x1 / 16) % 256 == 4 * x0 + x1 / 16
    ensures (64 * (x2 % 4) + x3) % 256 == 64 * (x2 % 4) + x3
  {}

  lemma SplitOfJoined(a3: seq<byte>, x0: int, x1: int, x2: int, x3: int)
    requires 0 <= x0 < 64 && 0 <= x1 < 64 && 0 <= x2 < 64 && 0 <= x3 < 64
    requires |a3| == 3 && a3[0] == 4 * x0 + x1 / 16
    requires a3[1] == 16 * (x1 % 16) + x2 / 4 && a3[2] == 64 * (x2 % 4) + x3
    ensures A3ToA4(a3) == [x0, x1, x2, x3]
  {
    SplitNumbers(x0, x1, x2, x3);
  }

  lemma SplitNumbers(x0: int, x1: int, x2: int, x3: int)
    requires 0 <= x0 < 64 && 0 <= x1 < 64 && 0 <= x2 < 64 && 0 <= x3 < 64
    ensures var b0, b1, b2 := 4 * x0 + x1 / 16, 16 * (x1 % 16) + x2 / 4, 64 * (x2 % 4) + x3;
            && 0 <= b0 < 256 && 0 <= b1 < 256 && 0 <= b2 < 256
            && b0 / 4 == x0 && b0 % 4 * 16 + b1 / 16 == x1
            && b1 % 16 * 4 + b2 / 64 == x2 && b2 % 64 == x3
  {
    var q1, r1, q2, r2 := x1 / 16, x1 % 16, x2 / 4, x2 % 4;
    assert (4 * x0 + q1) / 4 == x0 && (4 * x0 + q1) % 4 == q1;
    assert (16 * r1 + q2) / 16 == r1 && (16 * r1 + q2) % 16 == q2;
  }

  predicate IsSymbol(c: char) {
    c in ALPHABET
  }

  ghost predicate InAlphabet(s: string) {
    forall k | 0 <= k < |s| :: IsSymbol(s[k])
  }

  lemma SymbolLooksUp(c: char)
    requires IsSymbol(c)
    ensures Lookup(c) < 64 && Symbol(Lookup(c)) == c
  {
    hide Lookup, Symbol;
    LookupElsewhere(c);
    SymbolInvertsLookup(c);
  }

  lemma FullGroup(b: string)
    requires |b| == 4
    ensures DecodeGroup(b) == A4ToA3([Lookup(b[0]), Lookup(b[1]), Lookup(b[2]), Lookup(b[3])])
  {
    hide Lookup, A4ToA3;
  }

  lemma GroupReencodes(b: string)
    requires |b| == 4 && InAlphabet(b)
    ensures var a3 := DecodeGroup(b); Quantum(a3[0], a3[1], a3[2]) == b
  {
    hide Lookup, Symbol, Quantum, A3ToA4, A4ToA3, DecodeGroup, IsSymbol;
    SymbolLooksUp(b[0]);
    SymbolLooksUp(b[1]);
    SymbolLooksUp(b[2]);
    SymbolLooksUp(b[3]);
    var a4 := [Lookup(b[0]), Lookup(b[1]), Lookup(b[2]), Lookup(b[3])];
    FullGroup(b);
    SplitInvertsJoin(a4);
    GroupIsQuantum(A4ToA3(a4));
  }

  /** Encoding inverts decoding on every text of whole groups of the alphabet. */
  lemma {:induction false} EncodeInvertsDecode(s: string)
    requires InAlphabet(s) && |s| % 4 == 0
    ensures Standard(DecodeBody(s)) == s
  {
    if s != "" {
      assert InAlphabet(s[..4]) && InAlphabet(s[4..]);
      EncodeInvertsDecode(s[4..]);
      hide Standard, DecodeGroup, Quantum, InAlphabet;
      GroupReencodes(s[..4]);
      var group, rest := DecodeGroup(s[..4]), DecodeBody(s[4..]);
      var data := DecodeBody(s);
      assert data == group + rest && data[3..] == rest;
      StandardGroup(data);
      assert s == s[..4] + s[4..];
    }
  }

  /** Decoding inverts encoding on every non-empty byte string. */
  lemma DecodeInvertsEncode(data: seq<byte>)
    requires data != []
    ensures Decode(Standard(data)) == Decoded(data)
  {
    hide DecodeBody, Body, Standard, TrailingPads, Padding;
    StandardDecodes(data);
    StandardLength(data);
    PaddingBalances(|data|);
  }

  /** The reserved length of an encoded text, less its padding, is that of the data. */
  lemma PaddingBalances(n: nat)
    ensures 6 * ((n + 2) / 3 * 4) / 8 - Padding(n) == n
    ensures n > 0 ==> Padding(n) < (n + 2) / 3 * 4
  {
    var q, r := n / 3, n % 3;
    assert (n + 2) / 3 == if r == 0 then q else q + 1;
  }

  lemma EncodingIsInjective(a: seq<byte>, b: seq<byte>)
    requires Standard(a) == Standard(b)
    ensures a == b
  {
    StandardDecodes(a);
    StandardDecodes(b);
  }

  function Pads(n: nat): (s: string)
    ensures |s| == n && forall k | 0 <= k < n :: s[k] == '='
  {
    seq(n, _ => '=')
  }

  lemma {:induction false} PadsCounted(body: string, pads: nat)
    requires body != "" && body[|body| - 1] != '='
    ensures TrailingPads(body + Pads(pads)) == pads
  {
    var s := body + Pads(pads);
    if pads > 0 {
      PadsCounted(body, pads - 1);
      assert s[..|s| - 1] == body + Pads(pads - 1);
    }
  }

  /** The number of bytes that `n` characters decode to. */
  function BodyBytes(n: nat): nat {
    n / 4 * 3 + if n % 4 == 0 then 0 else n % 4 - 1
  }

  /**
    Exactly which texts are accepted, rejected, or make the decoder leave its
    buffers: any characters are looked up until the first padding character, and
    what counts then is whether their number goes with the length of the whole text
    and the padding at its end.
   */
  lemma AcceptedIff(s: string)
    ensures var n, reserved := BodyBytes(|Body(s)|), 6 * |s| / 8 - TrailingPads(s);
            && (Decode(s).Decoded? <==> TrailingPads(s) != |s| && reserved == n)
            && (Decode(s).Rejected? <==> TrailingPads(s) != |s| && reserved > n)
            && (Decode(s).OutOfBounds? <==> TrailingPads(s) == |s| || reserved < n)
  {
    DecodeBodyLength(Body(s));
  }

  /**
    Of texts with padding at the end only: those in whole groups without padding,
    or with a last group that its padding does not overfill.
   */
  lemma PaddedAcceptedIff(body: string, pads: nat)
    requires body != "" && forall k | 0 <= k < |body| :: body[k] != '='
    ensures Decode(body + Pads(pads)).Decoded? <==>
            if |body| % 4 == 0 then pads == 0 else |body| % 4 + pads <= 4
  {
    assert Body(Pads(pads)) == "" && body + "" == body;
    hide Decode, Body, TrailingPads;
    BodyConcat(body, Pads(pads));
    PadsCounted(body, pads);
    AcceptedIff(body + Pads(pads));
  }

  /** Characters behind the first padding character are never looked at, but may balance the length. */
  lemma AcceptedBehindPadding()
    ensures Decode("A=A=========") == Decoded([])
  {
    var s := "A=A=========";
    assert s == "A" + s[1..] && s == "A=A" + Pads(9);
    BodyConcat("A", s[1..]);
    PadsCounted("A=A", 9);
    DecodeBodyLength("A");
  }

  lemma DecodeNextGroup(b: string, at: nat)
    requires at % 4 == 0 && at + 4 <= |b|
    ensures DecodeBody(b[..at + 4]) == DecodeBody(b[..at]) + DecodeGroup(b[at..at + 4])
    ensures |DecodeBody(b[..at])| == at / 4 * 3
  {
    hide DecodeGroup;
    var group := b[at..at + 4];
    DecodeBodyConcat(b[..at], group);
    assert b[..at + 4] == b[..at] + group;
    assert group[..4] == group && DecodeBody(group[4..]) == [];
  }

  lemma DecodeTail(b: string, at: nat)
    requires at % 4 == 0 && at < |b| < at + 4
    ensures DecodeBody(b) == DecodeBody(b[..at]) + DecodeGroup(b[at..])[..|b| - at - 1]
  {
    hide DecodeGroup;
    DecodeBodyConcat(b[..at], b[at..]);
    assert b == b[..at] + b[at..];
  }

  lemma BodyEnd(input: string, pos: nat)
    requires pos <= |input| && forall k | 0 <= k < pos :: input[k] != '='
    requires pos < |input| ==> input[pos] == '='
    ensures Body(input) == input[..pos]
  {
    BodyConcat(input[..pos], input[pos..]);
    assert input == input[..pos] + input[pos..] && input[..pos] + "" == input[..pos];
  }

  /** Counts the padding from the back; without any other character it runs off the front. */
  method CountPads(input: string) returns (numEq: nat)
    ensures numEq == TrailingPads(input)
  {
    numEq := 0;
    assert input[..|input|] == input;
    while numEq < |input| && input[|input| - 1 - numEq] == '='
      invariant numEq <= |input| && TrailingPads(input) == numEq + TrailingPads(input[..|input| - numEq])
    {
      var rest := input[..|input| - numEq];
      assert rest[..|rest| - 1] == input[..|input| - numEq - 1];
      numEq := numEq + 1;
    }
  }

  /**
    Decodes `input` into a result of the reserved length.  Groups are looked up and
    joined as they fill; what is left at the end is completed with NUL.
   */
  method DecodeText(input: string) returns (r: Decoding)
    ensures r == Decode(input)
  {
    hide DecodeBody, Body, TrailingPads;
    var numEq := CountPads(input);
    var size := 6 * |input| / 8 - numEq;
    var data := DecodeCharacters(input);
    if numEq == |input| || size < |data| {
      return OutOfBounds;
    }
    r := if |data| == size then Decoded(data) else Rejected;
  }

  /** The loop over the characters in front of the padding, and the last group. */
  method DecodeCharacters(input: string) returns (data: seq<byte>)
    ensures data == DecodeBody(Body(input))
  {
    hide DecodeBody, DecodeGroup, Body;
    data := [];
    var a4: string := "";
    var pos := 0;
    ghost var base := 0;
    EmptyBody();
    while pos < |input| && input[pos] != '='
      invariant base % 4 == 0 && |a4| < 4 && base + |a4| == pos <= |input|
      invariant a4 == input[base..pos] && data == DecodeBody(input[..base])
      invariant forall k | 0 <= k < pos :: input[k] != '='
    {
      a4 := a4 + [input[pos]];
      pos := pos + 1;
      if |a4| == 4 {
        DecodeNextGroup(input, base);
        assert a4 == input[base..base + 4];
        data := data + DecodeGroup(a4);
        a4, base := "", pos;
      }
    }
    BodyEnd(input, pos);
    if |a4| > 0 {
      DecodeTail(input[..pos], base);
      assert input[..pos][..base] == input[..base];
      data := data + DecodeGroup(a4)[..|a4| - 1];
    }
  }

  lemma EmptyBody()
    ensures DecodeBody("") == []
  {}
}
