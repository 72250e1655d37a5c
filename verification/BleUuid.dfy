/**
  Bluetooth UUIDs in their 16, 32 and 128 bit representations: comparing, widening,
  printing and parsing.  `Uuid` is the abstract value; UuidObject holds the in-place
  code that works on the native storage.
 */
module BleUuid {
  import opened Sequences

  type Word16 = x: int | 0 <= x < 0x1_0000
  type Word32 = x: int | 0 <= x < 0x1_0000_0000

  /** The bytes of a long UUID are stored least significant first. */
  datatype Uuid =
    | Unset
    | Uuid16(short: Word16)
    | Uuid32(medium: Word32)
    | Uuid128(bytes: seq<byte>)

  predicate WellFormed(u: Uuid) {
    u.Uuid128? ==> |u.bytes| == 16
  }

  predicate IsSet(u: Uuid) {
    !u.Unset? && WellFormed(u)
  }

  /** The fixed low 96 bits of the Bluetooth base UUID, least significant byte first. */
  const BASE: seq<byte> := [0xfb, 0x34, 0x9b, 0x5f, 0x80, 0x00, 0x00, 0x80, 0x00, 0x10, 0x00, 0x00]

  /** The same bits as text, the way short UUIDs are completed when printed. */
  const TAIL: string := "-0000-1000-8000-00805f9b34fb"

  /** The four bytes of a value, least significant first. */
  function LittleEndian(v: Word32): (bytes: seq<byte>)
    ensures |bytes| == 4
  {
    var q1 := v / 256;
    var q2 := q1 / 256;
    [v % 256, q1 % 256, q2 % 256, q2 / 256]
  }

  /** Reads a stored value back. */
  function Stored(b0: int, b1: int, b2: int, b3: int): int {
    b0 + 256 * b1 + 65536 * b2 + 16777216 * b3
  }

  function Value32(u: Uuid): Word32
    requires u.Uuid16? || u.Uuid32?
  {
    if u.Uuid16? then u.short else u.medium
  }

  /** Widening puts a short UUID on top of the base UUID. */
  function To128(u: Uuid): Uuid {
    if u.Unset? || u.Uuid128? then u else Uuid128(BASE + LittleEndian(Value32(u)))
  }

  function Digit(n: nat): char
    requires n < 16
  {
    "0123456789abcdef"[n]
  }

  function HexByte(b: byte): (s: string)
    ensures |s| == 2
  {
    [Digit(b / 16), Digit(b % 16)]
  }

  /** Bytes print from the most significant down; a dash precedes the fifth, seventh, ninth and eleventh byte. */
  predicate DashBefore(k: nat) {
    k == 4 || k == 6 || k == 8 || k == 10
  }

  /** The first `k` bytes, two digits each, with the dashes between them. */
  function PrintUpTo(bytes: seq<byte>, k: nat): string
    requires |bytes| == 16 && k <= 16
  {
    if k == 0 then ""
    else PrintUpTo(bytes, k - 1) + (if DashBefore(k - 1) then "-" else "") + HexByte(bytes[16 - k])
  }

  /** `v` printed with exactly eight digits. */
  function Hex8(v: Word32): string {
    var bytes := LittleEndian(v);
    HexByte(bytes[3]) + HexByte(bytes[2]) + HexByte(bytes[1]) + HexByte(bytes[0])
  }

  function ToString(u: Uuid): string
    requires WellFormed(u)
  {
    match u
    case Unset => "<NULL>"
    case Uuid128(bytes) => PrintUpTo(bytes, 16)
    case _ => Hex8(Value32(u)) + TAIL
  }

  /** The comparison as the source performs it, by representation. */
  predicate Equals(u: Uuid, v: Uuid)
    requires WellFormed(u) && WellFormed(v)
  {
    if u.Unset? || v.Unset? then false
    else if u.Uuid16? && v.Uuid16? then u.short == v.short
    else if u.Uuid32? && v.Uuid32? then u.medium == v.medium
    else if u.Uuid128? && v.Uuid128? then u.bytes == v.bytes
    else ToString(u) == ToString(v)
  }

  // ---------------------------------------------------------------------------
  // Where each byte is printed
  // ---------------------------------------------------------------------------

  /** The number of characters before byte `15 - k` and the dash it may have. */
  function Start(k: nat): nat {
    2 * k + (if k > 4 then 1 else 0) + (if k > 6 then 1 else 0)
          + (if k > 8 then 1 else 0) + (if k > 10 then 1 else 0)
  }

  /** The position of the first digit of byte `15 - k`. */
  function Column(k: nat): nat {
    Start(k) + if DashBefore(k) then 1 else 0
  }

  /** `s` shows byte `15 - j` in its column, behind its dash if it has one. */
  predicate ShowsByte(s: string, bytes: seq<byte>, j: nat)
    requires |bytes| == 16 && j < 16
  {
    && Column(j) + 1 < |s|
    && s[Column(j)] == Digit(bytes[15 - j] / 16)
    && s[Column(j) + 1] == Digit(bytes[15 - j] % 16)
    && (DashBefore(j) ==> s[Start(j)] == '-')
  }

  ghost predicate Shows(s: string, bytes: seq<byte>) {
    |bytes| == 16 && |s| == 36 && forall j: nat | j < 16 :: ShowsByte(s, bytes, j)
  }

  lemma {:induction false} PrintShowsUpTo(bytes: seq<byte>, k: nat)
    requires |bytes| == 16 && k <= 16
    ensures |PrintUpTo(bytes, k)| == Start(k)
    ensures forall j: nat | j < k :: ShowsByte(PrintUpTo(bytes, k), bytes, j)
  {
    if k > 0 {
      PrintShowsUpTo(bytes, k - 1);
      var s, init := PrintUpTo(bytes, k), PrintUpTo(bytes, k - 1);
      assert s[..|init|] == init;
      hide PrintUpTo, Digit;
      forall j: nat | j < k ensures ShowsByte(s, bytes, j) {
        if j < k - 1 {
          assert ShowsByte(init, bytes, j);
        }
      }
    }
  }

  lemma PrintShows(bytes: seq<byte>)
    requires |bytes| == 16
    ensures Shows(PrintUpTo(bytes, 16), bytes)
  {
    PrintShowsUpTo(bytes, 16);
  }

  /** Every column of the printed form holds a digit of some byte or a dash. */
  lemma ByteAt(i: nat) returns (k: nat)
    requires i < 36
    ensures k < 16
    ensures i == Column(k) || i == Column(k) + 1 || (DashBefore(k) && i == Start(k))
  {
    k := if i < 8 then i / 2 else if i < 13 then (i - 1) / 2 else if i < 18 then (i - 2) / 2
         else if i < 23 then (i - 3) / 2 else (i - 4) / 2;
    if i == 8 || i == 13 || i == 18 || i == 23 {
      k := if i == 8 then 4 else if i == 13 then 6 else if i == 18 then 8 else 10;
    }
  }

  /** What a string shows determines it. */
  lemma ShownOnce(s: string, t: string, bytes: seq<byte>)
    requires Shows(s, bytes) && Shows(t, bytes)
    ensures s == t
  {
    forall i: nat | i < 36 ensures s[i] == t[i] {
      var k := ByteAt(i);
      assert ShowsByte(s, bytes, k) && ShowsByte(t, bytes, k);
    }
  }

  /** Two byte strings shown by the same text are equal. */
  lemma ShowsInjective(s: string, bytes: seq<byte>, others: seq<byte>)
    requires Shows(s, bytes) && Shows(s, others)
    ensures bytes == others
  {
    forall i | 0 <= i < 16 ensures bytes[i] == others[i] {
      var j := 15 - i;
      assert ShowsByte(s, bytes, j) && ShowsByte(s, others, j);
      DigitInjective(bytes[i] / 16, others[i] / 16);
      DigitInjective(bytes[i] % 16, others[i] % 16);
    }
  }

  lemma DigitInjective(m: nat, n: nat)
    requires m < 16 && n < 16 && Digit(m) == Digit(n)
    ensures m == n
  {}

  // ---------------------------------------------------------------------------
  // Short forms print as their widened form
  // ---------------------------------------------------------------------------

  lemma ShortShows(u: Uuid)
    requires u.Uuid16? || u.Uuid32?
    ensures Shows(ToString(u), To128(u).bytes)
  {
    var s, bytes := ToString(u), To128(u).bytes;
    assert |s| == 36 && s[..8] == Hex8(Value32(u)) && s[8..] == TAIL;
    assert bytes[12..] == LittleEndian(Value32(u)) && bytes[..12] == BASE;
    forall j: nat | j < 16 ensures ShowsByte(s, bytes, j) {
      if j < 4 {
        HeadShows(s, bytes, Value32(u), j);
      } else {
        TailShows(j);
        assert bytes[15 - j] == bytes[..12][15 - j];
        assert s[Column(j)] == s[8..][Column(j) - 8] && s[Column(j) + 1] == s[8..][Column(j) - 7];
        assert DashBefore(j) ==> s[Start(j)] == s[8..][Start(j) - 8];
      }
    }
  }

  lemma HeadShows(s: string, bytes: seq<byte>, v: Word32, j: nat)
    requires |s| == 36 && s[..8] == Hex8(v) && |bytes| == 16 && bytes[12..] == LittleEndian(v) && j < 4
    ensures ShowsByte(s, bytes, j)
  {
    hide LittleEndian, Digit;
    assert bytes[15 - j] == LittleEndian(v)[3 - j];
    assert s[2 * j] == Hex8(v)[2 * j] && s[2 * j + 1] == Hex8(v)[2 * j + 1];
  }

  lemma TailShows(j: nat)
    requires 4 <= j < 16
    ensures TAIL[Column(j) - 8] == Digit(BASE[15 - j] / 16)
    ensures TAIL[Column(j) - 7] == Digit(BASE[15 - j] % 16)
    ensures DashBefore(j) ==> TAIL[Start(j) - 8] == '-'
  {
    if j < 10 {
      TailShowsFront(j);
    } else {
      TailShowsBack(j);
    }
  }

  lemma TailShowsFront(j: nat)
    requires 4 <= j < 10
    ensures TAIL[Column(j) - 8] == Digit(BASE[15 - j] / 16)
    ensures TAIL[Column(j) - 7] == Digit(BASE[15 - j] % 16)
    ensures DashBefore(j) ==> TAIL[Start(j) - 8] == '-'
  {}

  lemma TailShowsBack(j: nat)
    requires 10 <= j < 16
    ensures TAIL[Column(j) - 8] == Digit(BASE[15 - j] / 16)
    ensures TAIL[Column(j) - 7] == Digit(BASE[15 - j] % 16)
    ensures DashBefore(j) ==> TAIL[Start(j) - 8] == '-'
  {}

  /** A UUID and its 128 bit form print alike. */
  lemma WideningKeepsText(u: Uuid)
    requires WellFormed(u)
    ensures WellFormed(To128(u)) && ToString(To128(u)) == ToString(u)
  {
    if u.Uuid16? || u.Uuid32? {
      ShortShows(u);
      PrintShows(To128(u).bytes);
      ShownOnce(ToString(u), ToString(To128(u)), To128(u).bytes);
    }
  }

  // ---------------------------------------------------------------------------
  // What the text says
  // ---------------------------------------------------------------------------

  /** The value of a lower case hexadecimal digit. */
  function DigitValue(c: char): Option<nat> {
    if '0' <= c <= '9' then Some(c as nat - '0' as nat)
    else if 'a' <= c <= 'f' then Some(c as nat - 'a' as nat + 10)
    else None
  }

  /** A text of lower case hexadecimal digits read as a number, with dashes passed over. */
  function HexNumber(s: string): Option<nat> {
    if s == "" then Some(0)
    else
      var c, front := s[|s| - 1], HexNumber(s[..|s| - 1]);
      if front.None? || c == '-' then front
      else if DigitValue(c).None? then None
      else Some(16 * front.value + DigitValue(c).value)
  }

  /** The `k` most significant bytes as a number. */
  function TopBytes(bytes: seq<byte>, k: nat): nat
    requires |bytes| == 16 && k <= 16
  {
    if k == 0 then 0 else 256 * TopBytes(bytes, k - 1) + bytes[16 - k]
  }

  lemma DigitShowsValue(n: nat)
    requires n < 16
    ensures DigitValue(Digit(n)) == Some(n)
  {}

  lemma DigitAppended(s: string, n: nat)
    requires n < 16 && HexNumber(s).Some?
    ensures HexNumber(s + [Digit(n)]) == Some(16 * HexNumber(s).value + n)
  {
    DigitShowsValue(n);
    hide Digit;
    assert (s + [Digit(n)])[..|s|] == s;
  }

  lemma DashAppended(s: string)
    ensures HexNumber(s + "-") == HexNumber(s)
  {
    assert (s + "-")[..|s|] == s;
  }

  lemma HexByteAppended(s: string, b: byte)
    requires HexNumber(s).Some?
    ensures HexNumber(s + HexByte(b)) == Some(256 * HexNumber(s).value + b)
  {
    hide HexNumber, Digit;
    DigitAppended(s, b / 16);
    DigitAppended(s + [Digit(b / 16)], b % 16);
    assert s + HexByte(b) == s + [Digit(b / 16)] + [Digit(b % 16)];
  }

  lemma DashedByteAppended(s: string, dashed: bool, b: byte)
    requires HexNumber(s).Some?
    ensures HexNumber(s + (if dashed then "-" else "") + HexByte(b)) == Some(256 * HexNumber(s).value + b)
  {
    hide HexNumber, HexByte;
    if dashed {
      DashAppended(s);
      HexByteAppended(s + "-", b);
    } else {
      assert s + "" == s;
      HexByteAppended(s, b);
    }
  }

  lemma {:induction false} PrintedNumber(bytes: seq<byte>, k: nat)
    requires |bytes| == 16 && k <= 16
    ensures HexNumber(PrintUpTo(bytes, k)) == Some(TopBytes(bytes, k))
  {
    hide HexNumber, HexByte, DashBefore;
    if k == 0 {
      HexNumberEmpty();
    } else {
      PrintedNumber(bytes, k - 1);
      DashedByteAppended(PrintUpTo(bytes, k - 1), DashBefore(k - 1), bytes[16 - k]);
    }
  }

  lemma ShortNumber(v: Word32)
    ensures |Hex8(v)| == 8 && HexNumber(Hex8(v)) == Some(v)
  {
    var bytes := LittleEndian(v);
    hide HexByte, HexNumber;
    HexNumberEmpty();
    HexByteAppended("", bytes[3]);
    assert "" + HexByte(bytes[3]) == HexByte(bytes[3]);
    HexByteAppended(HexByte(bytes[3]), bytes[2]);
    HexByteAppended(HexByte(bytes[3]) + HexByte(bytes[2]), bytes[1]);
    HexByteAppended(HexByte(bytes[3]) + HexByte(bytes[2]) + HexByte(bytes[1]), bytes[0]);
    var q1 := v / 256;
    var q2 := q1 / 256;
    assert v == 256 * (256 * q2 + q1 % 256) + v % 256;
  }

  lemma HexNumberEmpty()
    ensures HexNumber("") == Some(0)
  {}

  /**
    The text of any set UUID consists of lower case hexadecimal digits, with dashes
    in the four places of the standard layout and nowhere else, and reads as the 128
    bit value.  Of a short UUID the first eight digits are its own value, and the
    rest is that of the Bluetooth base UUID.
   */
  lemma TextReadsAsValue(u: Uuid)
    requires IsSet(u)
    ensures To128(u).Uuid128? && |To128(u).bytes| == 16 && |ToString(u)| == 36
    ensures HexNumber(ToString(u)) == Some(TopBytes(To128(u).bytes, 16))
    ensures forall i | 0 <= i < 36 :: ToString(u)[i] == '-' <==> i == 8 || i == 13 || i == 18 || i == 23
    ensures u.Uuid16? || u.Uuid32? ==>
      && HexNumber(ToString(u)[..8]) == Some(if u.Uuid16? then u.short else u.medium)
      && ToString(u)[8..] == "-0000-1000-8000-00805f9b34fb"
  {
    hide PrintUpTo, HexNumber, TopBytes, Hex8, LittleEndian;
    WideningKeepsText(u);
    var bytes := To128(u).bytes;
    PrintedNumber(bytes, 16);
    PrintShows(bytes);
    DashesShown(ToString(u), bytes);
    if !u.Uuid128? {
      ShortNumber(Value32(u));
    }
  }

  lemma DashesShown(s: string, bytes: seq<byte>)
    requires Shows(s, bytes)
    ensures forall i | 0 <= i < 36 :: s[i] == '-' <==> i == 8 || i == 13 || i == 18 || i == 23
  {
    forall i: nat | i < 36 ensures s[i] == '-' <==> i == 8 || i == 13 || i == 18 || i == 23 {
      var k := ByteAt(i);
      assert ShowsByte(s, bytes, k);
      DigitShowsValue(bytes[15 - k] / 16);
      DigitShowsValue(bytes[15 - k] % 16);
    }
  }

  lemma TextIsInjective(u: Uuid, v: Uuid)
    requires IsSet(u) && IsSet(v)
    ensures ToString(u) == ToString(v) <==> To128(u) == To128(v)
  {
    WideningKeepsText(u);
    WideningKeepsText(v);
    PrintShows(To128(u).bytes);
    PrintShows(To128(v).bytes);
    hide PrintUpTo, Shows;
    if ToString(u) == ToString(v) {
      ShowsInjective(ToString(u), To128(u).bytes, To128(v).bytes);
    }
  }

  lemma LittleEndianInjective(v: Word32, w: Word32)
    requires LittleEndian(v) == LittleEndian(w)
    ensures v == w
  {
    var b, c := LittleEndian(v), LittleEndian(w);
    assert b[0] == c[0] && b[1] == c[1] && b[2] == c[2] && b[3] == c[3];
  }

  /**
    The comparison, which treats every pair of representations differently, is
    equality of the printed forms, and equality of the 128 bit forms.
   */
  lemma EqualsIsSameText(u: Uuid, v: Uuid)
    requires IsSet(u) && IsSet(v)
    ensures Equals(u, v) <==> ToString(u) == ToString(v)
    ensures Equals(u, v) <==> To128(u) == To128(v)
  {
    hide LittleEndian, PrintUpTo, Hex8, Digit;
    TextIsInjective(u, v);
    if To128(u) == To128(v) && !u.Uuid128? && !v.Uuid128? {
      assert LittleEndian(Value32(u)) == To128(u).bytes[12..] == LittleEndian(Value32(v));
      LittleEndianInjective(Value32(u), Value32(v));
    }
  }

  /** Hence an equivalence across all representations, which widening respects. */
  lemma EqualsIsEquivalence(u: Uuid, v: Uuid, w: Uuid)
    requires IsSet(u) && IsSet(v) && IsSet(w)
    ensures Equals(u, u)
    ensures Equals(u, v) <==> Equals(v, u)
    ensures Equals(u, v) && Equals(v, w) ==> Equals(u, w)
    ensures IsSet(To128(u)) && Equals(To128(u), u)
    ensures Equals(u, v) <==> Equals(To128(u), v)
  {
    WideningKeepsText(u);
    EqualsIsSameText(u, u);
    EqualsIsSameText(u, v);
    EqualsIsSameText(v, u);
    EqualsIsSameText(v, w);
    EqualsIsSameText(u, w);
    EqualsIsSameText(To128(u), u);
    EqualsIsSameText(To128(u), v);
  }

  // ---------------------------------------------------------------------------
  // Parsing
  // ---------------------------------------------------------------------------

  /** How the parser reads a digit: letters are shifted down next to the figures. */
  function Nibble(c: byte): (n: nat)
    ensures n < 16
  {
    (if c > 57 then c - 7 else c) % 16
  }

  predicate IsHex(c: byte) {
    48 <= c <= 57 || 65 <= c <= 70 || 97 <= c <= 102
  }

  /** The value of a hexadecimal digit, upper or lower case. */
  function HexValue(c: byte): nat
    requires IsHex(c)
  {
    if c <= 57 then c - 48 else if c <= 70 then c - 55 else c - 87
  }

  /** A string of hexadecimal digits read as a number, most significant digit first. */
  function Positional(s: seq<byte>): nat
    requires forall i | 0 <= i < |s| :: IsHex(s[i])
  {
    if s == [] then 0 else 16 * Positional(s[..|s| - 1]) + HexValue(s[|s| - 1])
  }

  lemma NibbleIsHexValue(c: byte)
    requires IsHex(c)
    ensures Nibble(c) == HexValue(c)
  {}

  /** Any other character counts by its low four bits, and above '9' nine more. */
  lemma NibbleOfAny(c: byte)
    ensures Nibble(c) == (if c <= 57 then c % 16 else (c as int + 9) % 16)
  {}

  function PairValue(high: byte, low: byte): byte {
    Nibble(high) * 16 + Nibble(low)
  }

  /** What the parser makes of 4 or 8 digits: their pairs, most significant first. */
  function PairsValue(s: seq<byte>): (v: Word32)
    requires |s| == 4 || |s| == 8
    ensures |s| == 4 ==> v < 0x1_0000
  {
    var high := PairValue(s[0], s[1]) * 256 + PairValue(s[2], s[3]);
    if |s| == 4 then high
    else high * 65536 + PairValue(s[4], s[5]) * 256 + PairValue(s[6], s[7])
  }

  lemma PositionalPair(s: seq<byte>, n: nat)
    requires n + 2 <= |s| && forall i | 0 <= i < |s| :: IsHex(s[i])
    ensures Positional(s[..n + 2]) == 256 * Positional(s[..n]) + PairValue(s[n], s[n + 1])
  {
    assert s[..n + 2][..n + 1] == s[..n + 1] && s[..n + 1][..n] == s[..n];
    NibbleIsHexValue(s[n]);
    NibbleIsHexValue(s[n + 1]);
  }

  /** On hexadecimal digits of either case, that is the number they denote. */
  lemma PairsAreThePositionalValue(s: seq<byte>)
    requires |s| == 4 || |s| == 8
    requires forall i | 0 <= i < |s| :: IsHex(s[i])
    ensures PairsValue(s) == Positional(s)
  {
    hide PairValue, Positional, IsHex;
    assert s[..|s|] == s;
    PositionalEmpty(s[..0]);
    PositionalPair(s, 0);
    PositionalPair(s, 2);
    if |s| == 8 {
      PositionalPair(s, 4);
      PositionalPair(s, 6);
    }
  }

  lemma PositionalEmpty(s: seq<byte>)
    requires s == []
    ensures Positional(s) == 0
  {}

  /** The other case of a letter digit. */
  function FlipCase(c: byte): byte {
    if 65 <= c <= 70 then c + 32 else if 97 <= c <= 102 then c - 32 else c
  }

  /** Neither branch of the parser distinguishes upper from lower case digits. */
  lemma ParsingIgnoresCase(high: byte, low: byte)
    requires IsHex(high) && IsHex(low)
    ensures IsHex(FlipCase(high)) && HexValue(FlipCase(high)) == HexValue(high)
    ensures PairValue(FlipCase(high), low) == PairValue(high, low) == PairValue(high, FlipCase(low))
    ensures PairValue(high, low) == 16 * HexValue(high) + HexValue(low)
  {
    NibbleIsHexValue(high);
    NibbleIsHexValue(low);
    NibbleIsHexValue(FlipCase(high));
    NibbleIsHexValue(FlipCase(low));
  }

  /** The parser's view of text: one byte per character. */
  function Ascii(s: string): (bytes: seq<byte>)
    requires forall i | 0 <= i < |s| :: s[i] as int < 256
    ensures |bytes| == |s|
  {
    seq(|s|, i requires 0 <= i < |s| => s[i] as int)
  }

  /** A character of a C string, whose end is marked by a zero. */
  function CharAt(s: seq<byte>, i: nat): byte {
    if i < |s| then s[i] else 0
  }

  /**
    Where the loop over a 36 character string stands before its round number `k`.
    A round skips a dash if it starts on one, and then reads two characters.
   */
  function Head(s: seq<byte>, k: nat): (i: nat)
    requires |s| == 36
    ensures i <= 38
  {
    if k == 0 then 0
    else
      var h := Head(s, k - 1);
      if h >= 36 then h else DigitsAt(s, h) + 2
  }

  /** The place of the digits in a round that starts at `h`. */
  function DigitsAt(s: seq<byte>, h: nat): (i: nat)
    requires h < |s|
    ensures h <= i <= h + 1
  {
    if s[h] == 45 then h + 1 else h
  }

  /** The dashes skipped in the first `k` rounds. */
  function Skipped(s: seq<byte>, k: nat): nat
    requires |s| == 36
  {
    if k == 0 then 0
    else
      var h := Head(s, k - 1);
      Skipped(s, k - 1) + if h < 36 && s[h] == 45 then 1 else 0
  }

  /** The byte that round `k` reads. */
  function RoundByte(s: seq<byte>, k: nat): byte
    requires |s| == 36 && Head(s, k) < 36
  {
    var at := DigitsAt(s, Head(s, k));
    PairValue(CharAt(s, at), CharAt(s, at + 1))
  }

  /** A round, if it takes place, reads nothing behind the mark of the end. */
  predicate ReadsInside(s: seq<byte>, k: nat)
    requires |s| == 36
  {
    Head(s, k) < 36 ==> DigitsAt(s, Head(s, k)) < 36
  }

  /** What parsing a 36 character string yields; bytes without a round of the loop stay as they were. */
  ghost predicate Parses36(s: seq<byte>, u: Uuid)
    requires |s| == 36
  {
    && u.Uuid128? && |u.bytes| == 16
    && forall k: nat | k < 16 && Head(s, k) < 36 :: u.bytes[15 - k] == RoundByte(s, k)
  }

  /** The loop has ended after 16 rounds, and no round reads behind the mark of the end. */
  ghost predicate StaysInside(s: seq<byte>)
    requires |s| == 36
  {
    && Head(s, 16) >= 36
    && forall k: nat | k < 16 :: ReadsInside(s, k)
  }

  lemma {:induction false} HeadCountsDashes(s: seq<byte>, k: nat)
    requires |s| == 36
    ensures Head(s, k) <= 2 * k + Skipped(s, k)
    ensures Head(s, k) < 36 ==> Head(s, k) == 2 * k + Skipped(s, k)
  {
    if k > 0 {
      HeadCountsDashes(s, k - 1);
    }
  }

  /** The last character is a dash, and a round starts on it. */
  ghost predicate SkipsLast(s: seq<byte>)
    requires |s| == 36
  {
    exists k: nat :: k < 16 && Head(s, k) == 35 && s[35] == 45
  }

  /**
    The parser stays inside its storage and the string exactly if it meets at least
    four dashes at the heads of its rounds, and not one of them as the last character.
   */
  lemma StaysInsideIff(s: seq<byte>)
    requires |s| == 36
    ensures StaysInside(s) <==> Skipped(s, 16) >= 4 && !SkipsLast(s)
  {
    HeadCountsDashes(s, 16);
    forall k: nat | k < 16 && !ReadsInside(s, k) ensures Head(s, k) == 35 && s[35] == 45 {}
    if SkipsLast(s) {
      var k: nat :| k < 16 && Head(s, k) == 35 && s[35] == 45;
      assert !ReadsInside(s, k);
    }
  }

  lemma {:induction false} HeadAtEnd(s: seq<byte>, n: nat, k: nat)
    requires |s| == 36 && n <= k && Head(s, n) >= 36
    ensures Head(s, k) == Head(s, n)
    decreases k
  {
    if n < k {
      HeadAtEnd(s, n, k - 1);
    }
  }

  /** The dashes, and nothing else, are where the standard layout has them. */
  ghost predicate Dashed(s: seq<byte>) {
    && |s| == 36
    && forall k: nat | k < 16 :: s[Column(k)] != 45 && (DashBefore(k) ==> s[Start(k)] == 45)
  }

  /** In the standard layout every round finds its byte in its column. */
  lemma {:induction false} DashedHeads(s: seq<byte>, k: nat)
    requires Dashed(s) && k <= 16
    ensures Head(s, k) == Start(k)
    ensures k < 16 ==> DigitsAt(s, Head(s, k)) == Column(k)
  {
    if k > 0 {
      DashedHeads(s, k - 1);
    }
    assert k < 16 ==> s[Column(k)] != 45 && (DashBefore(k) ==> s[Start(k)] == 45);
  }

  lemma DashedStaysInside(s: seq<byte>)
    requires Dashed(s)
    ensures StaysInside(s)
  {
    hide Head;
    DashedHeads(s, 16);
    forall k: nat | k < 16 ensures ReadsInside(s, k) {
      DashedHeads(s, k);
    }
  }

  /** Another layout, with a dash behind each of the first four bytes, does as well. */
  lemma OtherLayout(s: seq<byte>)
    requires |s| == 36 && s[2] == s[5] == s[8] == s[11] == 45
    requires forall i | 0 <= i < 36 && i !in {2, 5, 8, 11} :: s[i] != 45
    ensures StaysInside(s) && !Dashed(s)
  {
    OtherHeads(s, 16);
    forall k: nat | k < 16 ensures ReadsInside(s, k) {
      OtherHeads(s, k);
    }
    assert Column(1) == 2;
  }

  lemma {:induction false} OtherHeads(s: seq<byte>, k: nat)
    requires |s| == 36 && s[2] == s[5] == s[8] == s[11] == 45
    requires forall i | 0 <= i < 36 && i !in {2, 5, 8, 11} :: s[i] != 45
    ensures Head(s, k) == if k == 0 then 0 else if k <= 4 then 3 * k - 1 else if k <= 16 then 2 * k + 4 else 36
  {
    if k > 0 {
      OtherHeads(s, k - 1);
    }
  }

  lemma DigitReads(n: nat)
    requires n < 16
    ensures Digit(n) as int < 256 && Digit(n) != '-' && Nibble(Digit(n) as int) == n
  {}

  /** Every byte the text shows is what the parser reads in its place. */
  lemma ShownBytesRead(s: string, bytes: seq<byte>)
    requires Shows(s, bytes)
    ensures forall i | 0 <= i < 36 :: s[i] as int < 256
    ensures Dashed(Ascii(s))
    ensures forall k: nat | k < 16 :: PairValue(Ascii(s)[Column(k)], Ascii(s)[Column(k) + 1]) == bytes[15 - k]
  {
    forall i: nat | i < 36 ensures s[i] as int < 256 {
      var k := ByteAt(i);
      assert ShowsByte(s, bytes, k);
      DigitReads(bytes[15 - k] / 16);
      DigitReads(bytes[15 - k] % 16);
    }
    forall k: nat | k < 16
      ensures PairValue(Ascii(s)[Column(k)], Ascii(s)[Column(k) + 1]) == bytes[15 - k]
      ensures Ascii(s)[Column(k)] != 45 && (DashBefore(k) ==> Ascii(s)[Start(k)] == 45)
    {
      assert ShowsByte(s, bytes, k);
      DigitReads(bytes[15 - k] / 16);
      DigitReads(bytes[15 - k] % 16);
    }
  }

  /**
    Round trip: the printed form of any set UUID is accepted by the parser, and
    whatever the parser makes of it equals the original.
   */
  lemma ParseInvertsPrint(u: Uuid, parsed: Uuid)
    requires IsSet(u)
    ensures |ToString(u)| == 36 && forall i | 0 <= i < 36 :: ToString(u)[i] as int < 256
    ensures StaysInside(Ascii(ToString(u)))
    ensures Parses36(Ascii(ToString(u)), parsed) ==> parsed == To128(u) && Equals(parsed, u)
  {
    hide PrintUpTo, Shows, Dashed, Parses36, StaysInside, To128, ToString, LittleEndian;
    var s, wide := ToString(u), To128(u);
    WideningIsLong(u);
    WideningKeepsText(u);
    PrintedShows(wide);
    ShownBytesRead(s, wide.bytes);
    DashedStaysInside(Ascii(s));
    if Parses36(Ascii(s), parsed) {
      ParsedBytes(Ascii(s), wide, parsed);
      EqualsIsSameText(parsed, u);
      WideningIsLong(wide);
    }
  }

  lemma WideningIsLong(u: Uuid)
    requires IsSet(u)
    ensures To128(u).Uuid128? && WellFormed(To128(u)) && To128(To128(u)) == To128(u)
  {}

  lemma PrintedShows(u: Uuid)
    requires u.Uuid128? && WellFormed(u)
    ensures Shows(ToString(u), u.bytes)
  {
    PrintShows(u.bytes);
  }

  lemma ParsedBytes(s: seq<byte>, u: Uuid, parsed: Uuid)
    requires Dashed(s) && u.Uuid128? && |u.bytes| == 16 && Parses36(s, parsed)
    requires forall k: nat | k < 16 :: PairValue(s[Column(k)], s[Column(k) + 1]) == u.bytes[15 - k]
    ensures parsed == u
  {
    forall i | 0 <= i < 16 ensures parsed.bytes[i] == u.bytes[i] {
      var k: nat := 15 - i;
      DashedHeads(s, k);
      assert parsed.bytes[15 - k] == PairValue(s[Column(k)], s[Column(k) + 1]);
    }
  }
}
