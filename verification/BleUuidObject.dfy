/**
  The UUID object: native storage that is filled and widened in place.

  The storage is a union, so the short forms share their bytes with the long one;
  a 16 or 32 bit value lies in the first bytes, least significant first.
 */
module BleUuidObject {
  import opened Sequences
  import opened BleUuid

  const LEN_16 := 2
  const LEN_32 := 4
  const LEN_128 := 16

  function Pow2(n: nat): nat {
    if n == 0 then 1 else 2 * Pow2(n - 1)
  }

  lemma Pow2Values()
    ensures Pow2(0) == 1 && Pow2(8) == 256 && Pow2(16) == 65536 && Pow2(24) == 16777216
  {
    assert Pow2(4) == 16;
    assert Pow2(12) == 4096;
    assert Pow2(20) == 1048576;
  }

  /** The sum of the first `i` digits' pairs, each in its final place. */
  function PairsUpTo(value: seq<byte>, i: nat): (v: Word32)
    requires (|value| == 4 || |value| == 8) && i in {0, 2, 4, 6, 8} && i <= |value|
    ensures i == |value| ==> v == PairsValue(value)
  {
    if |value| == 4 then
      (if i >= 2 then 256 * PairValue(value[0], value[1]) else 0)
      + (if i >= 4 then PairValue(value[2], value[3]) else 0)
    else
      (if i >= 2 then 16777216 * PairValue(value[0], value[1]) else 0)
      + (if i >= 4 then 65536 * PairValue(value[2], value[3]) else 0)
      + (if i >= 6 then 256 * PairValue(value[4], value[5]) else 0)
      + (if i >= 8 then PairValue(value[6], value[7]) else 0)
  }

  lemma NextPair(value: seq<byte>, i: nat)
    requires (|value| == 4 || |value| == 8) && i in {0, 2, 4, 6} && i < |value|
    ensures PairsUpTo(value, i + 2)
         == PairsUpTo(value, i) + PairValue(value[i], value[i + 1]) * Pow2((|value| - 2 - i) * 4)
  {
    hide PairValue, Pow2;
    Pow2Values();
    var shift := (|value| - 2 - i) * 4;
    assert shift == 0 || shift == 8 || shift == 16 || shift == 24;
  }

  lemma HeadStart(value: seq<byte>)
    requires |value| == 36
    ensures Head(value, 0) == 0
  {}

  /** A round that takes place leads to the next head, and must be one of 16. */
  lemma NextRound(value: seq<byte>, n: nat)
    requires |value| == 36 && n <= 16 && Head(value, n) < 36
    ensures Head(value, n + 1) == DigitsAt(value, Head(value, n)) + 2
    ensures n == 16 || DigitsAt(value, Head(value, n)) == 36 ==> !StaysInside(value)
    ensures n < 16 && DigitsAt(value, Head(value, n)) < 36 ==> ReadsInside(value, n)
  {
    assert n < 16 && DigitsAt(value, Head(value, n)) == 36 ==> !ReadsInside(value, n);
  }

  /** Once the loop is over, no further round takes place. */
  lemma AllRounds(value: seq<byte>, n: nat)
    requires |value| == 36 && n <= 16 && Head(value, n) >= 36
    requires forall k: nat | k < n :: ReadsInside(value, k)
    ensures StaysInside(value)
    ensures forall k: nat | n <= k < 16 :: Head(value, k) >= 36
  {
    hide Head;
    forall k: nat | n <= k <= 16 ensures Head(value, k) >= 36 {
      HeadAtEnd(value, n, k);
    }
  }

  class UuidObject {
    var valueSet: bool
    var len: nat
    const native: array<byte>

    ghost predicate Valid()
      reads this
    {
      native.Length == 16 && (valueSet ==> len == LEN_16 || len == LEN_32 || len == LEN_128)
    }

    ghost function Value(): (u: Uuid)
      reads this, native
      requires Valid()
      ensures WellFormed(u)
    {
      if !valueSet then Unset
      else if len == LEN_16 then Uuid16(Stored(native[0], native[1], 0, 0))
      else if len == LEN_32 then Uuid32(Stored(native[0], native[1], native[2], native[3]))
      else Uuid128(native[..])
    }

    /** Parses 4, 8 or 36 digits, or takes 16 raw bytes; anything else leaves the object unset. */
    constructor FromString(value: seq<byte>)
      requires |value| == 36 ==> StaysInside(value)
      ensures Valid() && fresh(native)
      ensures Value().Unset? <==> |value| !in {4, 8, 16, 36}
      ensures |value| == 4 ==> Value() == Uuid16(PairsValue(value))
      ensures |value| == 8 ==> Value() == Uuid32(PairsValue(value))
      ensures |value| == 16 ==> Value().Uuid128? && forall i | 0 <= i < 16 :: Value().bytes[i] == value[15 - i]
      ensures |value| == 36 ==> Parses36(value, Value())
    {
      valueSet, len := true, LEN_128;
      native := new byte[16];
      new;
      if |value| == 4 {
        len := LEN_16;
        var v := ParsePairs(value);
        StoreLow(v, 2);
      } else if |value| == 8 {
        len := LEN_32;
        var v := ParsePairs(value);
        StoreLow(v, 4);
      } else if |value| == 16 {
        ReverseCopy(value);
      } else if |value| == 36 {
        var inside := ParseLong(value);
      } else {
        valueSet := false;
      }
    }

    /** Adds the pairs up from the left, each shifted to its place. */
    static method ParsePairs(value: seq<byte>) returns (v: Word32)
      requires |value| == 4 || |value| == 8
      ensures v == PairsValue(value)
    {
      v := 0;
      var i := 0;
      while i < |value|
        invariant i in {0, 2, 4, 6, 8} && i <= |value|
        invariant v == PairsUpTo(value, i)
        decreases |value| - i
      {
        var pair := PairValue(value[i], value[i + 1]);
        NextPair(value, i);
        v := v + pair * Pow2((|value| - 2 - i) * 4);
        i := i + 2;
      }
    }

    /** Stores a short value in the first `count` bytes of the union. */
    method StoreLow(v: Word32, count: nat)
      requires native.Length == 16 && (count == 4 || (count == 2 && v < 0x1_0000))
      modifies native
      ensures v == Stored(native[0], native[1],
                          if count == 4 then native[2] else 0, if count == 4 then native[3] else 0)
    {
      var rest: nat := v;
      native[0], rest := rest % 256, rest / 256;
      native[1], rest := rest % 256, rest / 256;
      if count == 4 {
        native[2], rest := rest % 256, rest / 256;
        native[3] := rest;
      }
    }

    /** memrcpy: the source forwards, the target backwards. */
    method ReverseCopy(source: seq<byte>)
      requires native.Length == 16 && |source| == 16
      modifies native
      ensures forall i | 0 <= i < 16 :: native[i] == source[15 - i]
    {
      var target, size := 15, 16;
      while size > 0
        invariant 0 <= size <= 16 && target == size - 1
        invariant forall i | size <= i < 16 :: native[i] == source[15 - i]
      {
        native[target] := source[16 - size];
        target := target - 1;
        size := size - 1;
      }
    }

    /**
      The loop over 36 characters.  `inside` is false when a round would write in
      front of the storage, or read behind the end mark of the string.
     */
    method ParseLong(value: seq<byte>) returns (inside: bool)
      requires native.Length == 16 && |value| == 36
      modifies native
      ensures inside <==> StaysInside(value)
      ensures inside ==> Parses36(value, Uuid128(native[..]))
      ensures forall at | 0 <= at < 16 && Head(value, 15 - at) >= 36 :: native[at] == old(native[at])
    {
      hide Head, StaysInside, ReadsInside, RoundByte, DigitsAt, PairValue;
      var n, i := 0, 0;
      HeadStart(value);
      inside := true;
      while i < |value| && inside
        invariant 0 <= n <= 16 && (inside ==> i == Head(value, n))
        invariant inside ==> forall k: nat | k < n :: Head(value, k) < 36 && ReadsInside(value, k)
        invariant inside ==> forall k: nat | k < n :: native[15 - k] == RoundByte(value, k)
        invariant forall at | 0 <= at < 16 - n :: native[at] == old(native[at])
        invariant forall k: nat | k < n :: Head(value, k) < 36
        invariant !inside ==> !StaysInside(value)
        decreases 16 - n, inside
      {
        NextRound(value, n);
        inside, i := PutByte(value, n, i);
        if inside {
          n := n + 1;
        }
      }
      if inside {
        AllRounds(value, n);
      }
    }

    /** One round of the loop: byte `15 - n`, from the characters at `head` or behind a dash there. */
    method PutByte(value: seq<byte>, n: nat, head: nat) returns (inside: bool, i: nat)
      requires native.Length == 16 && |value| == 36 && n <= 16 && head < 36 && head == Head(value, n)
      modifies native
      ensures inside <==> n < 16 && DigitsAt(value, head) < 36
      ensures inside ==> i == DigitsAt(value, head) + 2 && native[15 - n] == RoundByte(value, n)
      ensures forall at | 0 <= at < 16 && (at != 15 - n || !inside) :: native[at] == old(native[at])
    {
      hide Head, PairValue;
      i := head;
      if value[i] == 45 {
        i := i + 1;
      }
      if n == 16 || i == |value| {
        return false, i;
      }
      native[15 - n] := PairValue(CharAt(value, i), CharAt(value, i + 1));
      return true, i + 2;
    }

    /** Compares by representation, falling back on text when they differ. */
    method EqualsObject(other: UuidObject) returns (same: bool)
      requires Valid() && other.Valid()
      ensures same <==> Equals(Value(), other.Value())
    {
      if !valueSet || !other.valueSet {
        return false;
      }
      if other.len != len {
        var mine, theirs := Text(), other.Text();
        return mine == theirs;
      }
      if other.len == LEN_16 {
        return other.native[0] == native[0] && other.native[1] == native[1];
      }
      if other.len == LEN_32 {
        return Stored(native[0], native[1], native[2], native[3])
            == Stored(other.native[0], other.native[1], other.native[2], other.native[3]);
      }
      return other.native[..] == native[..];
    }

    function Text(): (s: string)
      reads this, native
      requires Valid()
      ensures s == ToString(Value())
    {
      if !valueSet then "<NULL>"
      else if len == LEN_16 then Hex8(Stored(native[0], native[1], 0, 0)) + TAIL
      else if len == LEN_32 then Hex8(Stored(native[0], native[1], native[2], native[3])) + TAIL
      else PrintUpTo(native[..], 16)
    }

    /**
      Widens the object in place.  The short value is read before its bytes, which
      the union shares with the long form, are overwritten.
     */
    method Widen()
      requires Valid()
      modifies this`len, native
      ensures Valid() && valueSet == old(valueSet)
      ensures Value() == To128(old(Value()))
    {
      if !valueSet || len == LEN_128 {
        return;
      }
      if len == LEN_16 {
        var temp := Stored(native[0], native[1], 0, 0);
        StoreTop(temp);
      } else {
        var temp := Stored(native[0], native[1], native[2], native[3]);
        StoreTop(temp);
      }
      StoreBase();
      len := LEN_128;
      assert native[..12] == BASE;
      assert native[..] == native[..12] + native[12..];
    }

    /** The variable part of a widened UUID. */
    method StoreTop(temp: Word32)
      requires native.Length == 16
      modifies native
      ensures forall i | 12 <= i < 16 :: native[i] == LittleEndian(temp)[i - 12]
    {
      var q1 := temp / 256;
      var q2 := q1 / 256;
      native[15], native[14], native[13], native[12] := q2 / 256, q2 % 256, q1 % 256, temp % 256;
    }

    /** The fixed part of a widened UUID, byte by byte. */
    method StoreBase()
      requires native.Length == 16
      modifies native
      ensures forall i | 0 <= i < 12 :: native[i] == BASE[i]
      ensures forall i | 12 <= i < 16 :: native[i] == old(native[i])
    {
      for i := 0 to 12
        invariant forall j | 0 <= j < i :: native[j] == BASE[j]
        invariant forall j | 12 <= j < 16 :: native[j] == old(native[j])
      {
        native[i] := BASE[i];
      }
    }
  }
}
