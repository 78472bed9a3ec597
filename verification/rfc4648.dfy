/**
 The base32 and base16 encodings of RFC 4648 (sections 6 and 8), without
 padding characters. The data is a bit string, most significant bit of
 each byte first, read in 5-bit (base32) or 4-bit (base16) groups; the
 last group is filled up with zero bits. Decoding accepts either letter
 case and yields the whole bytes the text carries; the bits left over at
 the end are dropped.

 Bytes and characters are both "digits" of a fixed bit width, so one pair
 of functions, Spread and Gather, converts between digit strings and bit
 strings for every width.
 */
module Rfc4648 {
  import opened Options
  import opened Bytes

  function Pow2(k: nat): (r: nat)
    ensures r >= 1
  {
    if k == 0 then 1 else 2 * Pow2(k - 1)
  }

  /** The k low bits of x, most significant first. */
  function BitsOf(x: nat, k: nat): (bs: seq<bool>)
    ensures |bs| == k
    decreases k
  {
    if k == 0 then [] else BitsOf(x / 2, k - 1) + [x % 2 == 1]
  }

  /** The number a bit string spells, most significant bit first. */
  function Value(bs: seq<bool>): (v: nat)
    ensures v < Pow2(|bs|)
    decreases |bs|
  {
    if |bs| == 0 then 0 else 2 * Value(bs[..|bs| - 1]) + (if bs[|bs| - 1] then 1 else 0)
  }

  /** Writing a number in k bits and reading them back gives the number. */
  lemma {:induction false} ValueOfBitsOf(x: nat, k: nat)
    requires x < Pow2(k)
    ensures Value(BitsOf(x, k)) == x
    decreases k
  {
    if k > 0 {
      assert BitsOf(x, k)[..k - 1] == BitsOf(x / 2, k - 1);
      ValueOfBitsOf(x / 2, k - 1);
    }
  }

  /** Reading a bit string and writing the number back in as many bits gives the string. */
  lemma {:induction false} BitsOfValue(bs: seq<bool>)
    ensures BitsOf(Value(bs), |bs|) == bs
    decreases |bs|
  {
    if |bs| > 0 {
      var init := bs[..|bs| - 1];
      BitsOfValue(init);
      assert bs == init + [bs[|bs| - 1]];
    }
  }

  /** A digit string of width w: every digit fits in w bits. */
  predicate IsDigits(ds: seq<int>, w: nat) {
    forall i :: 0 <= i < |ds| ==> 0 <= ds[i] < Pow2(w)
  }

  /** The bit string of a digit string, w bits per digit. */
  function Spread(ds: seq<int>, w: nat): (bs: seq<bool>)
    requires IsDigits(ds, w)
    ensures |bs| == w * |ds|
    decreases |ds|
  {
    if |ds| == 0 then [] else BitsOf(ds[0], w) + Spread(ds[1..], w)
  }

  /** A bit string read as w-bit digits; a trailing part shorter than w is dropped. */
  function Gather(bs: seq<bool>, w: nat): (ds: seq<int>)
    requires w > 0
    ensures IsDigits(ds, w)
    decreases |bs|
  {
    if |bs| < w then [] else [Value(bs[..w])] + Gather(bs[w..], w)
  }

  /** Gathering the bits of a digit string gives the digits back. */
  lemma {:induction false} GatherSpread(ds: seq<int>, w: nat)
    requires w > 0 && IsDigits(ds, w)
    ensures Gather(Spread(ds, w), w) == ds
    decreases |ds|
  {
    if |ds| > 0 {
      var bs := Spread(ds, w);
      assert bs[..w] == BitsOf(ds[0], w);
      assert bs[w..] == Spread(ds[1..], w);
      ValueOfBitsOf(ds[0], w);
      GatherSpread(ds[1..], w);
    }
  }

  /**
   Spreading gathered digits gives back the bits they were read from: all
   of them but fewer than w at the end.
   */
  lemma {:induction false} SpreadGather(bs: seq<bool>, w: nat)
    requires w > 0
    ensures var k := |Gather(bs, w)|;
      w * k <= |bs| < w * k + w && Spread(Gather(bs, w), w) == bs[..w * k]
    decreases |bs|
  {
    if |bs| >= w {
      var rest := bs[w..];
      SpreadGather(rest, w);
      var k' := |Gather(rest, w)|;
      assert w * (k' + 1) == w + w * k';
      BitsOfValue(bs[..w]);
      assert bs[..w + w * k'] == bs[..w] + rest[..w * k'];
    }
  }

  /** Bits fewer than w after a whole number of w-bit digits are dropped. */
  lemma {:induction false} GatherDropsShortTail(bs: seq<bool>, tail: seq<bool>, w: nat, k: nat)
    requires w > 0 && |bs| == w * k && |tail| < w
    ensures Gather(bs + tail, w) == Gather(bs, w)
    decreases k
  {
    if k > 0 {
      assert w * k == w + w * (k - 1);
      assert (bs + tail)[..w] == bs[..w];
      assert (bs + tail)[w..] == bs[w..] + tail;
      GatherDropsShortTail(bs[w..], tail, w, k - 1);
    }
  }

  datatype Alphabet = Base32 | Base16

  /** Bits per character. */
  function Width(a: Alphabet): (w: nat)
    ensures 0 < w <= 8
  {
    match a
    case Base32 => 5
    case Base16 => 4
  }

  /** The number of distinct characters, 2^Width. */
  function Radix(a: Alphabet): (r: nat)
    ensures r == Pow2(Width(a))
  {
    match a
    case Base32 => assert Pow2(5) == 32; 32
    case Base16 => assert Pow2(4) == 16; 16
  }

  /**
   The value of one character: A-Z then 2-7 for base32 (section 6 of RFC
   4648), 0-9 then A-F for base16 (section 8); lower-case letters read like
   upper-case ones.
   */
  function DigitOf(a: Alphabet, c: char): (d: Option<int>)
    ensures d.Some? ==> 0 <= d.value < Radix(a)
  {
    match a
    case Base32 =>
      if 'A' <= c <= 'Z' then Some(c as int - 'A' as int)
      else if 'a' <= c <= 'z' then Some(c as int - 'a' as int)
      else if '2' <= c <= '7' then Some(c as int - '2' as int + 26)
      else None
    case Base16 =>
      if '0' <= c <= '9' then Some(c as int - '0' as int)
      else if 'A' <= c <= 'F' then Some(c as int - 'A' as int + 10)
      else if 'a' <= c <= 'f' then Some(c as int - 'a' as int + 10)
      else None
  }

  /** The upper-case character of a digit value; it reads back as that value. */
  function CharOf(a: Alphabet, d: int): (c: char)
    requires 0 <= d < Radix(a)
    ensures DigitOf(a, c) == Some(d)
  {
    match a
    case Base32 => if d < 26 then ('A' as int + d) as char else ('2' as int + d - 26) as char
    case Base16 => if d < 10 then ('0' as int + d) as char else ('A' as int + d - 10) as char
  }

  predicate InAlphabet(a: Alphabet, s: seq<char>) {
    forall i :: 0 <= i < |s| ==> DigitOf(a, s[i]).Some?
  }

  /** The digit values of a text, or nothing when a character is outside the alphabet. */
  function Digits(a: Alphabet, s: seq<char>): (ds: Option<seq<int>>)
    ensures ds.Some? <==> InAlphabet(a, s)
    ensures ds.Some? ==> |ds.value| == |s| && IsDigits(ds.value, Width(a))
    ensures ds.Some? ==> forall i :: 0 <= i < |s| ==> DigitOf(a, s[i]) == Some(ds.value[i])
  {
    if InAlphabet(a, s) then Some(seq(|s|, i requires 0 <= i < |s| => DigitOf(a, s[i]).value)) else None
  }

  /** The bytes of a string of 8-bit digits. */
  function AsBytes(ds: seq<int>): (b: seq<byte>)
    requires IsDigits(ds, 8)
    ensures b == ds
  {
    seq(|ds|, i requires 0 <= i < |ds| => ds[i] as byte)
  }

  lemma BytesAreDigits(b: seq<byte>)
    ensures IsDigits(b, 8)
  {
    assert Pow2(8) == 256;
  }

  /**
   Decoding: the whole bytes the text's bits make up, or nothing when a
   character is outside the alphabet.
   */
  function Decode(a: Alphabet, s: seq<char>): (r: Option<seq<byte>>)
    ensures r.Some? <==> InAlphabet(a, s)
  {
    match Digits(a, s)
    case None => None
    case Some(ds) => Some(AsBytes(Gather(Spread(ds, Width(a)), 8)))
  }

  /** A text of n characters decodes to Width * n / 8 bytes. */
  lemma DecodeLength(a: Alphabet, s: seq<char>)
    requires InAlphabet(a, s)
    ensures var m := |Decode(a, s).value|;
      8 * m <= Width(a) * |s| < 8 * m + 8
  {
    SpreadGather(Spread(Digits(a, s).value, Width(a)), 8);
  }

  function Zeros(k: nat): (z: seq<bool>)
    ensures |z| == k && forall i :: 0 <= i < k ==> !z[i]
  {
    seq(k, i => false)
  }

  /**
   Encoding, in upper case and without padding characters: the bits of the
   bytes, filled up with zero bits to a whole number of characters.
   */
  function Encode(a: Alphabet, b: seq<byte>): (s: seq<char>)
    ensures InAlphabet(a, s)
  {
    BytesAreDigits(b);
    var ds := Gather(Spread(b, 8) + Zeros(Width(a) - 1), Width(a));
    seq(|ds|, i requires 0 <= i < |ds| => CharOf(a, ds[i]))
  }

  /** An encoding has as many characters as the bits of the bytes need. */
  lemma EncodeLength(a: Alphabet, b: seq<byte>)
    ensures var n := |Encode(a, b)|;
      8 * |b| <= Width(a) * n < 8 * |b| + Width(a)
  {
    BytesAreDigits(b);
    SpreadGather(Spread(b, 8) + Zeros(Width(a) - 1), Width(a));
  }

  /** The digits of an encoding are the groups the encoder formed. */
  lemma DigitsOfEncode(a: Alphabet, b: seq<byte>)
    ensures IsDigits(b, 8)
    ensures Digits(a, Encode(a, b)) == Some(Gather(Spread(b, 8) + Zeros(Width(a) - 1), Width(a)))
  {
    BytesAreDigits(b);
    var ds := Gather(Spread(b, 8) + Zeros(Width(a) - 1), Width(a));
    var s := Encode(a, b);
    assert forall i :: 0 <= i < |s| ==> DigitOf(a, s[i]) == Some(ds[i]);
    assert Digits(a, s).value == ds;
  }

  /** Cutting zero filling short leaves zero filling. */
  lemma ZerosPrefix(bits: seq<bool>, n: nat, j: nat)
    requires j <= n
    ensures (bits + Zeros(n))[..|bits| + j] == bits + Zeros(j)
  {
  }

  /** Round trip: decoding an encoding gives back the bytes. */
  lemma DecodeEncode(a: Alphabet, b: seq<byte>)
    ensures Decode(a, Encode(a, b)) == Some(b)
  {
    var w := Width(a);
    DigitsOfEncode(a, b);
    var bits := Spread(b, 8);
    var ds := Gather(bits + Zeros(w - 1), w);
    SpreadGather(bits + Zeros(w - 1), w);
    var fill := w * |ds| - 8 * |b|;
    assert Spread(ds, w) == bits + Zeros(fill) by {
      ZerosPrefix(bits, w - 1, fill);
    }
    GatherDropsShortTail(bits, Zeros(fill), 8, |b|);
    GatherSpread(b, 8);
  }

  /** The bits of the byte "f" (0x66). */
  lemma BitsOfF()
    ensures IsDigits([102], 8)
    ensures Spread([102], 8) == [false, true, true, false, false, true, true, false]
  {
    BytesAreDigits([102]);
    assert BitsOf(102, 8) == [false, true, true, false, false, true, true, false];
    assert Spread([102], 8) == BitsOf(102, 8) + Spread([], 8);
  }

  /** "f" filled up to 10 bits reads as the 5-bit groups 12 and 24. */
  lemma GroupsOfF()
    ensures Gather([false, true, true, false, false, true, true, false, false, false], 5) == [12, 24]
  {
    var p := [false, true, true, false, false, true, true, false, false, false];
    assert Value(p[..5]) == 12 by {
      assert p[..5] == BitsOf(12, 5);
      ValueOfBitsOf(12, 5);
    }
    assert Value(p[5..][..5]) == 24 by {
      assert p[5..][..5] == BitsOf(24, 5);
      ValueOfBitsOf(24, 5);
    }
    assert Gather(p[5..][5..], 5) == [];
  }

  /** Section 10 of RFC 4648: BASE32("f") = "MY", padding aside. */
  lemma Base32TestVector()
    ensures Encode(Base32, [102]) == "MY"
  {
    BitsOfF();
    var p := Spread([102], 8) + Zeros(4);
    assert Gather(p, 5) == [12, 24] by {
      GroupsOfF();
      assert p[..10] == [false, true, true, false, false, true, true, false, false, false];
      GatherDropsShortTail(p[..10], p[10..], 5, 2);
      assert p == p[..10] + p[10..];
    }
  }

  /** "f" read in 4-bit groups is 6 and 6. */
  lemma NibblesOfF()
    ensures Gather([false, true, true, false, false, true, true, false], 4) == [6, 6]
  {
    var p := [false, true, true, false, false, true, true, false];
    assert Value(p[..4]) == 6 by {
      assert p[..4] == BitsOf(6, 4);
      ValueOfBitsOf(6, 4);
    }
    assert Value(p[4..][..4]) == 6 by {
      assert p[4..][..4] == BitsOf(6, 4);
      ValueOfBitsOf(6, 4);
    }
    assert Gather(p[4..][4..], 4) == [];
  }

  /** Section 10 of RFC 4648: BASE16("f") = "66". */
  lemma Base16TestVector()
    ensures Encode(Base16, [102]) == "66"
  {
    BitsOfF();
    var p := Spread([102], 8) + Zeros(3);
    assert Gather(p, 4) == [6, 6] by {
      NibblesOfF();
      GatherDropsShortTail(p[..8], p[8..], 4, 2);
      assert p == p[..8] + p[8..];
    }
  }
}
