/**
 gm_atoul: decimal conversion to unsigned long with an error code, built
 on strtoul with base 10 as ISO C99 section 7.20.1.4 describes it: leading
 white space is skipped, an optional sign follows, then the longest run of
 decimal digits. No digits means no conversion and an end position at the
 start of the string; a value above ULONG_MAX yields ULONG_MAX and ERANGE;
 a minus sign negates the value in unsigned arithmetic.
 */
module GmAtoul {

  /** unsigned long is 64 bits wide. */
  const ULongMax: nat := 0xFFFF_FFFF_FFFF_FFFF

  /** errno values (Linux numbering). */
  const EINVAL: nat := 22
  const ERANGE: nat := 34

  /** isspace in the C locale. */
  predicate IsSpace(c: char) {
    c == ' ' || c == '\t' || c == '\n' || c == '\r' || c == 0x0B as char || c == 0x0C as char
  }

  predicate IsDigit(c: char) {
    '0' <= c <= '9'
  }

  function DigitValue(c: char): (d: nat)
    requires IsDigit(c)
    ensures d < 10
  {
    c as int - '0' as int
  }

  function DigitChar(d: nat): (c: char)
    requires d < 10
    ensures IsDigit(c) && DigitValue(c) == d
  {
    ('0' as int + d) as char
  }

  /** The position of the first character from `i` on that is not white space. */
  function SkipSpaces(s: seq<char>, i: nat): (j: nat)
    requires i <= |s|
    ensures i <= j <= |s|
    ensures forall k :: i <= k < j ==> IsSpace(s[k])
    ensures j < |s| ==> !IsSpace(s[j])
    decreases |s| - i
  {
    if i < |s| && IsSpace(s[i]) then SkipSpaces(s, i + 1) else i
  }

  /** The number of consecutive digits from position `i` on. */
  function DigitRun(s: seq<char>, i: nat): (n: nat)
    requires i <= |s|
    ensures i + n <= |s|
    ensures forall k :: i <= k < i + n ==> IsDigit(s[k])
    ensures i + n < |s| ==> !IsDigit(s[i + n])
    decreases |s| - i
  {
    if i < |s| && IsDigit(s[i]) then 1 + DigitRun(s, i + 1) else 0
  }

  /** The value of a string of decimal digits, most significant first. */
  function DecValue(d: seq<char>): nat
    requires forall k :: 0 <= k < |d| ==> IsDigit(d[k])
    decreases |d|
  {
    if |d| == 0 then 0 else DecValue(d[..|d| - 1]) * 10 + DigitValue(d[|d| - 1])
  }

  /** The shortest decimal representation of v. */
  function ToDecimal(v: nat): (d: seq<char>)
    ensures |d| >= 1
    ensures forall k :: 0 <= k < |d| ==> IsDigit(d[k])
    decreases v
  {
    if v < 10 then [DigitChar(v)] else ToDecimal(v / 10) + [DigitChar(v % 10)]
  }

  lemma {:induction false} DecValueOfDecimal(v: nat)
    ensures DecValue(ToDecimal(v)) == v
    decreases v
  {
    if v >= 10 {
      var d := ToDecimal(v);
      assert d[..|d| - 1] == ToDecimal(v / 10);
      DecValueOfDecimal(v / 10);
    }
  }

  /** What strtoul reports: the value, the end position and whether it overflowed. */
  datatype Conversion = Conversion(value: nat, end: nat, overflow: bool)

  /** strtoul(s, &end, 10). */
  function StrToUl(s: seq<char>): (c: Conversion)
    ensures c.value <= ULongMax && c.end <= |s|
    ensures c.overflow ==> c.value == ULongMax
  {
    var start := SkipSpaces(s, 0);
    var signed := start < |s| && (s[start] == '+' || s[start] == '-');
    var first := if signed then start + 1 else start;
    var n := DigitRun(s, first);
    if n == 0 then Conversion(0, 0, false)
    else
      var v := DecValue(s[first .. first + n]);
      if v > ULongMax then Conversion(ULongMax, first + n, true)
      else if signed && s[start] == '-' then Conversion((ULongMax + 1 - v) % (ULongMax + 1), first + n, false)
      else Conversion(v, first + n, false)
  }

  /** The result of gm_atoul: value, end position and error code. */
  datatype Atoul = Atoul(ret: nat, end: nat, errorcode: nat)

  /**
   gm_atoul: EINVAL and 0 when nothing was converted, ERANGE and 0 on
   overflow, otherwise error code 0 and the converted value.
   */
  function GmAtoul(s: seq<char>): (r: Atoul)
    ensures r.errorcode != 0 ==> r.ret == 0
    ensures r.errorcode == 0 || r.errorcode == EINVAL || r.errorcode == ERANGE
    ensures r.errorcode == EINVAL <==> r.end == 0
  {
    var c := StrToUl(s);
    if c.end == 0 then Atoul(0, 0, EINVAL)
    else if c.overflow then Atoul(0, c.end, ERANGE)
    else Atoul(c.value, c.end, 0)
  }

  /**
   Nothing is converted exactly when no digit follows the white space and
   the optional sign.
   */
  lemma AtoulNoDigits(s: seq<char>)
    ensures var start := SkipSpaces(s, 0);
      var first := if start < |s| && (s[start] == '+' || s[start] == '-') then start + 1 else start;
      GmAtoul(s).errorcode == EINVAL <==> !(first < |s| && IsDigit(s[first]))
  {
  }

  /** The digits of a decimal representation stop where the representation ends. */
  lemma DigitRunOfDecimal(d: seq<char>, rest: seq<char>, i: nat)
    requires i <= |d|
    requires forall k :: 0 <= k < |d| ==> IsDigit(d[k])
    requires |rest| == 0 || !IsDigit(rest[0])
    ensures DigitRun(d + rest, i) == |d| - i
    decreases |d| - i
  {
    if i < |d| {
      DigitRunOfDecimal(d, rest, i + 1);
    }
  }

  /** Digit runs do not look at what comes before them. */
  lemma DigitRunShift(pre: seq<char>, s: seq<char>, i: nat)
    requires i <= |s|
    ensures DigitRun(pre + s, |pre| + i) == DigitRun(s, i)
    decreases |s| - i
  {
    if i < |s| {
      assert (pre + s)[|pre| + i] == s[i];
      DigitRunShift(pre, s, i + 1);
    }
  }

  /**
   Round trip: the decimal representation of any unsigned long, followed
   by anything that does not begin with a digit, converts back to the
   value with error code 0 and ends right after the digits.
   */
  lemma AtoulRoundTrip(v: nat, rest: seq<char>)
    requires v <= ULongMax
    requires |rest| == 0 || !IsDigit(rest[0])
    ensures GmAtoul(ToDecimal(v) + rest) == Atoul(v, |ToDecimal(v)|, 0)
  {
    var d := ToDecimal(v);
    var s := d + rest;
    assert !IsSpace(s[0]) && s[0] != '+' && s[0] != '-';
    DigitRunOfDecimal(d, rest, 0);
    assert s[0 .. |d|] == d;
    DecValueOfDecimal(v);
  }

  /** A value above ULONG_MAX gives ERANGE and 0. */
  lemma AtoulOverflow(v: nat, rest: seq<char>)
    requires v > ULongMax
    requires |rest| == 0 || !IsDigit(rest[0])
    ensures GmAtoul(ToDecimal(v) + rest) == Atoul(0, |ToDecimal(v)|, ERANGE)
  {
    var d := ToDecimal(v);
    var s := d + rest;
    assert !IsSpace(s[0]) && s[0] != '+' && s[0] != '-';
    DigitRunOfDecimal(d, rest, 0);
    assert s[0 .. |d|] == d;
    DecValueOfDecimal(v);
  }

  /**
   A minus sign negates in unsigned arithmetic: "-" and the decimal text of
   any unsigned long v convert, without error, to 2^64 - v (0 for v = 0).
   */
  lemma AtoulNegates(v: nat, rest: seq<char>)
    requires v <= ULongMax
    requires |rest| == 0 || !IsDigit(rest[0])
    ensures GmAtoul("-" + ToDecimal(v) + rest)
         == Atoul(if v == 0 then 0 else ULongMax + 1 - v, 1 + |ToDecimal(v)|, 0)
  {
    var c := StrToUl("-" + ToDecimal(v) + rest);
    NegatedConversion(v, rest);
    UnsignedNegation(v);
    assert c.value == if v == 0 then 0 else ULongMax + 1 - v;
  }

  /** What strtoul reads from a minus sign and the decimal text of v. */
  lemma NegatedConversion(v: nat, rest: seq<char>)
    requires v <= ULongMax
    requires |rest| == 0 || !IsDigit(rest[0])
    ensures StrToUl("-" + ToDecimal(v) + rest)
         == Conversion((ULongMax + 1 - v) % (ULongMax + 1), 1 + |ToDecimal(v)|, false)
  {
    var d := ToDecimal(v);
    var s := "-" + d + rest;
    assert s[0] == '-';
    assert SkipSpaces(s, 0) == 0 by {
      assert !IsSpace(s[0]);
    }
    assert DigitRun(s, 1) == |d| by {
      assert s == "-" + (d + rest);
      DigitRunOfDecimal(d, rest, 0);
      DigitRunShift("-", d + rest, 0);
    }
    assert DecValue(s[1 .. 1 + |d|]) == v by {
      assert s[1 .. 1 + |d|] == d;
      DecValueOfDecimal(v);
    }
  }

  /** Negation modulo 2^64 of a value below 2^64. */
  lemma UnsignedNegation(v: nat)
    requires v <= ULongMax
    ensures (ULongMax + 1 - v) % (ULongMax + 1) == if v == 0 then 0 else ULongMax + 1 - v
  {
  }

  /** A minus sign wraps: "-1" converts to ULONG_MAX without error. */
  lemma AtoulMinusOne()
    ensures GmAtoul("-1") == Atoul(ULongMax, 2, 0)
  {
    assert "-1"[1..2] == ['1'];
    assert DecValue(['1']) == 1 by {
      assert ['1'][..0] == [];
    }
  }
}
