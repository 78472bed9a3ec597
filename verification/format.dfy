/**
 gm_vsnprintf and gm_snprintf: formatting into a buffer of `n` bytes that
 always ends with a NUL and returns the length actually stored.

 The formatter itself is abstract: `text` is the complete output the format
 and its arguments produce. Which vsnprintf the platform offers is a
 parameter: a C99 one (returns the full length), an older one (returns -1
 when the output did not fit), or none (the output is formatted into a new
 string and copied with g_strlcpy).
 */
module GmFormat {
  import opened Options
  import opened CStrings

  /** INT_MAX of a 32-bit int. */
  const IntMax: nat := 0x7FFF_FFFF

  /** size_t and ssize_t are 64 bits wide. */
  const SizeRange: nat := 0x1_0000_0000_0000_0000

  datatype Flavour = C99 | PreC99 | NoVsnprintf

  /**
   The value returned and the bytes stored from the start of the buffer,
   the terminating NUL included; nothing is stored when a guard fails.
   */
  datatype Output = Output(ret: nat, stored: Option<seq<char>>)

  /** `(ssize_t) n`: sizes from 2^63 on read as negative. */
  function AsSigned(n: nat): (v: int)
    requires n < SizeRange
    ensures v > 0 <==> 0 < n < SizeRange / 2
  {
    if n < SizeRange / 2 then n else n - SizeRange
  }

  function Min(a: nat, b: nat): nat {
    if a < b then a else b
  }

  /** What the buffer holds after the first `m` characters of `text` and a NUL. */
  function Stored(text: seq<char>, m: nat): (buf: seq<char>)
    requires m <= |text|
    ensures |buf| == m + 1 && buf[m] == Nul
    ensures forall i :: 0 <= i < m ==> buf[i] == text[i]
  {
    text[..m] + [Nul]
  }

  /** The stored string is no longer than the characters copied, and as long when they hold no NUL. */
  lemma StoredLength(text: seq<char>, m: nat)
    requires m <= |text|
    ensures CStrLen(Stored(text, m)) <= m
    ensures (forall i :: 0 <= i < m ==> text[i] != Nul) ==> CStrLen(Stored(text, m)) == m
  {
    var buf := Stored(text, m);
    assert buf[m] == Nul;
    if forall i :: 0 <= i < m ==> text[i] != Nul {
      assert forall i :: 0 <= i < m ==> buf[i] != Nul;
    }
  }

  /**
   The DO_VSNPRINTF step for a buffer of n > 0 bytes. Every flavour stores
   at most n - 1 characters of the text and a NUL; a C99 vsnprintf reports
   the full length, which is then cut to n - 1; an older one reports -1 on
   truncation, replaced by the length of the stored string; without
   vsnprintf the result is the smaller of n - 1 and the length g_strlcpy
   reports.
   */
  function DoVsnprintf(flavour: Flavour, n: nat, text: seq<char>): (out: Output)
    requires n > 0
    ensures out.stored.Some? && out.ret < n
  {
    match flavour
    case C99 =>
      var m := Min(|text|, n - 1);
      Output(if |text| >= n then n - 1 else |text|, Some(Stored(text, m)))
    case PreC99 =>
      var m := Min(|text|, n - 1);
      var buf := Stored(text, m);
      StoredLength(text, m);
      Output(if |text| >= n then CStrLen(buf) else |text|, Some(buf))
    case NoVsnprintf =>
      var l := CStrLen(text);
      Output(Min(n - 1, l), Some(Stored(text, Min(l, n - 1))))
  }

  /**
   gm_vsnprintf (and gm_snprintf, which runs the same steps on its own
   argument list): returns 0 and stores nothing without a buffer, without a
   format, for a size that is 0 or negative as ssize_t, or above INT_MAX.
   */
  function Vsnprintf(flavour: Flavour, haveStr: bool, haveFmt: bool, n: nat, text: seq<char>): (out: Output)
    requires n < SizeRange
    ensures out.stored.None? <==> !haveStr || !haveFmt || AsSigned(n) <= 0 || n > IntMax
    ensures out.stored.None? ==> out.ret == 0
    ensures out.stored.Some? ==> out.ret < n
  {
    if !haveStr || !haveFmt || AsSigned(n) <= 0 || n > IntMax then Output(0, None)
    else DoVsnprintf(flavour, n, text)
  }

  /** The accepted sizes are exactly 1 to INT_MAX. */
  lemma VsnprintfAcceptedSizes(flavour: Flavour, n: nat, text: seq<char>)
    requires n < SizeRange
    ensures Vsnprintf(flavour, true, true, n, text).stored.Some? <==> 1 <= n <= IntMax
  {
  }

  /**
   For output without NUL characters, every flavour returns the smaller of
   the full length and n - 1, and stores exactly that many leading
   characters of the output followed by a NUL.
   */
  lemma VsnprintfTruncates(flavour: Flavour, n: nat, text: seq<char>)
    requires 1 <= n <= IntMax
    requires forall i :: 0 <= i < |text| ==> text[i] != Nul
    ensures var out := Vsnprintf(flavour, true, true, n, text);
      && out.ret == Min(|text|, n - 1)
      && out.stored == Some(text[..out.ret] + [Nul])
      && CStrLen(out.stored.value) == out.ret
  {
    var m := Min(|text|, n - 1);
    var buf := Stored(text, m);
    CStrLenNoNul(text);
    StoredLength(text, m);
  }

  /** On output without NUL characters, the three flavours agree. */
  lemma FlavoursAgree(f: Flavour, g: Flavour, haveStr: bool, haveFmt: bool, n: nat, text: seq<char>)
    requires n < SizeRange
    requires forall i :: 0 <= i < |text| ==> text[i] != Nul
    ensures Vsnprintf(f, haveStr, haveFmt, n, text) == Vsnprintf(g, haveStr, haveFmt, n, text)
  {
    if haveStr && haveFmt && 1 <= n <= IntMax {
      VsnprintfTruncates(f, n, text);
      VsnprintfTruncates(g, n, text);
    }
  }
}
