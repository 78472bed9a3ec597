/**
 Extraction of SHA1 and TTH digests from URNs: "urn:sha1:<sha1>",
 "urn:bitprint:<sha1>.<tth>" and "urn:tree:tiger:<tth>" (also with a slash
 before the colon), prefixes matched without regard to ASCII case. Digests
 are expected in base32; the SHA1 (and a bitprint) is also accepted in
 base16.

 Strings the C code reads up to their NUL are modelled as the characters
 of the buffer; reading stops at a NUL or at the end. Where the C code is
 given a buffer size, the buffer is the whole sequence.
 */
module Urn {
  import opened Options
  import opened Bytes
  import opened CStrings
  import opened Rfc4648

  const Sha1RawSize: nat := 20
  const Sha1Base32Size: nat := 32
  const Sha1Base16Size: nat := 40
  const TthRawSize: nat := 24
  const TthBase32Size: nat := 39
  const TthBase16Size: nat := 48
  const BitprintBase32Size: nat := Sha1Base32Size + 1 + TthBase32Size
  const BitprintBase16Size: nat := Sha1Base16Size + 1 + TthBase16Size

  const UrnPrefix := "urn:"
  const Sha1Prefix := "sha1:"
  const BitprintPrefix := "bitprint:"
  const TigerPrefix := "urn:tree:tiger"

  /** A SHA1 and a TTH digest. */
  datatype Bitprint = Bitprint(sha1: seq<byte>, tth: seq<byte>)

  /**
   base32_decode or base16_decode into a buffer of `raw` bytes, accepted
   only when exactly `raw` bytes come out.
   */
  function DecodeExact(a: Alphabet, text: seq<char>, raw: nat): (r: Option<seq<byte>>)
    ensures r.Some? ==> |r.value| == raw && Decode(a, text) == r
  {
    match Decode(a, text)
    case None => None
    case Some(b) => if |b| == raw then Some(b) else None
  }

  /** For a text of the right length, decoding succeeds exactly when every character is in the alphabet. */
  lemma DecodeExactValid(a: Alphabet, text: seq<char>, raw: nat)
    requires 8 * raw <= Width(a) * |text| < 8 * raw + 8
    ensures DecodeExact(a, text, raw).Some? <==> InAlphabet(a, text)
  {
    if InAlphabet(a, text) {
      DecodeLength(a, text);
    }
  }

  /** Decoding the encoding of `raw` bytes gives them back. */
  lemma DecodeExactEncode(a: Alphabet, b: seq<byte>)
    ensures DecodeExact(a, Encode(a, b), |b|) == Some(b)
  {
    DecodeEncode(a, b);
  }

  /** parse_base32_sha1: the SHA1 in the first 32 characters of `buf`, which has `size` of them readable. */
  function ParseBase32Sha1(buf: seq<char>, size: nat): (r: Option<seq<byte>>)
    requires size <= |buf|
    ensures r.Some? <==> size >= Sha1Base32Size && InAlphabet(Base32, buf[..Sha1Base32Size])
    ensures r.Some? ==> |r.value| == Sha1RawSize
  {
    if size < Sha1Base32Size then None
    else
      DecodeExactValid(Base32, buf[..Sha1Base32Size], Sha1RawSize);
      DecodeExact(Base32, buf[..Sha1Base32Size], Sha1RawSize)
  }

  /** parse_base16_sha1: the SHA1 in the first 40 characters of `buf`, which has `size` of them readable. */
  function ParseBase16Sha1(buf: seq<char>, size: nat): (r: Option<seq<byte>>)
    requires size <= |buf|
    ensures r.Some? <==> size >= Sha1Base16Size && InAlphabet(Base16, buf[..Sha1Base16Size])
    ensures r.Some? ==> |r.value| == Sha1RawSize
  {
    if size < Sha1Base16Size then None
    else
      DecodeExactValid(Base16, buf[..Sha1Base16Size], Sha1RawSize);
      DecodeExact(Base16, buf[..Sha1Base16Size], Sha1RawSize)
  }

  /**
   The SHA1 at the start of a string: base32 first; when that fails,
   base16. Each is tried only on characters before the string's end.
   */
  function Sha1Value(p: seq<char>): (r: Option<seq<byte>>)
    ensures r.Some? ==> |r.value| == Sha1RawSize
  {
    var b32 := ParseBase32Sha1(p, ClampStrlen(p, Sha1Base32Size));
    if b32.Some? then b32 else ParseBase16Sha1(p, ClampStrlen(p, Sha1Base16Size))
  }

  /** urn_get_sha1: the SHA1 of a "urn:sha1:" or "urn:bitprint:" URN. */
  function UrnGetSha1(buf: seq<char>): (r: Option<seq<byte>>)
    ensures r.Some? ==> |r.value| == Sha1RawSize
    ensures r.Some? ==> CaseMatches(buf, UrnPrefix + Sha1Prefix) || CaseMatches(buf, UrnPrefix + BitprintPrefix)
  {
    var p := CasePrefix(buf, UrnPrefix + Sha1Prefix);
    var q := if p.Some? then p else CasePrefix(buf, UrnPrefix + BitprintPrefix);
    if q.None? then None else Sha1Value(buf[q.value..])
  }

  /** urn_get_sha1_no_prefix: the same for "sha1:" and "bitprint:", the "urn:" left out. */
  function UrnGetSha1NoPrefix(buf: seq<char>): (r: Option<seq<byte>>)
    ensures r.Some? ==> |r.value| == Sha1RawSize
    ensures r.Some? ==> CaseMatches(buf, Sha1Prefix) || CaseMatches(buf, BitprintPrefix)
  {
    var p := CasePrefix(buf, Sha1Prefix);
    var q := if p.Some? then p else CasePrefix(buf, BitprintPrefix);
    if q.None? then None else Sha1Value(buf[q.value..])
  }

  /**
   The two SHA1 extractors agree: a URN is read like the same text without
   its "urn:", and a text without "urn:" yields nothing.
   */
  lemma UrnPrefixOptional(buf: seq<char>)
    ensures CaseMatches(buf, UrnPrefix) ==> UrnGetSha1(buf) == UrnGetSha1NoPrefix(buf[|UrnPrefix|..])
    ensures !CaseMatches(buf, UrnPrefix) ==> UrnGetSha1(buf) == None
  {
    CasePrefixSplit(buf, UrnPrefix, Sha1Prefix);
    CasePrefixSplit(buf, UrnPrefix, BitprintPrefix);
    if CaseMatches(buf, UrnPrefix + Sha1Prefix) {
      assert buf[|UrnPrefix + Sha1Prefix|..] == buf[|UrnPrefix|..][|Sha1Prefix|..];
    } else if CaseMatches(buf, UrnPrefix + BitprintPrefix) {
      assert buf[|UrnPrefix + BitprintPrefix|..] == buf[|UrnPrefix|..][|BitprintPrefix|..];
    }
  }

  /** Regrouping a concatenation of four parts behind its first. */
  lemma Regroup<T>(a: seq<T>, b: seq<T>, c: seq<T>, d: seq<T>)
    ensures a + b + c + d == a + (b + c + d)
  {
  }

  /** What follows a matched prefix. */
  lemma AfterPrefix(pre: seq<char>, q: seq<char>)
    ensures CasePrefix(pre + q, pre) == Some(|pre|)
    ensures (pre + q)[|pre|..] == q
  {
    CasePrefixOf(pre, q);
  }

  /** A text in an alphabet holds no NUL, so a clamp within it stops at the limit. */
  lemma ClampInAlphabet(a: Alphabet, e: seq<char>, rest: seq<char>, limit: nat)
    requires InAlphabet(a, e) && limit <= |e|
    ensures ClampStrlen(e + rest, limit) == limit
    ensures (e + rest)[..limit] == e[..limit]
  {
  }

  /** The base32 text of a 20-byte SHA1 has 32 characters, of a 24-byte TTH 39. */
  lemma Base32Lengths(b: seq<byte>)
    ensures |b| == Sha1RawSize ==> |Encode(Base32, b)| == Sha1Base32Size
    ensures |b| == TthRawSize ==> |Encode(Base32, b)| == TthBase32Size
  {
    EncodeLength(Base32, b);
  }

  /** The base16 text of a 20-byte SHA1 has 40 characters, of a 24-byte TTH 48. */
  lemma Base16Lengths(b: seq<byte>)
    ensures |b| == Sha1RawSize ==> |Encode(Base16, b)| == Sha1Base16Size
    ensures |b| == TthRawSize ==> |Encode(Base16, b)| == TthBase16Size
  {
    EncodeLength(Base16, b);
  }

  /** Encoded digests have the sizes of their alphabet. */
  lemma EncodedSizes(a: Alphabet, b: seq<byte>)
    ensures |b| == Sha1RawSize ==> |Encode(a, b)| == Sha1Size(a)
    ensures |b| == TthRawSize ==> |Encode(a, b)| == TthSize(a)
  {
    match a
    case Base32 => Base32Lengths(b);
    case Base16 => Base16Lengths(b);
  }

  /** A base32 SHA1 is read back from the start of a string, whatever follows it. */
  lemma Sha1ValueBase32(sha1: seq<byte>, rest: seq<char>)
    requires |sha1| == Sha1RawSize
    ensures Sha1Value(Encode(Base32, sha1) + rest) == Some(sha1)
  {
    var e := Encode(Base32, sha1);
    Base32Lengths(sha1);
    ClampInAlphabet(Base32, e, rest, Sha1Base32Size);
    assert e[..Sha1Base32Size] == e;
    DecodeExactEncode(Base32, sha1);
  }

  /**
   A base16 SHA1 is read back too, unless its first 32 characters also
   read as base32: then those are taken as the SHA1.
   */
  lemma Sha1ValueBase16(sha1: seq<byte>, rest: seq<char>)
    requires |sha1| == Sha1RawSize
    ensures |Encode(Base16, sha1)| == Sha1Base16Size
    ensures var e := Encode(Base16, sha1);
      Sha1Value(e + rest) == if InAlphabet(Base32, e[..Sha1Base32Size])
        then DecodeExact(Base32, e[..Sha1Base32Size], Sha1RawSize) else Some(sha1)
  {
    var e := Encode(Base16, sha1);
    Base16Lengths(sha1);
    ClampInAlphabet(Base16, e, rest, Sha1Base32Size);
    ClampInAlphabet(Base16, e, rest, Sha1Base16Size);
    assert e[..Sha1Base16Size] == e;
    DecodeExactEncode(Base16, sha1);
  }

  /** Round trip: urn_get_sha1 reads back the SHA1 of "urn:sha1:" and its base32 text. */
  lemma UrnGetSha1Base32(sha1: seq<byte>, rest: seq<char>)
    requires |sha1| == Sha1RawSize
    ensures UrnGetSha1(UrnPrefix + Sha1Prefix + Encode(Base32, sha1) + rest) == Some(sha1)
  {
    var e := Encode(Base32, sha1);
    var buf := UrnPrefix + Sha1Prefix + e + rest;
    assert buf == (UrnPrefix + Sha1Prefix) + (e + rest);
    CasePrefixOf(UrnPrefix + Sha1Prefix, e + rest);
    Sha1ValueBase32(sha1, rest);
  }

  /** Round trip for a bitprint URN: urn_get_sha1 reads back its SHA1. */
  lemma UrnGetSha1Bitprint(sha1: seq<byte>, rest: seq<char>)
    requires |sha1| == Sha1RawSize
    ensures UrnGetSha1(UrnPrefix + BitprintPrefix + Encode(Base32, sha1) + rest) == Some(sha1)
  {
    var e := Encode(Base32, sha1);
    var buf := UrnPrefix + BitprintPrefix + e + rest;
    assert buf == (UrnPrefix + BitprintPrefix) + (e + rest);
    assert buf[4] == 'b';
    CasePrefixOf(UrnPrefix + BitprintPrefix, e + rest);
    Sha1ValueBase32(sha1, rest);
  }

  /** Characters of a SHA1 and of a TTH in each alphabet. */
  function Sha1Size(a: Alphabet): nat {
    match a
    case Base32 => Sha1Base32Size
    case Base16 => Sha1Base16Size
  }

  function TthSize(a: Alphabet): nat {
    match a
    case Base32 => TthBase32Size
    case Base16 => TthBase16Size
  }

  /** The dot and the TTH that follow a SHA1 of `at` characters. */
  function DotTth(a: Alphabet, p: seq<char>, at: nat): (r: Option<seq<byte>>)
    requires at + 1 + TthSize(a) <= |p|
    ensures r.Some? ==> |r.value| == TthRawSize
  {
    if p[at] != '.' then None else DecodeExact(a, p[at + 1 .. at + 1 + TthSize(a)], TthRawSize)
  }

  /** Both digests, when both were read. */
  function BothDigests(sha1: Option<seq<byte>>, tth: Option<seq<byte>>): (r: Option<Bitprint>)
    ensures r.Some? <==> sha1.Some? && tth.Some?
    ensures r.Some? ==> r.value.sha1 == sha1.value && r.value.tth == tth.value
  {
    if sha1.None? || tth.None? then None else Some(Bitprint(sha1.value, tth.value))
  }

  /**
   urn_get_bitprint: both digests of a "urn:bitprint:" URN in a buffer of
   |buf| bytes. Base32 is tried first; base16 only when the SHA1 is not
   base32, and then the TTH must be base16 too.
   */
  function UrnGetBitprint(buf: seq<char>): (r: Option<Bitprint>)
    ensures r.Some? ==> |r.value.sha1| == Sha1RawSize && |r.value.tth| == TthRawSize
    ensures r.Some? ==> CaseMatches(buf, UrnPrefix + BitprintPrefix)
  {
    var start := |UrnPrefix + BitprintPrefix|;
    if |buf| < start + BitprintBase32Size then None
    else if CasePrefix(buf, UrnPrefix + BitprintPrefix).None? then None
    else
      var p := buf[start..];
      var s32 := ParseBase32Sha1(p, Sha1Base32Size);
      if s32.Some? then BothDigests(s32, DotTth(Base32, p, Sha1Base32Size))
      else if |buf| >= start + BitprintBase16Size && ParseBase16Sha1(p, Sha1Base16Size).Some? then
        BothDigests(ParseBase16Sha1(p, Sha1Base16Size), DotTth(Base16, p, Sha1Base16Size))
      else None
  }

  /** The text of a bitprint URN in the given alphabet. */
  function BitprintUrn(a: Alphabet, sha1: seq<byte>, tth: seq<byte>): seq<char> {
    (UrnPrefix + BitprintPrefix) + Encode(a, sha1) + ("." + Encode(a, tth))
  }

  /** A URN made of a prefix, a SHA1 text, a dot and a TTH text, seen from the end of the prefix. */
  lemma SplitUrn(pre: seq<char>, e: seq<char>, t: seq<char>, rest: seq<char>)
    ensures var buf := pre + e + ("." + t) + rest;
      && CasePrefix(buf, pre) == Some(|pre|)
      && |buf| == |pre| + |e| + 1 + |t| + |rest|
      && buf[|pre|..] == e + ("." + t + rest)
  {
    Regroup(pre, e, "." + t, rest);
    AfterPrefix(pre, e + ("." + t) + rest);
    Regroup(e, ".", t, rest);
  }

  /** A bitprint URN begins with its prefix, and the SHA1 text follows it. */
  lemma BitprintUrnParts(a: Alphabet, sha1: seq<byte>, tth: seq<byte>, rest: seq<char>)
    ensures var buf, e, t := BitprintUrn(a, sha1, tth) + rest, Encode(a, sha1), Encode(a, tth);
      && CasePrefix(buf, UrnPrefix + BitprintPrefix) == Some(13)
      && |buf| == 13 + |e| + 1 + |t| + |rest|
      && buf[13..] == e + ("." + t + rest)
  {
    SplitUrn(UrnPrefix + BitprintPrefix, Encode(a, sha1), Encode(a, tth), rest);
  }

  /** After a SHA1 text, the dot and an encoded TTH give back the TTH. */
  lemma DotTthOfEncoding(a: Alphabet, e: seq<char>, tth: seq<byte>, rest: seq<char>)
    requires |tth| == TthRawSize
    ensures |Encode(a, tth)| == TthSize(a)
    ensures DotTth(a, e + ("." + Encode(a, tth) + rest), |e|) == Some(tth)
  {
    var t := Encode(a, tth);
    EncodedSizes(a, tth);
    var p := e + ("." + t + rest);
    assert p[|e|] == '.';
    assert p[|e| + 1 .. |e| + 1 + TthSize(a)] == t;
    DecodeExactEncode(a, tth);
  }

  /** An encoded SHA1 at the start of a text is read back by the parser of its alphabet. */
  lemma ParseSha1OfEncoding(a: Alphabet, sha1: seq<byte>, rest: seq<char>)
    requires |sha1| == Sha1RawSize
    ensures |Encode(a, sha1)| == Sha1Size(a)
    ensures a == Base32 ==> ParseBase32Sha1(Encode(a, sha1) + rest, Sha1Base32Size) == Some(sha1)
    ensures a == Base16 && |rest| >= 1 ==> ParseBase16Sha1(Encode(a, sha1) + rest, Sha1Base16Size) == Some(sha1)
  {
    var e := Encode(a, sha1);
    EncodedSizes(a, sha1);
    assert (e + rest)[..Sha1Size(a)] == e;
    DecodeExactEncode(a, sha1);
  }

  /** Round trip: a base32 bitprint URN gives back both digests. */
  lemma UrnGetBitprintBase32(sha1: seq<byte>, tth: seq<byte>, rest: seq<char>)
    requires |sha1| == Sha1RawSize && |tth| == TthRawSize
    ensures UrnGetBitprint(BitprintUrn(Base32, sha1, tth) + rest) == Some(Bitprint(sha1, tth))
  {
    var e := Encode(Base32, sha1);
    BitprintUrnParts(Base32, sha1, tth, rest);
    ParseSha1OfEncoding(Base32, sha1, "." + Encode(Base32, tth) + rest);
    DotTthOfEncoding(Base32, e, tth, rest);
  }

  /**
   A base16 bitprint URN gives back both digests, unless the first 32
   characters of its SHA1 also read as base32: the SHA1 is then taken as
   base32, no dot follows it, and the whole URN is refused.
   */
  lemma UrnGetBitprintBase16(sha1: seq<byte>, tth: seq<byte>, rest: seq<char>)
    requires |sha1| == Sha1RawSize && |tth| == TthRawSize
    ensures |Encode(Base16, sha1)| == Sha1Base16Size
    ensures var e := Encode(Base16, sha1);
      UrnGetBitprint(BitprintUrn(Base16, sha1, tth) + rest)
        == if InAlphabet(Base32, e[..Sha1Base32Size]) then None else Some(Bitprint(sha1, tth))
  {
    var e := Encode(Base16, sha1);
    var q := "." + Encode(Base16, tth) + rest;
    BitprintUrnParts(Base16, sha1, tth, rest);
    ParseSha1OfEncoding(Base16, sha1, q);
    DotTthOfEncoding(Base16, e, tth, rest);
    assert (e + q)[..Sha1Base32Size] == e[..Sha1Base32Size];
    assert (e + q)[Sha1Base32Size] != '.' by {
      assert DigitOf(Base16, e[Sha1Base32Size]).Some?;
    }
  }

  function Repeat(c: char, n: nat): (s: seq<char>)
    ensures |s| == n && forall i :: 0 <= i < n ==> s[i] == c
  {
    seq(n, i => c)
  }

  /** "urn:bitprint:" then 40 and 48 times 'A' around a dot: a well-formed base16 bitprint. */
  function AllAHexBitprint(): seq<char> {
    UrnPrefix + BitprintPrefix + Repeat('A', Sha1Base16Size) + "." + Repeat('A', TthBase16Size)
  }

  /**
   urn_get_bitprint refuses a well-formed base16 bitprint whose SHA1 text
   begins with 32 characters that are also base32.
   */
  lemma UrnGetBitprintRefusesHex()
    ensures InAlphabet(Base16, Repeat('A', Sha1Base16Size)) && InAlphabet(Base16, Repeat('A', TthBase16Size))
    ensures UrnGetBitprint(AllAHexBitprint()) == None
  {
    var q := Repeat('A', Sha1Base16Size) + "." + Repeat('A', TthBase16Size);
    var buf := AllAHexBitprint();
    assert buf == (UrnPrefix + BitprintPrefix) + q;
    CasePrefixOf(UrnPrefix + BitprintPrefix, q);
    assert buf[13..] == q;
    assert q[..Sha1Base32Size] == Repeat('A', Sha1Base32Size);
    assert q[Sha1Base32Size] == 'A';
  }

  /**
   urn_get_bitprint with the base16 fallback taken whenever the base32
   reading does not go on with the dot, so that a base16 SHA1 that happens
   to begin like base32 is still read as base16.
   */
  function UrnGetBitprintFallback(buf: seq<char>): (r: Option<Bitprint>)
    ensures r.Some? ==> |r.value.sha1| == Sha1RawSize && |r.value.tth| == TthRawSize
    ensures r.Some? ==> CaseMatches(buf, UrnPrefix + BitprintPrefix)
  {
    var start := |UrnPrefix + BitprintPrefix|;
    if |buf| < start + BitprintBase32Size then None
    else if CasePrefix(buf, UrnPrefix + BitprintPrefix).None? then None
    else
      var p := buf[start..];
      var s32 := ParseBase32Sha1(p, Sha1Base32Size);
      if s32.Some? && p[Sha1Base32Size] == '.' then BothDigests(s32, DotTth(Base32, p, Sha1Base32Size))
      else if |buf| >= start + BitprintBase16Size && ParseBase16Sha1(p, Sha1Base16Size).Some? then
        BothDigests(ParseBase16Sha1(p, Sha1Base16Size), DotTth(Base16, p, Sha1Base16Size))
      else None
  }

  /** With the fallback, a base32 bitprint URN is read as before. */
  lemma FallbackBase32(sha1: seq<byte>, tth: seq<byte>, rest: seq<char>)
    requires |sha1| == Sha1RawSize && |tth| == TthRawSize
    ensures UrnGetBitprintFallback(BitprintUrn(Base32, sha1, tth) + rest) == Some(Bitprint(sha1, tth))
  {
    var e := Encode(Base32, sha1);
    BitprintUrnParts(Base32, sha1, tth, rest);
    ParseSha1OfEncoding(Base32, sha1, "." + Encode(Base32, tth) + rest);
    DotTthOfEncoding(Base32, e, tth, rest);
  }

  /** With the fallback, every base16 bitprint URN gives back both digests. */
  lemma FallbackBase16(sha1: seq<byte>, tth: seq<byte>, rest: seq<char>)
    requires |sha1| == Sha1RawSize && |tth| == TthRawSize
    ensures UrnGetBitprintFallback(BitprintUrn(Base16, sha1, tth) + rest) == Some(Bitprint(sha1, tth))
  {
    var e := Encode(Base16, sha1);
    var q := "." + Encode(Base16, tth) + rest;
    BitprintUrnParts(Base16, sha1, tth, rest);
    ParseSha1OfEncoding(Base16, sha1, q);
    DotTthOfEncoding(Base16, e, tth, rest);
    assert (e + q)[Sha1Base32Size] != '.' by {
      assert DigitOf(Base16, e[Sha1Base32Size]).Some?;
    }
  }

  /** Round trip with the fallback: a bitprint URN in either alphabet gives back both digests. */
  lemma UrnGetBitprintFallbackRoundTrip(a: Alphabet, sha1: seq<byte>, tth: seq<byte>, rest: seq<char>)
    requires |sha1| == Sha1RawSize && |tth| == TthRawSize
    ensures UrnGetBitprintFallback(BitprintUrn(a, sha1, tth) + rest) == Some(Bitprint(sha1, tth))
  {
    match a
    case Base32 => FallbackBase32(sha1, tth, rest);
    case Base16 => FallbackBase16(sha1, tth, rest);
  }

  /** The fallback only adds answers: whatever urn_get_bitprint accepts, it accepts alike. */
  lemma FallbackExtends(buf: seq<char>)
    ensures UrnGetBitprint(buf).Some? ==> UrnGetBitprintFallback(buf) == UrnGetBitprint(buf)
  {
  }

  /**
   urn_get_tth: the TTH of a "urn:tree:tiger:" URN, also written
   "urn:tree:tiger/:", in a buffer of |buf| bytes; base32 only.
   */
  function UrnGetTth(buf: seq<char>): (r: Option<seq<byte>>)
    ensures r.Some? ==> |r.value| == TthRawSize
    ensures r.Some? ==> CaseMatches(buf, TigerPrefix)
  {
    var start := |TigerPrefix|;
    if |buf| < start + 1 + TthBase32Size then None
    else if CasePrefix(buf, TigerPrefix).None? then None
    else
      var slash := buf[start] == '/';
      if slash && |buf| < start + 2 + TthBase32Size then None
      else
        var p := if slash then start + 1 else start;
        if buf[p] != ':' then None
        else DecodeExact(Base32, buf[p + 1 .. p + 1 + TthBase32Size], TthRawSize)
  }

  /** Round trip: urn_get_tth reads back the TTH, with or without the slash. */
  lemma UrnGetTthRoundTrip(tth: seq<byte>, slash: bool, rest: seq<char>)
    requires |tth| == TthRawSize
    ensures UrnGetTth(TigerPrefix + (if slash then "/:" else ":") + Encode(Base32, tth) + rest) == Some(tth)
  {
    var sep: seq<char> := if slash then "/:" else ":";
    var e := Encode(Base32, tth);
    var buf := TigerPrefix + sep + e + rest;
    assert buf == TigerPrefix + (sep + e + rest);
    CasePrefixOf(TigerPrefix, sep + e + rest);
    Base32Lengths(tth);
    var p := |TigerPrefix| + |sep| - 1;
    assert buf[p + 1 .. p + 1 + TthBase32Size] == e;
    DecodeExactEncode(Base32, tth);
  }
}
