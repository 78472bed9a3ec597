/**
 gm_sanitize_filename: turns a suggested file name into one that is safe
 to create. A name of FILENAME_MAXBYTES bytes or more is first cut down,
 keeping its extension when that is short enough and never splitting a
 UTF-8 character; then control characters, the directory separator, a
 leading dot and, on request, spaces and shell meta characters are each
 replaced by an underscore.

 The name is a C string (a byte sequence without NUL) already converted to
 normalized UTF-8; the locale conversion itself is not modelled.
 */
module GmSanitize {
  import opened Options
  import opened Bytes

  /** Maximum bytes in a file name, the terminating NUL included. */
  const FilenameMaxBytes: nat := 256

  const Underscore: byte := 95
  /** G_DIR_SEPARATOR on Unix. */
  const Slash: byte := 47
  const Space: byte := 32
  const Dot: byte := 46
  const Del: byte := 127

  /** The shell meta characters replaced when asked: $&*\/\\`:;()'"<>?|~ and DEL. */
  const Evil: set<byte> := {36, 38, 42, 47, 92, 96, 58, 59, 40, 41, 39, 34, 60, 62, 63, 124, 126, 127}

  predicate IsAsciiCntrl(c: byte) {
    c < 32 || c == Del
  }

  /** Whether byte `c` is replaced; `atStart` says it is the first byte of the name. */
  predicate NeedsReplace(c: byte, atStart: bool, noSpaces: bool, noEvil: bool) {
    || c < 32
    || IsAsciiCntrl(c)
    || c == Slash
    || (c == Space && noSpaces)
    || (atStart && c == Dot)
    || (noEvil && c in Evil)
  }

  /** No byte of `s` would be replaced. */
  predicate IsClean(s: seq<byte>, noSpaces: bool, noEvil: bool) {
    forall i :: 0 <= i < |s| ==> !NeedsReplace(s[i], i == 0, noSpaces, noEvil)
  }

  /** The replacement loop: every offending byte becomes an underscore. */
  function Replace(s: seq<byte>, noSpaces: bool, noEvil: bool): (r: seq<byte>)
    ensures |r| == |s|
  {
    seq(|s|, i requires 0 <= i < |s| => if NeedsReplace(s[i], i == 0, noSpaces, noEvil) then Underscore else s[i])
  }

  /**
   After replacement nothing offends any more, a byte changes exactly when
   it offended, and a changed byte is an underscore.
   */
  lemma ReplaceMeaning(s: seq<byte>, noSpaces: bool, noEvil: bool)
    ensures var r := Replace(s, noSpaces, noEvil);
      && IsClean(r, noSpaces, noEvil)
      && (forall i :: 0 <= i < |s| ==> (r[i] != s[i] <==> NeedsReplace(s[i], i == 0, noSpaces, noEvil)))
      && (forall i :: 0 <= i < |s| && r[i] != s[i] ==> r[i] == Underscore)
  {
  }

  /** A name with nothing to replace comes back as it is. */
  lemma ReplaceClean(s: seq<byte>, noSpaces: bool, noEvil: bool)
    requires IsClean(s, noSpaces, noEvil)
    ensures Replace(s, noSpaces, noEvil) == s
  {
  }

  /** Replacing twice is replacing once. */
  lemma ReplaceIdempotent(s: seq<byte>, noSpaces: bool, noEvil: bool)
    ensures Replace(Replace(s, noSpaces, noEvil), noSpaces, noEvil) == Replace(s, noSpaces, noEvil)
  {
    ReplaceMeaning(s, noSpaces, noEvil);
    ReplaceClean(Replace(s, noSpaces, noEvil), noSpaces, noEvil);
  }

  /** strrchr(s, '.'): the position of the last dot. */
  function LastDot(s: seq<byte>): (d: Option<nat>)
    ensures d.Some? ==> d.value < |s| && s[d.value] == Dot
    ensures d.Some? ==> forall j :: d.value < j < |s| ==> s[j] != Dot
    ensures d.None? ==> forall j :: 0 <= j < |s| ==> s[j] != Dot
    decreases |s|
  {
    if |s| == 0 then None
    else if s[|s| - 1] == Dot then Some(|s| - 1)
    else LastDot(s[..|s| - 1])
  }

  /** A UTF-8 continuation byte, 10xxxxxx. */
  predicate IsContinuation(b: byte) {
    b / 64 == 2
  }

  /**
   How many bytes utf8_strlcpy keeps when at most `max` fit: the longest
   prefix of at most `max` bytes that does not end inside a UTF-8
   character.
   */
  function Utf8Cut(s: seq<byte>, max: nat): (j: nat)
    ensures j <= max && j <= |s|
    ensures j == 0 || j == |s| || !IsContinuation(s[j])
    ensures forall k :: j < k <= max && k <= |s| ==> k < |s| && IsContinuation(s[k])
    decreases max
  {
    if max >= |s| then |s|
    else if max == 0 || !IsContinuation(s[max]) then max
    else Utf8Cut(s, max - 1)
  }

  /**
   Where the kept extension starts: at the last dot when the extension and
   its NUL fit in FILENAME_MAXBYTES, otherwise at the end (no extension).
   */
  function ExtStart(s: seq<byte>): (e: nat)
    ensures e <= |s|
    ensures e < |s| ==> s[e] == Dot && |s| - e + 1 < FilenameMaxBytes
    ensures e < |s| ==> forall k :: e < k < |s| ==> s[k] != Dot
    ensures e == |s| ==> forall k :: 0 <= k < |s| && s[k] == Dot ==> |s| - k + 1 >= FilenameMaxBytes
  {
    var dot := LastDot(s);
    if dot.Some? && |s| - dot.value + 1 < FilenameMaxBytes then dot.value else |s|
  }

  /** ext_size: the extension's bytes and its NUL, or 0 without extension. */
  function ExtSize(s: seq<byte>): (n: nat)
    ensures n < FilenameMaxBytes
    ensures n == 0 <==> ExtStart(s) == |s|
  {
    if ExtStart(s) < |s| then |s| - ExtStart(s) + 1 else 0
  }

  /** The number of leading bytes kept: what fits before the extension and the NUL. */
  function KeptPrefix(s: seq<byte>): (j: nat)
    ensures j + ExtSize(s) < FilenameMaxBytes && j <= |s|
    ensures j == 0 || j == |s| || !IsContinuation(s[j])
  {
    Utf8Cut(s, FilenameMaxBytes - ExtSize(s) - 1)
  }

  /**
   The length check: a name of FILENAME_MAXBYTES bytes or more keeps as
   much of its start as fits and then its extension.
   */
  function Truncate(s: seq<byte>): (t: seq<byte>)
  {
    if |s| < FilenameMaxBytes then s
    else s[..KeptPrefix(s)] + s[ExtStart(s)..]
  }

  /**
   A short name is kept; a long one becomes shorter than FILENAME_MAXBYTES:
   the start of the name cut on a character boundary, followed by the
   extension from the last dot on when that is short enough.
   */
  lemma TruncateMeaning(s: seq<byte>)
    ensures |s| < FilenameMaxBytes ==> Truncate(s) == s
    ensures |Truncate(s)| < FilenameMaxBytes
    ensures |s| >= FilenameMaxBytes ==>
      var t, j, e := Truncate(s), KeptPrefix(s), ExtStart(s);
      && j <= e && |t| == j + (|s| - e)
      && t[..j] == s[..j] && t[j..] == s[e..]
  {
    if |s| >= FilenameMaxBytes {
      var t, j, e := Truncate(s), KeptPrefix(s), ExtStart(s);
      assert j < e;
      assert t[..j] == s[..j];
      assert t[j..] == s[e..];
    }
  }

  /** A long name with a short enough extension keeps that extension at its end. */
  lemma TruncateKeepsExtension(s: seq<byte>, d: nat)
    requires |s| >= FilenameMaxBytes
    requires LastDot(s) == Some(d) && |s| - d + 1 < FilenameMaxBytes
    ensures var t := Truncate(s);
      |t| >= |s| - d && t[|t| - (|s| - d)..] == s[d..]
  {
    TruncateMeaning(s);
  }

  /** Truncation keeps a C string a C string. */
  lemma TruncateCString(s: seq<byte>)
    requires IsCString(s)
    ensures IsCString(Truncate(s))
  {
    if |s| >= FilenameMaxBytes {
      TruncateMeaning(s);
      var t, j, e := Truncate(s), KeptPrefix(s), ExtStart(s);
      forall i | 0 <= i < |t|
        ensures t[i] != 0
      {
        if i < j {
          assert t[i] == t[..j][i];
        } else {
          assert t[i] == t[j..][i - j] == s[e + (i - j)];
        }
      }
    }
  }

  /** gm_sanitize_filename on the normalized name. */
  function Sanitize(s: seq<byte>, noSpaces: bool, noEvil: bool): (r: seq<byte>)
    requires IsCString(s)
  {
    Replace(Truncate(s), noSpaces, noEvil)
  }

  /**
   The result is a C string shorter than FILENAME_MAXBYTES with nothing
   left to replace; a short, clean name is returned unchanged.
   */
  lemma SanitizeMeaning(s: seq<byte>, noSpaces: bool, noEvil: bool)
    requires IsCString(s)
    ensures var r := Sanitize(s, noSpaces, noEvil);
      && IsCString(r)
      && |r| < FilenameMaxBytes
      && IsClean(r, noSpaces, noEvil)
    ensures |s| < FilenameMaxBytes && IsClean(s, noSpaces, noEvil) ==> Sanitize(s, noSpaces, noEvil) == s
  {
    var t := Truncate(s);
    TruncateMeaning(s);
    TruncateCString(s);
    ReplaceMeaning(t, noSpaces, noEvil);
    if |s| < FilenameMaxBytes && IsClean(s, noSpaces, noEvil) {
      ReplaceClean(s, noSpaces, noEvil);
    }
  }

  /** Sanitizing a sanitized name changes nothing. */
  lemma SanitizeIdempotent(s: seq<byte>, noSpaces: bool, noEvil: bool)
    requires IsCString(s)
    ensures IsCString(Sanitize(s, noSpaces, noEvil))
    ensures Sanitize(Sanitize(s, noSpaces, noEvil), noSpaces, noEvil) == Sanitize(s, noSpaces, noEvil)
  {
    SanitizeMeaning(s, noSpaces, noEvil);
    SanitizeMeaning(Sanitize(s, noSpaces, noEvil), noSpaces, noEvil);
  }
}
