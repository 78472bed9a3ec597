/**
 C string helpers: a string is the characters up to the first NUL, or up
 to the end of the buffer when it holds none.
 */
module CStrings {
  import opened Options

  const Nul: char := 0 as char

  /** strlen: the position of the first NUL. */
  function CStrLen(s: seq<char>): (n: nat)
    ensures n <= |s|
    ensures forall i :: 0 <= i < n ==> s[i] != Nul
    ensures n < |s| ==> s[n] == Nul
    decreases |s|
  {
    if |s| == 0 || s[0] == Nul then 0 else 1 + CStrLen(s[1..])
  }

  /** A string without NUL runs to the end of its buffer. */
  lemma CStrLenNoNul(s: seq<char>)
    requires forall i :: 0 <= i < |s| ==> s[i] != Nul
    ensures CStrLen(s) == |s|
  {
  }

  /** clamp_strlen: the length of the string, but at most `limit`. */
  function ClampStrlen(s: seq<char>, limit: nat): (n: nat)
    ensures n <= limit && n <= |s|
    ensures forall i :: 0 <= i < n ==> s[i] != Nul
    ensures n < limit ==> n == |s| || s[n] == Nul
  {
    var len := CStrLen(s);
    if len < limit then len else limit
  }

  /** ASCII lower-casing; every other character is left alone. */
  function ToLower(c: char): (d: char)
    ensures 'A' <= c <= 'Z' ==> d as int == c as int + 32
    ensures !('A' <= c <= 'Z') ==> d == c
  {
    if 'A' <= c <= 'Z' then (c as int + 32) as char else c
  }

  /** The first |prefix| characters of s match prefix, ignoring ASCII case. */
  predicate CaseMatches(s: seq<char>, prefix: seq<char>) {
    |prefix| <= |s| && forall i :: 0 <= i < |prefix| ==> ToLower(s[i]) == ToLower(prefix[i])
  }

  /**
   is_strcaseprefix: the position right after `prefix` when `s` begins
   with it, ignoring ASCII case, and nothing otherwise. The prefix holds no
   NUL, so a match never runs past the end of the string.
   */
  function CasePrefix(s: seq<char>, prefix: seq<char>): (res: Option<nat>)
    ensures res.Some? ==> res.value == |prefix| && |prefix| <= |s|
  {
    if CaseMatches(s, prefix) then Some(|prefix|) else None
  }

  /**
   Matching a prefix made of two parts is matching the first part and then
   the second on what follows it.
   */
  lemma CasePrefixSplit(s: seq<char>, p: seq<char>, q: seq<char>)
    ensures CaseMatches(s, p + q) <==> CaseMatches(s, p) && CaseMatches(s[|p|..], q)
  {
    if CaseMatches(s, p) && CaseMatches(s[|p|..], q) {
      forall i | 0 <= i < |p + q|
        ensures ToLower(s[i]) == ToLower((p + q)[i])
      {
        if i >= |p| {
          assert s[i] == s[|p|..][i - |p|];
        }
      }
    }
    if CaseMatches(s, p + q) {
      forall i | 0 <= i < |q|
        ensures ToLower(s[|p|..][i]) == ToLower(q[i])
      {
        assert (p + q)[|p| + i] == q[i];
      }
    }
  }

  /** A string that begins with `prefix` matches it. */
  lemma CasePrefixOf(prefix: seq<char>, rest: seq<char>)
    ensures CasePrefix(prefix + rest, prefix) == Some(|prefix|)
  {
    assert CaseMatches(prefix + rest, prefix);
  }
}
