// The repository's own fnmatch(): '*' matches any substring, other characters match modulo the case bit.
module Glob {
  import opened Bytes

  const STAR: byte := 42
  const FNM_NOMATCH := 1

  /** The byte with bit 0x20 flipped. */
  function FlipCase(c: byte): byte {
    if (c / 32) % 2 == 1 then c - 32 else c + 32
  }

  /** No bit differs except, when folding case, bit 0x20. */
  predicate SameChar(a: byte, b: byte, casefold: bool) {
    a == b || (casefold && a == FlipCase(b))
  }

  /** The string is in the language of the pattern. */
  predicate Matches(pattern: seq<byte>, str: seq<byte>, casefold: bool)
    decreases |pattern|
  {
    if pattern == [] then str == []
    else if pattern[0] == STAR then exists k :: 0 <= k <= |str| && Matches(pattern[1..], str[k..], casefold)
    else str != [] && SameChar(pattern[0], str[0], casefold) && Matches(pattern[1..], str[1..], casefold)
  }

  /** Some suffix of the string from `from` on matches. */
  predicate SuffixMatches(pattern: seq<byte>, str: seq<byte>, from: nat, casefold: bool) {
    exists k :: from <= k <= |str| && Matches(pattern, str[k..], casefold)
  }

  method Fnmatch(pattern: seq<byte>, str: seq<byte>, casefold: bool) returns (r: int)
    ensures r == 0 <==> Matches(pattern, str, casefold)
    ensures r == 0 || r == FNM_NOMATCH
    decreases |pattern|
  {
    hide SameChar, Matches, SuffixMatches;
    var p, s := 0, 0;
    ghost var goal := Matches(pattern, str, casefold);
    assert pattern[0..] == pattern && str[0..] == str;
    while p < |pattern| && s < |str|
      invariant p <= |pattern| && s <= |str| && Matches(pattern[p..], str[s..], casefold) == goal
      decreases |pattern| - p
    {
      if pattern[p] == STAR {
        StarStep(pattern, p, str, s, casefold);
        p := p + 1;
        while s < |str|
          invariant s <= |str| && SuffixMatches(pattern[p..], str, s, casefold) == goal
        {
          SuffixStep(pattern[p..], str, s, casefold);
          r := Fnmatch(pattern[p..], str[s..], casefold);
          if r == 0 { return 0; }
          s := s + 1;
        }
        SuffixStep(pattern[p..], str, s, casefold);
      } else {
        CharStep(pattern, p, str, s, casefold);
        if !SameChar(pattern[p], str[s], casefold) { return FNM_NOMATCH; }
        p, s := p + 1, s + 1;
      }
    }
    if p == |pattern| { PatternEnd(pattern, str, s, casefold); }
    if s < |str| { return FNM_NOMATCH; }
    while p < |pattern|
      invariant p <= |pattern| && Matches(pattern[p..], str[s..], casefold) == goal
    {
      OnlyStars(pattern, p, str, casefold);
      if pattern[p] != STAR { return FNM_NOMATCH; }
      p := p + 1;
    }
    PatternEnd(pattern, str, s, casefold);
    return 0;
  }

  lemma CharStep(pattern: seq<byte>, p: nat, str: seq<byte>, s: nat, casefold: bool)
    requires p < |pattern| && pattern[p] != STAR && s < |str|
    ensures Matches(pattern[p..], str[s..], casefold)
       <==> SameChar(pattern[p], str[s], casefold) && Matches(pattern[p + 1..], str[s + 1..], casefold)
  {
    assert pattern[p..][1..] == pattern[p + 1..] && str[s..][1..] == str[s + 1..];
  }

  lemma SuffixStep(pattern: seq<byte>, str: seq<byte>, s: nat, casefold: bool)
    requires s <= |str|
    ensures SuffixMatches(pattern, str, s, casefold)
       <==> Matches(pattern, str[s..], casefold) || (s < |str| && SuffixMatches(pattern, str, s + 1, casefold))
  {
  }

  lemma PatternEnd(pattern: seq<byte>, str: seq<byte>, s: nat, casefold: bool)
    requires s <= |str|
    ensures Matches(pattern[|pattern|..], str[s..], casefold) <==> s == |str|
  {
  }

  lemma StarStep(pattern: seq<byte>, p: nat, str: seq<byte>, s: nat, casefold: bool)
    requires p < |pattern| && pattern[p] == STAR && s <= |str|
    ensures Matches(pattern[p..], str[s..], casefold) == SuffixMatches(pattern[p + 1..], str, s, casefold)
  {
    var rest, tail := pattern[p + 1..], str[s..];
    assert pattern[p..][1..] == rest;
    forall k | 0 <= k <= |tail| ensures tail[k..] == str[s + k..] {}
    if SuffixMatches(rest, str, s, casefold) {
      var k :| s <= k <= |str| && Matches(rest, str[k..], casefold);
      assert Matches(rest, tail[k - s..], casefold);
    }
  }

  lemma OnlyStars(pattern: seq<byte>, p: nat, str: seq<byte>, casefold: bool)
    requires p < |pattern|
    ensures Matches(pattern[p..], str[|str|..], casefold)
       <==> pattern[p] == STAR && Matches(pattern[p + 1..], str[|str|..], casefold)
  {
    assert pattern[p..][1..] == pattern[p + 1..] && str[|str|..][0..] == str[|str|..];
  }

  // ----- The language by substitution -----

  function Stars(pattern: seq<byte>): nat {
    if pattern == [] then 0 else (if pattern[0] == STAR then 1 else 0) + Stars(pattern[1..])
  }

  /** The pattern with its stars replaced by the given strings. */
  function Substitute(pattern: seq<byte>, words: seq<seq<byte>>): seq<byte>
    requires |words| == Stars(pattern)
  {
    if pattern == [] then []
    else if pattern[0] == STAR then words[0] + Substitute(pattern[1..], words[1..])
    else [pattern[0]] + Substitute(pattern[1..], words)
  }

  predicate SameText(a: seq<byte>, b: seq<byte>, casefold: bool) {
    |a| == |b| && forall i :: 0 <= i < |a| ==> SameChar(a[i], b[i], casefold)
  }

  /** A match is witnessed by the substrings its stars stand for. */
  lemma {:induction false} MatchHasWords(pattern: seq<byte>, str: seq<byte>, casefold: bool)
      returns (words: seq<seq<byte>>)
    requires Matches(pattern, str, casefold)
    ensures |words| == Stars(pattern) && SameText(Substitute(pattern, words), str, casefold)
    decreases |pattern|
  {
    hide SameChar;
    if pattern == [] {
      words := [];
    } else if pattern[0] == STAR {
      var k :| 0 <= k <= |str| && Matches(pattern[1..], str[k..], casefold);
      var rest := MatchHasWords(pattern[1..], str[k..], casefold);
      words := [str[..k]] + rest;
      assert words[1..] == rest;
      SameTextConcat(str[..k], str[..k], Substitute(pattern[1..], rest), str[k..], casefold);
      assert str == str[..k] + str[k..];
    } else {
      words := MatchHasWords(pattern[1..], str[1..], casefold);
      SameTextConcat([pattern[0]], str[..1], Substitute(pattern[1..], words), str[1..], casefold);
      assert str == str[..1] + str[1..];
    }
  }

  lemma SameTextConcat(a: seq<byte>, b: seq<byte>, c: seq<byte>, d: seq<byte>, casefold: bool)
    requires SameText(a, b, casefold) || a == b
    requires SameText(c, d, casefold)
    ensures SameText(a + c, b + d, casefold)
  {
  }

  lemma {:induction false} WordsMatch(pattern: seq<byte>, words: seq<seq<byte>>, str: seq<byte>, casefold: bool)
    requires |words| == Stars(pattern) && SameText(Substitute(pattern, words), str, casefold)
    ensures Matches(pattern, str, casefold)
    decreases |pattern|
  {
    hide SameChar;
    if pattern != [] {
      if pattern[0] == STAR {
        var text := Substitute(pattern[1..], words[1..]);
        var k := |words[0]|;
        assert forall i :: 0 <= i < |text| ==>
                   text[i] == Substitute(pattern, words)[k + i] && str[k..][i] == str[k + i];
        WordsMatch(pattern[1..], words[1..], str[k..], casefold);
      } else {
        var text := Substitute(pattern[1..], words);
        assert forall i :: 0 <= i < |text| ==> text[i] == Substitute(pattern, words)[1 + i];
        assert Substitute(pattern, words)[0] == pattern[0];
        WordsMatch(pattern[1..], words, str[1..], casefold);
      }
    }
  }

  /**
   * Main result: the strings fnmatch accepts are the ones got from the pattern by putting any string for each
   * star, up to the case bit.
   */
  lemma GlobLanguage(pattern: seq<byte>, str: seq<byte>, casefold: bool)
    ensures Matches(pattern, str, casefold) <==>
      exists words: seq<seq<byte>> :: |words| == Stars(pattern) && SameText(Substitute(pattern, words), str, casefold)
  {
    if Matches(pattern, str, casefold) {
      var words := MatchHasWords(pattern, str, casefold);
    }
    if words: seq<seq<byte>> :| |words| == Stars(pattern) && SameText(Substitute(pattern, words), str, casefold) {
      WordsMatch(pattern, words, str, casefold);
    }
  }

  /** The bytes differ in bit 0x20 and no other. */
  lemma CaseBit(a: byte, b: byte)
    ensures a == FlipCase(b) <==> (a == b + 32 || b == a + 32) && a / 64 == b / 64
  {
  }

  /** Two letters match if they are the same, or, when folding case, differ in case. */
  lemma LettersMatch(a: byte, b: byte, casefold: bool)
    requires (65 <= a <= 90 || 97 <= a <= 122) && (65 <= b <= 90 || 97 <= b <= 122)
    ensures SameChar(a, b, casefold) <==> a == b || (casefold && (a == b + 32 || b == a + 32))
  {
  }

  /** "*" matches every string. */
  lemma StarMatchesAll(str: seq<byte>, casefold: bool)
    ensures Matches([42], str, casefold)
  {
    var pattern := [STAR];
    assert pattern[1..] == [] && str[|str|..] == [];
    assert Matches(pattern[1..], str[|str|..], casefold);
  }
}
