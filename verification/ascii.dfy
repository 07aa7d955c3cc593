/**
  ASCII case folding, as a C `tolower`/`toupper` in the "C" locale does it.
  Flag matching in the shell is case-insensitive; only the 26 ASCII letters
  change case, every other character is left alone.
 */
module Ascii {

  predicate IsUpper(c: char) { 'A' <= c <= 'Z' }

  predicate IsLowerLetter(c: char) { 'a' <= c <= 'z' }

  /** The lower-case form of one character. */
  function Lower(c: char): (r: char)
    ensures !IsUpper(r)
    ensures IsUpper(c) ==> IsLowerLetter(r) && r as int == c as int + 32
    ensures !IsUpper(c) ==> r == c
  {
    if IsUpper(c) then (c as int + 32) as char else c
  }

  /** The upper-case form of one character. */
  function Upper(c: char): (r: char)
    ensures IsLowerLetter(c) ==> IsUpper(r) && Lower(r) == c
    ensures !IsLowerLetter(c) ==> r == c
  {
    if IsLowerLetter(c) then (c as int - 32) as char else c
  }

  /** The lower-case form of a whole string, character by character. */
  function LowerAll(s: string): (r: string)
    ensures |r| == |s|
    ensures forall i | 0 <= i < |s| :: r[i] == Lower(s[i])
  {
    seq(|s|, i requires 0 <= i < |s| => Lower(s[i]))
  }

  /** A string with no upper-case ASCII letter (every name in the flag table). */
  predicate NoUpper(s: string)
  {
    forall i | 0 <= i < |s| :: !IsUpper(s[i])
  }

  /**
    `w` spells `s` with some of its letters capitalised: the independent,
    character-by-character reading of "equal up to case".
   */
  predicate CaseVariant(w: string, s: string)
  {
    |w| == |s| && forall i | 0 <= i < |w| :: w[i] == s[i] || w[i] == Upper(s[i])
  }

  lemma LowerAllIdempotent(s: string)
    ensures LowerAll(LowerAll(s)) == LowerAll(s)
  {
  }

  lemma LowerAllSlice(s: string, i: nat)
    requires i <= |s|
    ensures LowerAll(s)[i..] == LowerAll(s[i..])
  {
  }
}
