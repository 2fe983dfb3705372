/** The characters a dictionary word may contain, the "C"-locale case folding the
    dictionary applies to them, and the mapping of each one to a child slot. */
module Chars {

  /** Number of child slots in a trie node: 26 letters and the apostrophe. */
  const N: nat := 27

  /** The slot reserved for the apostrophe. */
  const ApostropheSlot: nat := 26

  predicate IsUpper(c: char) { 'A' <= c <= 'Z' }

  predicate IsLowerLetter(c: char) { 'a' <= c <= 'z' }

  /** A letter of either case, or the apostrophe. */
  predicate IsValidChar(c: char) { c == '\'' || IsLowerLetter(c) || IsUpper(c) }

  predicate IsValidWord(s: string) { forall i :: 0 <= i < |s| ==> IsValidChar(s[i]) }

  /** `tolower` in the "C" locale: an upper-case ASCII letter moves to its lower-case
      partner, every other character is returned unchanged. */
  function ToLower(c: char): char
  {
    if IsUpper(c) then (c as int + 32) as char else c
  }

  /** The child slot of a character: the apostrophe gets the last slot, a letter of
      either case its 0-based position in the alphabet. */
  function Hash(c: char): (h: nat)
    requires IsValidChar(c)
    ensures h < N
    ensures h == ApostropheSlot <==> c == '\''
    ensures IsLowerLetter(c) ==> h == c as int - 'a' as int
    ensures IsUpper(c) ==> h == c as int - 'A' as int
  {
    if c == '\'' then ApostropheSlot else ToLower(c) as int - 'a' as int
  }

  /** The lower-case character a slot stands for: the inverse of `Hash`. */
  function Letter(h: nat): (c: char)
    requires h < N
    ensures IsValidChar(c) && !IsUpper(c)
    ensures Hash(c) == h
  {
    if h == ApostropheSlot then '\'' else ('a' as int + h) as char
  }

  /** Folding the case of a character does not move it to another slot, and the
      slot's character is the folded one. */
  lemma HashFoldsCase(c: char)
    requires IsValidChar(c)
    ensures IsValidChar(ToLower(c)) && Hash(ToLower(c)) == Hash(c)
    ensures Letter(Hash(c)) == ToLower(c)
  {
  }

  /** Two valid characters share a slot exactly when they agree after case folding;
      in particular `Hash` is injective on lower-case letters and the apostrophe. */
  lemma HashInjective(c: char, d: char)
    requires IsValidChar(c) && IsValidChar(d)
    ensures Hash(c) == Hash(d) <==> ToLower(c) == ToLower(d)
  {
  }

  /** The lower-cased copy of a string that check compares against. */
  function Lower(s: string): (r: string)
    ensures |r| == |s|
    ensures forall i :: 0 <= i < |s| ==> r[i] == ToLower(s[i])
  {
    if s == [] then [] else [ToLower(s[0])] + Lower(s[1..])
  }

  /** Lower-casing keeps a word valid, and doing it twice changes nothing. */
  lemma LowerValid(s: string)
    requires IsValidWord(s)
    ensures IsValidWord(Lower(s))
    ensures Lower(Lower(s)) == Lower(s)
  {
  }

  /** Two non-empty strings fold to the same string exactly when their first
      characters do and the rest of them do. */
  lemma LowerCons(q: string, w: string)
    requires |q| > 0 && |w| > 0
    ensures Lower(q) == Lower(w) <==> ToLower(q[0]) == ToLower(w[0]) && Lower(q[1..]) == Lower(w[1..])
  {
    if Lower(q) == Lower(w) {
      assert Lower(q[1..]) == Lower(q)[1..];
      assert Lower(w[1..]) == Lower(w)[1..];
    }
  }
}
