/**
 * The identifier normalisation of a block name: `name.replace(" ", "-")`
 * followed by `to_lowercase()`, with case mapping restricted to ASCII.
 */
module Ascii {

  predicate IsAsciiUpper(c: char) {
    'A' <= c <= 'Z'
  }

  /** ASCII lower-casing: `A`-`Z` become `a`-`z`, every other character is unchanged. */
  function ToLowerChar(c: char): (l: char)
    ensures !IsAsciiUpper(l)
    ensures IsAsciiUpper(c) ==> l as int == c as int + 32
    ensures !IsAsciiUpper(c) ==> l == c
  {
    if IsAsciiUpper(c) then (c as int + 32) as char else c
  }

  /** `s.replace(" ", "-")`: every space becomes one hyphen. */
  function ReplaceSpaces(s: string): string {
    seq(|s|, i requires 0 <= i < |s| => if s[i] == ' ' then '-' else s[i])
  }

  /** `s.to_lowercase()` for ASCII text. */
  function ToLower(s: string): string {
    seq(|s|, i requires 0 <= i < |s| => ToLowerChar(s[i]))
  }

  /** The part of a block's constant name that follows `unicode-block-`. */
  function Identifier(name: string): string {
    ToLower(ReplaceSpaces(name))
  }

  /**
   * The identifier has the name's length; at each position a space became a
   * hyphen and any other character was only lower-cased, so no space and no
   * upper-case letter remains.
   */
  lemma IdentifierAt(name: string)
    ensures |Identifier(name)| == |name|
    ensures forall i :: 0 <= i < |name| ==>
      Identifier(name)[i] == if name[i] == ' ' then '-' else ToLowerChar(name[i])
    ensures forall i :: 0 <= i < |name| ==>
      Identifier(name)[i] != ' ' && !IsAsciiUpper(Identifier(name)[i])
  {
  }

  /** Normalising an identifier again changes nothing. */
  lemma IdentifierIdempotent(name: string)
    ensures Identifier(Identifier(name)) == Identifier(name)
  {
  }

  /** A name that is already lower-case and hyphenated is its own identifier. */
  lemma IdentifierOfNormalName(name: string)
    requires forall i :: 0 <= i < |name| ==> name[i] != ' ' && !IsAsciiUpper(name[i])
    ensures Identifier(name) == name
  {
  }
}
