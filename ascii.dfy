/**
  ASCII character classes and case mapping.

  The Swift code uses `Character.isUppercase`, `isLowercase`, `lowercased()`,
  `uppercased()` and `CharacterSet.alphanumerics`, which are Unicode-aware.
  This model restricts them to their ASCII meaning: only 'A'..'Z' and 'a'..'z'
  have a case, and every other character maps to itself.
 */
module Ascii {

  predicate IsUpper(c: char) { 'A' <= c <= 'Z' }

  predicate IsLower(c: char) { 'a' <= c <= 'z' }

  predicate IsDigit(c: char) { '0' <= c <= '9' }

  predicate IsLetter(c: char) { IsUpper(c) || IsLower(c) }

  predicate IsAlnum(c: char) { IsLetter(c) || IsDigit(c) }

  /** The complement of `IsAlnum` (Foundation's `.alphanumerics.inverted`). */
  predicate NotAlnum(c: char) { !IsAlnum(c) }

  /** `Character.lowercased()` on ASCII. */
  function Lower(c: char): (r: char)
    ensures !IsUpper(r)
    ensures IsUpper(c) ==> IsLower(r) && r as int == c as int + 32
    ensures !IsUpper(c) ==> r == c
  {
    if IsUpper(c) then (c as int + 32) as char else c
  }

  /** `Character.uppercased()` on ASCII. */
  function Upper(c: char): (r: char)
    ensures !IsLower(r)
    ensures IsLower(c) ==> IsUpper(r) && r as int == c as int - 32
    ensures !IsLower(c) ==> r == c
  {
    if IsLower(c) then (c as int - 32) as char else c
  }

  /** Lowering undoes raising on a lowercase letter, and raising undoes lowering on an uppercase one. */
  lemma CaseInverses(c: char)
    ensures IsLower(c) ==> Lower(Upper(c)) == c
    ensures IsUpper(c) ==> Upper(Lower(c)) == c
  {
  }

  /** Every character of `s` is free of uppercase letters. */
  predicate NoUpper(s: string)
  {
    forall k :: 0 <= k < |s| ==> !IsUpper(s[k])
  }

  /** `s` is a non-empty word of lowercase ASCII letters. */
  predicate LowerWord(s: string)
  {
    |s| > 0 && forall k :: 0 <= k < |s| ==> IsLower(s[k])
  }
}
