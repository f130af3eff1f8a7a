/** The patient record kept by the record store, and the .NET string
    predicates the store applies to its fields. */
module Patients {

  /** A .NET `string`: a reference, so it may be null. */
  datatype NullableString = Null | Str(value: string)

  /** A patient. `CI` is the national identity number the store looks
      records up by; `Code` is assigned elsewhere and the store never
      writes or reads it. */
  datatype Patient = Patient(
    Name: NullableString,
    LastName: NullableString,
    CI: NullableString,
    BloodGroup: NullableString,
    Code: NullableString)

  /** .NET `char.IsWhiteSpace`: the control characters U+0009 to U+000D and
      U+0085, and every character of the Unicode categories space separator,
      line separator and paragraph separator. */
  predicate IsWhiteSpace(c: char): (b: bool)
    ensures b <==> c in WhiteSpaceChars
  {
    || '\U{9}' <= c <= '\U{D}'
    || c == ' '
    || c == '\U{85}'
    || c == '\U{A0}'
    || c == '\U{1680}'
    || '\U{2000}' <= c <= '\U{200A}'
    || c == '\U{2028}'
    || c == '\U{2029}'
    || c == '\U{202F}'
    || c == '\U{205F}'
    || c == '\U{3000}'
  }

  /** The 25 characters .NET documents as white space, listed one by one. */
  const WhiteSpaceChars: set<char> := {
    '\U{9}', '\U{A}', '\U{B}', '\U{C}', '\U{D}', ' ', '\U{85}', '\U{A0}', '\U{1680}',
    '\U{2000}', '\U{2001}', '\U{2002}', '\U{2003}', '\U{2004}', '\U{2005}',
    '\U{2006}', '\U{2007}', '\U{2008}', '\U{2009}', '\U{200A}',
    '\U{2028}', '\U{2029}', '\U{202F}', '\U{205F}', '\U{3000}'
  }

  /** .NET `string.IsNullOrWhiteSpace`: null, empty, or whitespace only. */
  predicate IsNullOrWhiteSpace(s: NullableString): (b: bool)
    ensures s == Null || s == Str("") ==> b
    ensures !b ==> s.Str? && |s.value| > 0
    ensures !b <==> s.Str? && exists i :: 0 <= i < |s.value| && s.value[i] !in WhiteSpaceChars
  {
    match s
    case Null => true
    case Str(chars) => forall i :: 0 <= i < |chars| ==> IsWhiteSpace(chars[i])
  }

  /** The text a string contributes to an interpolated string `$"{s}"`:
      null contributes nothing. */
  function Text(s: NullableString): (t: string)
    ensures s.Str? ==> Str(t) == s
    ensures |t| == 0 <==> s == Null || s == Str("")
  {
    match s
    case Null => ""
    case Str(chars) => chars
  }
}
