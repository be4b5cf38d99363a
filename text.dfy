/** The parts of java.lang.String and java.lang.Character the pipeline relies on,
    restricted to ASCII: nullable strings, upper-casing and blankness. */
module Text {

  /** A Java String reference: null, or a sequence of characters. */
  datatype JString = Null | Str(chars: string)

  predicate IsLower(c: char) {
    'a' <= c <= 'z'
  }

  /** Character.toUpperCase on ASCII: lower-case letters move to upper case, all else is kept. */
  function UpperChar(c: char): (u: char)
    ensures !IsLower(u)
    ensures IsLower(c) ==> 'A' <= u <= 'Z' && u as int + 32 == c as int
    ensures !IsLower(c) ==> u == c
  {
    if IsLower(c) then (c as int - 32) as char else c
  }

  /** String.toUpperCase, character by character. */
  function ToUpper(s: string): (r: string)
    ensures |r| == |s|
    ensures forall i :: 0 <= i < |s| ==> r[i] == UpperChar(s[i])
  {
    seq(|s|, i requires 0 <= i < |s| => UpperChar(s[i]))
  }

  /** Character.isWhitespace on ASCII: space, the controls 9 to 13 and the separators 28 to 31. */
  predicate IsWhitespace(c: char) {
    c == ' ' || 9 <= c as int <= 13 || 28 <= c as int <= 31
  }

  /** String.isBlank: empty, or only whitespace. */
  predicate IsBlank(s: string) {
    forall i :: 0 <= i < |s| ==> IsWhitespace(s[i])
  }

  /** String concatenation renders a null reference as "null". */
  function Render(s: JString): string {
    match s
    case Null => "null"
    case Str(chars) => chars
  }

  lemma ToUpperIdempotent(s: string)
    ensures ToUpper(ToUpper(s)) == ToUpper(s)
  {
  }

  /** Upper-casing never turns a non-whitespace character into whitespace, nor the reverse. */
  lemma UpperCharKeepsWhitespace(c: char)
    ensures IsWhitespace(UpperChar(c)) == IsWhitespace(c)
  {
  }

  lemma ToUpperKeepsBlank(s: string)
    ensures IsBlank(ToUpper(s)) == IsBlank(s)
  {
    forall i | 0 <= i < |s| {
      UpperCharKeepsWhitespace(s[i]);
    }
  }
}
