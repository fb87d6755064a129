/**
 Shared vocabulary of the model: optional values, the three error kinds the
 services raise, the result of a store-changing operation, and the string
 helpers the blank-field guards and the text search rely on.
 */
module Common {

  /** Java's nullable reference or `Optional`: `None` stands for null/empty. */
  datatype Option<+T> = None | Some(value: T) {
    function GetOr(default: T): T {
      match this
      case Some(v) => v
      case None => default
    }
  }

  /** The three exception kinds the services throw (mapped by the HTTP layer
      to 404, 400 and 403); each carries the reason the check failed. */
  datatype Error =
    | NotFound(reason: string)
    | Validation(reason: string)
    | Forbidden(reason: string)

  /** A value or the exception that replaced it. */
  datatype Result<+T> = Ok(value: T) | Err(error: Error)

  /** What a store-changing operation leaves behind: the store after the call
      and what the call returned (or threw). */
  datatype Step<+S, +T> = Step(store: S, result: Result<T>)

  /** `Character.isWhitespace`: the Unicode space, line and paragraph
      separators except the no-break spaces, plus the ASCII controls
      U+0009..U+000D and U+001C..U+001F. */
  predicate IsWhitespace(c: char) {
    || c == ' '
    || '\t' <= c <= '\r'
    || '\U{1C}' <= c <= '\U{1F}'
    || c == '\U{1680}'
    || ('\U{2000}' <= c <= '\U{200A}' && c != '\U{2007}')
    || c == '\U{2028}' || c == '\U{2029}'
    || c == '\U{205F}' || c == '\U{3000}'
  }

  /** `String.isBlank`: empty or whitespace only. */
  predicate IsBlank(s: string) {
    forall i :: 0 <= i < |s| ==> IsWhitespace(s[i])
  }

  /** `Character.toLowerCase` on ASCII, Latin-1 and the basic Cyrillic block;
      every other character is left as it is. */
  function LowerChar(c: char): char {
    if 'A' <= c <= 'Z' || ('\U{C0}' <= c <= '\U{DE}' && c != '\U{D7}') || '\U{410}' <= c <= '\U{42F}' then
      (c as int + 32) as char
    else if '\U{400}' <= c <= '\U{40F}' then
      (c as int + 80) as char
    else
      c
  }

  /** `String.toLowerCase`, character by character. */
  function Lower(s: string): (r: string)
    ensures |r| == |s|
    ensures forall i :: 0 <= i < |s| ==> r[i] == LowerChar(s[i])
  {
    seq(|s|, i requires 0 <= i < |s| => LowerChar(s[i]))
  }

  /** Lower-casing a lower-cased character changes nothing. */
  lemma LowerCharIdempotent(c: char)
    ensures LowerChar(LowerChar(c)) == LowerChar(c)
  {
  }

  /** Lower-casing twice is lower-casing once. */
  lemma LowerIdempotent(s: string)
    ensures Lower(Lower(s)) == Lower(s)
  {
    forall i | 0 <= i < |s|
      ensures Lower(Lower(s))[i] == Lower(s)[i]
    {
      LowerCharIdempotent(s[i]);
    }
  }

  /** `p` occurs in `s` starting at index `i`. */
  predicate OccursAt(s: string, p: string, i: int) {
    0 <= i && i + |p| <= |s| && s[i..i + |p|] == p
  }

  /** `String.contains`: `p` is a substring of `s`. */
  predicate Contains(s: string, p: string) {
    exists i :: 0 <= i <= |s| && OccursAt(s, p, i)
  }

  /** Every string contains itself and the empty string. */
  lemma ContainsSelfAndEmpty(s: string)
    ensures Contains(s, s)
    ensures Contains(s, "")
  {
    assert OccursAt(s, s, 0);
    assert OccursAt(s, "", 0);
  }
}
