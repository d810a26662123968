/** `isOnlyEmoji` / `isEmoji`: a message made only of symbols and non-spacing
    marks is not translated. The Unicode category tables behind `unicode.Is`
    are not reproduced: the category of each rune is supplied as a function. */
module Emoji {

  /** The Unicode general categories. */
  datatype Category =
    | Lu | Ll | Lt | Lm | Lo          // letters
    | Mn | Mc | Me                    // marks
    | Nd | Nl | No                    // numbers
    | Pc | Pd | Ps | Pe | Pi | Pf | Po // punctuation
    | Sm | Sc | Sk | So               // symbols
    | Zs | Zl | Zp                    // separators
    | Cc | Cf | Cs | Co | Cn          // other

  /** Membership in `unicode.S`, the union of the four symbol categories. */
  predicate IsSymbol(c: Category) {
    c == Sm || c == Sc || c == Sk || c == So
  }

  predicate IsLetter(c: Category) {
    c == Lu || c == Ll || c == Lt || c == Lm || c == Lo
  }

  predicate IsNumber(c: Category) {
    c == Nd || c == Nl || c == No
  }

  /** `isEmoji`: the rune is in `unicode.S`, in `unicode.So` or in `unicode.Mn`. */
  predicate IsEmoji(categoryOf: char -> Category, r: char) {
    IsSymbol(categoryOf(r)) || categoryOf(r) == So || categoryOf(r) == Mn
  }

  /** `isOnlyEmoji`: true exactly when every rune of `s` is an emoji rune; the
      empty string qualifies. */
  function IsOnlyEmoji(categoryOf: char -> Category, s: string): (r: bool)
    ensures r <==> forall i :: 0 <= i < |s| ==> IsEmoji(categoryOf, s[i])
  {
    if s == [] then true
    else IsEmoji(categoryOf, s[0]) && IsOnlyEmoji(categoryOf, s[1..])
  }

  /** The `So` test in `isEmoji` is subsumed by `unicode.S`: a rune counts
      exactly when its category is one of the four symbol categories or `Mn`. */
  lemma EmojiCategories(categoryOf: char -> Category, r: char)
    ensures IsEmoji(categoryOf, r) <==> categoryOf(r) in {Sm, Sc, Sk, So, Mn}
  {
  }

  /** A text holding a letter or a digit is never emoji-only, and neither is one
      holding a spacing character such as a blank. */
  lemma LetterOrNumberIsNotOnlyEmoji(categoryOf: char -> Category, s: string, i: int)
    requires 0 <= i < |s|
    requires IsLetter(categoryOf(s[i])) || IsNumber(categoryOf(s[i])) || categoryOf(s[i]) == Zs
    ensures !IsOnlyEmoji(categoryOf, s)
  {
  }

  /** Appending runes to an emoji-only text keeps it emoji-only exactly when the
      appended runes are emoji-only too. */
  lemma {:induction false} OnlyEmojiConcat(categoryOf: char -> Category, s: string, t: string)
    ensures IsOnlyEmoji(categoryOf, s + t) == (IsOnlyEmoji(categoryOf, s) && IsOnlyEmoji(categoryOf, t))
  {
    var st := s + t;
    assert forall i :: 0 <= i < |s| ==> st[i] == s[i];
    assert forall i :: 0 <= i < |t| ==> st[|s| + i] == t[i];
  }
}
