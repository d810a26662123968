/** `containsBannedWord`: a message is suppressed when one of the white-space
    separated tokens of its lower-cased text is exactly a banned word. */
module BannedWordFilter {
  import opened GoStrings

  /** Some token of `words` is in `banned`: the loop over the fields, with its
      early return. */
  function AnyBanned(words: seq<string>, banned: set<string>): (r: bool)
    ensures r <==> exists i :: 0 <= i < |words| && words[i] in banned
  {
    if words == [] then false
    else words[0] in banned || AnyBanned(words[1..], banned)
  }

  /** `containsBannedWord(text)` against the in-memory set `banned`. */
  function ContainsBannedWord(text: string, banned: set<string>): bool {
    AnyBanned(Fields(ToLower(text)), banned)
  }

  /** A message is suppressed exactly when some maximal non-space run of its
      lower-cased text is, as a whole, a banned word: no substring matching, no
      punctuation stripping. */
  lemma ContainsBannedWordIff(text: string, banned: set<string>)
    ensures ContainsBannedWord(text, banned) <==>
      exists w :: w in banned && IsField(ToLower(text), w)
  {
    var lower := ToLower(text);
    var words := Fields(lower);
    if ContainsBannedWord(text, banned) {
      var i :| 0 <= i < |words| && words[i] in banned;
      FieldsAreMaximalRuns(lower, words[i]);
    }
    if exists w :: w in banned && IsField(lower, w) {
      var w :| w in banned && IsField(lower, w);
      FieldsAreMaximalRuns(lower, w);
    }
  }

  /** Matching ignores case: lower-casing the text first changes nothing. */
  lemma BannedWordIgnoresCase(text: string, banned: set<string>)
    ensures ContainsBannedWord(ToLower(text), banned) == ContainsBannedWord(text, banned)
  {
    ToLowerIdempotent(text);
  }

  /** Adding words to the set can only make more messages match. */
  lemma BannedWordMonotone(text: string, banned: set<string>, more: set<string>)
    requires banned <= more
    ensures ContainsBannedWord(text, banned) ==> ContainsBannedWord(text, more)
  {
  }

  /** A banned word next to punctuation is not caught: "word." does not match
      the banned word "word". */
  lemma PunctuatedWordIsNotCaught(text: string, banned: set<string>)
    requires text == "word." && banned == {"word"}
    ensures !ContainsBannedWord(text, banned)
  {
    assert ToLower(text) == text;
    FieldsOfWord(text);
    assert Fields(ToLower(text)) == [text];
  }
}
