/** `areTextsSimilar`: decides whether a translation is close enough to the
    original that posting it would be noise. Both texts are trimmed and
    lower-cased; equal texts are similar; otherwise their fields are compared
    position by position and more than two mismatching positions make the
    texts different. */
module Similarity {
  import opened GoStrings

  /** The normalisation both texts go through: trimmed, then lower-cased. */
  function Normalize(s: string): string {
    ToLower(TrimSpace(s))
  }

  /** Original token `i` counts as a mismatch: the translation has no token at
      that position, or a different one. */
  predicate Differs(ow: seq<string>, tw: seq<string>, i: nat)
    requires i < |ow|
  {
    i >= |tw| || ow[i] != tw[i]
  }

  /** `diffCount` after the first `n` original tokens, had the loop not stopped. */
  function MismatchesBefore(ow: seq<string>, tw: seq<string>, n: nat): (c: nat)
    requires n <= |ow|
    ensures c <= n
  {
    if n == 0 then 0
    else MismatchesBefore(ow, tw, n - 1) + (if Differs(ow, tw, n - 1) then 1 else 0)
  }

  /** The number of mismatching positions over all original tokens. */
  function MismatchCount(ow: seq<string>, tw: seq<string>): nat {
    MismatchesBefore(ow, tw, |ow|)
  }

  /** Reference definition: the set of original positions that mismatch. */
  ghost function MismatchIndices(ow: seq<string>, tw: seq<string>): set<nat> {
    set i: nat | i < |ow| && Differs(ow, tw, i)
  }

  /** What `areTextsSimilar` decides. */
  predicate TextsSimilar(original: string, translated: string) {
    var o := Normalize(original);
    var t := Normalize(translated);
    o == t || MismatchCount(Fields(o), Fields(t)) <= 2
  }

  /** `areTextsSimilar` as the source runs it: both texts normalised, equal
      texts accepted at once, otherwise the token comparison. */
  method AreTextsSimilar(original: string, translated: string) returns (similar: bool)
    ensures similar == TextsSimilar(original, translated)
  {
    var o := Normalize(original);
    var t := Normalize(translated);
    if o == t {
      return true;
    }
    similar := FewMismatches(Fields(o), Fields(t));
  }

  /** The comparison loop of `areTextsSimilar`: counts mismatching positions
      and gives up as soon as a third one is found. */
  method FewMismatches(originalWords: seq<string>, translatedWords: seq<string>) returns (few: bool)
    ensures few <==> MismatchCount(originalWords, translatedWords) <= 2
  {
    var diffCount := 0;
    for i := 0 to |originalWords|
      invariant diffCount == MismatchesBefore(originalWords, translatedWords, i)
      invariant diffCount <= 2
    {
      if i >= |translatedWords| || originalWords[i] != translatedWords[i] {
        diffCount := diffCount + 1;
        if diffCount > 2 {
          MismatchesMonotone(originalWords, translatedWords, i + 1, |originalWords|);
          return false;
        }
      }
    }
    return true;
  }

  // ---------------------------------------------------------------------------
  // Properties

  /** The counter never decreases as the loop advances. */
  lemma {:induction false} MismatchesMonotone(ow: seq<string>, tw: seq<string>, i: nat, j: nat)
    requires i <= j <= |ow|
    ensures MismatchesBefore(ow, tw, i) <= MismatchesBefore(ow, tw, j)
    decreases j
  {
    if i < j {
      MismatchesMonotone(ow, tw, i, j - 1);
    }
  }

  lemma {:induction false} MismatchesBeforeIsCardinality(ow: seq<string>, tw: seq<string>, n: nat)
    requires n <= |ow|
    ensures MismatchesBefore(ow, tw, n) == |set i: nat | i < n && Differs(ow, tw, i)|
  {
    if n > 0 {
      MismatchesBeforeIsCardinality(ow, tw, n - 1);
      var before := set i: nat | i < n - 1 && Differs(ow, tw, i);
      var upTo := set i: nat | i < n && Differs(ow, tw, i);
      var last := if Differs(ow, tw, n - 1) then {n - 1} else {};
      assert forall i: nat :: i in upTo <==> i in before || i in last;
      assert upTo == before + last;
      assert n - 1 !in before;
    }
  }

  /** The counter counts exactly the mismatching positions. */
  lemma MismatchCountIsCardinality(ow: seq<string>, tw: seq<string>)
    ensures MismatchCount(ow, tw) == |MismatchIndices(ow, tw)|
  {
    MismatchesBeforeIsCardinality(ow, tw, |ow|);
    assert MismatchIndices(ow, tw) == set i: nat | i < |ow| && Differs(ow, tw, i);
  }

  /** Texts are judged different exactly when they differ after normalisation
      and more than two original positions have a missing or different
      translated token. */
  lemma NotSimilarIff(original: string, translated: string)
    ensures !TextsSimilar(original, translated) <==>
      var o := Normalize(original);
      var t := Normalize(translated);
      o != t && |MismatchIndices(Fields(o), Fields(t))| > 2
  {
    MismatchCountIsCardinality(Fields(Normalize(original)), Fields(Normalize(translated)));
  }

  lemma NormalizeIdempotent(s: string)
    ensures Normalize(Normalize(s)) == Normalize(s)
  {
    var t := TrimSpace(s);
    TrimSpaceLowerCommute(t);
    TrimSpaceIdempotent(s);
    ToLowerIdempotent(t);
  }

  /** Case and surrounding white space never matter: texts equal after
      normalisation are similar (so every text is similar to itself), and
      normalising either argument first changes nothing. */
  lemma SimilarityIgnoresCaseAndPadding(original: string, translated: string)
    ensures Normalize(original) == Normalize(translated) ==> TextsSimilar(original, translated)
    ensures TextsSimilar(original, original)
    ensures TextsSimilar(Normalize(original), Normalize(translated)) == TextsSimilar(original, translated)
  {
    NormalizeIdempotent(original);
    NormalizeIdempotent(translated);
  }

  /** An original of at most two tokens is always similar to any translation. */
  lemma ShortOriginalAlwaysSimilar(original: string, translated: string)
    requires |Fields(Normalize(original))| <= 2
    ensures TextsSimilar(original, translated)
  {
  }

  lemma {:induction false} MismatchesBeforeIgnoreTail(ow: seq<string>, tw: seq<string>, extra: seq<string>, n: nat)
    requires n <= |ow| <= |tw|
    ensures MismatchesBefore(ow, tw + extra, n) == MismatchesBefore(ow, tw, n)
  {
    if n > 0 {
      MismatchesBeforeIgnoreTail(ow, tw, extra, n - 1);
      assert (tw + extra)[n - 1] == tw[n - 1];
    }
  }

  /** Translated tokens beyond the length of the original are never counted. */
  lemma TrailingTokensNeverCounted(ow: seq<string>, tw: seq<string>, extra: seq<string>)
    requires |ow| <= |tw|
    ensures MismatchCount(ow, tw + extra) == MismatchCount(ow, tw)
  {
    MismatchesBeforeIgnoreTail(ow, tw, extra, |ow|);
  }

  /** A string that is already trimmed and lower-case normalises to itself. */
  lemma NormalizeOfNormal(s: string)
    requires s != [] && !IsSpace(s[0]) && !IsSpace(s[|s| - 1])
    requires forall i :: 0 <= i < |s| ==> LowerRune(s[i]) == s[i]
    ensures Normalize(s) == s
  {
    assert TrimLeft(s) == s;
    assert TrimRight(s) == s;
  }

  /** Reads the decision off already-normal texts and their fields. */
  lemma SimilarFromFields(o: string, t: string, ow: seq<string>, tw: seq<string>)
    requires Normalize(o) == o && Normalize(t) == t
    requires Fields(o) == ow && Fields(t) == tw
    ensures TextsSimilar(o, t) == (o == t || MismatchCount(ow, tw) <= 2)
  {
  }

  /** A text of lower-case letters and blanks is its own lower-case form. */
  lemma LowerCaseTextIsUnchanged(s: string)
    requires forall i :: 0 <= i < |s| ==> 'a' <= s[i] <= 'z' || s[i] == ' '
    ensures ToLower(s) == s
  {
  }

  /** Three lower-case words separated by single blanks: the text is already
      normal, and its fields are the three words. */
  lemma ThreeWordText(s: string, a: string, b: string, c: string)
    requires s == a + " " + b + " " + c
    requires a != [] && b != [] && c != []
    requires forall i :: 0 <= i < |a| ==> 'a' <= a[i] <= 'z'
    requires forall i :: 0 <= i < |b| ==> 'a' <= b[i] <= 'z'
    requires forall i :: 0 <= i < |c| ==> 'a' <= c[i] <= 'z'
    ensures ToLower(s) == s && Normalize(s) == s && Fields(s) == [a, b, c]
  {
    assert forall i :: 0 <= i < |s| ==> 'a' <= s[i] <= 'z' || s[i] == ' ';
    LowerCaseTextIsUnchanged(s);
    FieldsOfThreeWords(s, a, b, c);
    assert s[0] == a[0] && s[|s| - 1] == c[|c| - 1];
    NormalizeOfNormal(s);
  }

  /** The one-letter case of `ThreeWordText`. */
  lemma ThreeLetterText(s: string, a: char, b: char, c: char)
    requires 'a' <= a <= 'z' && 'a' <= b <= 'z' && 'a' <= c <= 'z'
    requires s == [a, ' ', b, ' ', c]
    ensures Normalize(s) == s && Fields(s) == [[a], [b], [c]]
  {
    ThreeWordText(s, [a], [b], [c]);
  }

  /** Three tokens that all differ: the translation is different enough. */
  lemma ThreeMismatches(ow: seq<string>, tw: seq<string>)
    requires |ow| == 3 && |tw| == 3
    requires ow[0] != tw[0] && ow[1] != tw[1] && ow[2] != tw[2]
    ensures MismatchCount(ow, tw) == 3
  {
    assert MismatchesBefore(ow, tw, 1) == 1;
    assert MismatchesBefore(ow, tw, 2) == 2;
  }

  /** One substituted word out of three: the translation is suppressed. */
  lemma OneSubstitutionIsSimilar(original: string, translated: string)
    requires original == "a b c" && translated == "a b d"
    ensures TextsSimilar(original, translated)
  {
    ThreeLetterText(original, 'a', 'b', 'c');
    ThreeLetterText(translated, 'a', 'b', 'd');
    var ow, tw := ["a", "b", "c"], ["a", "b", "d"];
    assert MismatchesBefore(ow, tw, 1) == 0;
    assert MismatchesBefore(ow, tw, 2) == 0;
    assert MismatchesBefore(ow, tw, 3) == 1;
    SimilarFromFields(original, translated, ["a", "b", "c"], ["a", "b", "d"]);
  }

  /** Three substituted words out of three: the translation is posted. */
  lemma ThreeSubstitutionsAreNotSimilar(original: string, translated: string)
    requires original == "a b c" && translated == "x y z"
    ensures !TextsSimilar(original, translated)
  {
    ThreeLetterText(original, 'a', 'b', 'c');
    ThreeLetterText(translated, 'x', 'y', 'z');
    ThreeMismatches(["a", "b", "c"], ["x", "y", "z"]);
    SimilarFromFields(original, translated, ["a", "b", "c"], ["x", "y", "z"]);
  }
}
