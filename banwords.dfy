/** The `/banword add` and `/banword remove` commands, as values: how a word is
    normalised, which words one `add` inserts and in what order, and the
    replies. The commands that change the stored list are in module `Bot`. */
module BanWords {
  import opened GoStrings

  /** How both commands normalise a word: lower-cased, then trimmed. */
  function NormalizeWord(w: string): string {
    TrimSpace(ToLower(w))
  }

  /** The invariant the commands keep for the ban list: no empty word, and
      every word already in normal form. */
  ghost predicate WellFormedWords(words: set<string>) {
    forall w :: w in words ==> w != "" && NormalizeWord(w) == w
  }

  /** Removing a word keeps the ban list well formed. */
  lemma RemoveKeepsWellFormed(words: set<string>, w: string)
    requires WellFormedWords(words)
    ensures WellFormedWords(words - {w})
  {
  }

  /** Normalising twice is normalising once. */
  lemma NormalizeWordIdempotent(w: string)
    ensures NormalizeWord(NormalizeWord(w)) == NormalizeWord(w)
  {
    var l := ToLower(w);
    TrimSpaceLowerCommute(TrimSpace(l));
    TrimSpaceIdempotent(l);
    TrimSpaceLowerCommute(l);
    ToLowerIdempotent(w);
  }

  /** The pieces of an `add` request, each normalised, in order. */
  function Normalized(pieces: seq<string>): (words: seq<string>)
    ensures |words| == |pieces|
    decreases |pieces|
  {
    if pieces == [] then [] else Normalized(pieces[..|pieces| - 1]) + [NormalizeWord(pieces[|pieces| - 1])]
  }

  /** Each word is the normal form of the piece at the same position. */
  lemma {:induction false} NormalizedAt(pieces: seq<string>, i: int)
    requires 0 <= i < |pieces|
    ensures Normalized(pieces)[i] == NormalizeWord(pieces[i])
    decreases |pieces|
  {
    if i < |pieces| - 1 {
      var init := pieces[..|pieces| - 1];
      NormalizedAt(init, i);
    }
  }

  /** The non-empty normalised words of an `add` request. */
  function Candidates(words: seq<string>): set<string> {
    set w | w in words && w != ""
  }

  lemma CandidatesSnoc(words: seq<string>, w: string)
    ensures Candidates(words + [w]) == Candidates(words) + (if w != "" then {w} else {})
  {
    assert forall x :: x in words + [w] <==> x in words || x == w;
  }

  /** `addedWords` after the add loop has gone through the normalised `words`
      against a list that held `existing` before the command: a word is
      appended when it is non-empty and not yet stored, neither before the
      command nor by an earlier piece. */
  function AddedWords(existing: set<string>, words: seq<string>): seq<string>
    decreases |words|
  {
    if words == [] then []
    else
      var before := AddedWords(existing, words[..|words| - 1]);
      var w := words[|words| - 1];
      if w == "" || w in existing || w in before then before else before + [w]
  }

  /** The added words are exactly the candidates that were not stored before. */
  lemma {:induction false} AddedWordsExactly(existing: set<string>, words: seq<string>)
    ensures forall w :: w in AddedWords(existing, words) <==> w in Candidates(words) && w !in existing
    decreases |words|
  {
    if words != [] {
      var init := words[..|words| - 1];
      assert words == init + [words[|words| - 1]];
      AddedWordsExactly(existing, init);
    }
  }

  /** No element occurs twice. */
  predicate Distinct(s: seq<string>) {
    forall i, j :: 0 <= i < j < |s| ==> s[i] != s[j]
  }

  /** No word is reported twice. */
  lemma {:induction false} AddedWordsDistinct(existing: set<string>, words: seq<string>)
    ensures Distinct(AddedWords(existing, words))
    decreases |words|
  {
    if words != [] {
      var init := words[..|words| - 1];
      AddedWordsDistinct(existing, init);
      var before := AddedWords(existing, init);
      var w := words[|words| - 1];
      if !(w == "" || w in existing || w in before) {
        var added := before + [w];
        forall i, j | 0 <= i < j < |added|
          ensures added[i] != added[j]
        {
          assert added[i] == before[i];
          if j < |before| {
            assert added[j] == before[j];
          } else {
            assert added[j] == w;
            assert before[i] in before;
          }
        }
        assert AddedWords(existing, words) == added;
      }
    }
  }

  /** Words are reported in input order: the words added for a request are a
      prefix of those added for any longer request with the same beginning. */
  lemma {:induction false} AddedWordsInInputOrder(existing: set<string>, words: seq<string>, more: seq<string>)
    ensures AddedWords(existing, words) <= AddedWords(existing, words + more)
    decreases |more|
  {
    if more == [] {
      assert words + more == words;
    } else {
      var init := more[..|more| - 1];
      AddedWordsInInputOrder(existing, words, init);
      var q := words + init;
      var whole := q + [more[|more| - 1]];
      assert words + more == whole;
      assert whole[..|whole| - 1] == q;
    }
  }

  /** One turn of the add loop: the word is inserted and reported exactly when
      it is non-empty and not yet in the table as it stands. */
  lemma AddStep(existing: set<string>, words: seq<string>, w: string)
    ensures var isNew := w != "" && w !in existing + Candidates(words);
      && existing + Candidates(words + [w]) ==
        (if isNew then existing + Candidates(words) + {w} else existing + Candidates(words))
      && AddedWords(existing, words + [w]) ==
        (if isNew then AddedWords(existing, words) + [w] else AddedWords(existing, words))
  {
    CandidatesSnoc(words, w);
    AddedWordsExactly(existing, words);
    assert (words + [w])[..|words|] == words;
  }

  /** Nothing is added exactly when every candidate was already stored, and
      then the table is unchanged. */
  lemma NothingAddedIff(existing: set<string>, words: seq<string>)
    ensures AddedWords(existing, words) == [] <==> Candidates(words) <= existing
    ensures AddedWords(existing, words) == [] ==> existing + Candidates(words) == existing
  {
    AddedWordsExactly(existing, words);
    var added := AddedWords(existing, words);
    if added != [] {
      assert added[0] in added;
    }
  }

  /** Adding the candidates of a request keeps the ban list well formed. */
  lemma AddKeepsWellFormed(existing: set<string>, pieces: seq<string>)
    requires WellFormedWords(existing)
    ensures WellFormedWords(existing + Candidates(Normalized(pieces)))
  {
    var words := Normalized(pieces);
    forall w | w in Candidates(words)
      ensures NormalizeWord(w) == w
    {
      var i :| 0 <= i < |words| && words[i] == w;
      NormalizedAt(pieces, i);
      NormalizeWordIdempotent(pieces[i]);
    }
  }

  const NoNewWordsReply := "No new words were added to the ban list."
  const AddedPrefix := "Added words to ban list: "
  const NoWordReply := "No word provided to remove."
  const RemovedPrefix := "Removed word from ban list: "

  /** The reply of `/banword add`, given the words it inserted. */
  function AddReply(added: seq<string>): string {
    if |added| > 0 then AddedPrefix + Join(added, ", ") else NoNewWordsReply
  }

  lemma LowerPadded(w: string)
    requires w == " Foo "
    ensures ToLower(w) == " foo "
  {
    assert LowerRune('F') == 'f';
  }

  lemma TrimLeftPadded(l: string)
    requires l == " foo "
    ensures TrimLeft(l) == "foo "
  {
    assert IsSpace(l[0]);
    assert l[1..] == "foo ";
    assert !IsSpace('f');
  }

  lemma TrimRightPadded(l: string)
    requires l == "foo "
    ensures TrimRight(l) == "foo"
  {
    assert IsSpace(l[3]);
    assert l[..3] == "foo";
    assert !IsSpace('o');
  }

  /** A padded capitalised word loses its padding and its capitals. */
  lemma NormalizePaddedCapitals(w: string)
    requires w == " Foo "
    ensures NormalizeWord(w) == "foo"
  {
    LowerPadded(w);
    TrimLeftPadded(ToLower(w));
    TrimRightPadded(TrimLeft(ToLower(w)));
  }

  /** A repeated word and an empty piece add nothing: pieces normalising to
      `x`, `y`, "" and `x` again (as "foo, Bar,,FOO" does) add `x` and `y`,
      once each, in that order. */
  lemma AddExample(existing: set<string>, words: seq<string>, x: string, y: string)
    requires existing == {} && x != "" && y != "" && x != y
    requires words == [x, y, "", x]
    ensures AddedWords(existing, words) == [x, y]
  {
    assert [x][..0] == [];
    assert AddedWords(existing, [x]) == [x];
    assert [x, y][..1] == [x];
    assert AddedWords(existing, [x, y]) == [x, y];
    assert [x, y, ""][..2] == [x, y];
    assert AddedWords(existing, [x, y, ""]) == [x, y];
    assert words[..3] == [x, y, ""];
  }
}
