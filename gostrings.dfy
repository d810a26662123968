/** The parts of Go's `strings` and `unicode` packages that the bot relies on:
    white-space classification, lower-casing, trimming, splitting into
    white-space separated fields, splitting on a separator and joining.
    A Go string is modelled as the sequence of its runes. */
module GoStrings {

  /** `unicode.IsSpace`: the Latin-1 spaces (tab, line feed, vertical tab,
      form feed, carriage return, space, NEL, no-break space) and the other
      runes with Unicode's White_Space property. */
  predicate IsSpace(c: char) {
    var n := c as int;
    (9 <= n <= 13) || n == 0x20 || n == 0x85 || n == 0xA0 || n == 0x1680
    || (0x2000 <= n <= 0x200A) || n == 0x2028 || n == 0x2029 || n == 0x202F
    || n == 0x205F || n == 0x3000
  }

  /** True when `s` holds no white-space rune. */
  predicate NoSpace(s: string) {
    forall i :: 0 <= i < |s| ==> !IsSpace(s[i])
  }

  /** `unicode.ToLower` on the ASCII and Latin-1 capital letters; every other
      rune is left as it is. Lower-casing never turns a space into a
      non-space or back. */
  function LowerRune(c: char): (r: char)
    ensures IsSpace(r) == IsSpace(c)
    ensures !('A' <= r <= 'Z')
  {
    if 'A' <= c <= 'Z' || ('\U{00C0}' <= c <= '\U{00DE}' && c != '\U{00D7}') then
      (c as int + 32) as char
    else
      c
  }

  /** `strings.ToLower`: lower-cases a string rune by rune. */
  function ToLower(s: string): string {
    seq(|s|, i requires 0 <= i < |s| => LowerRune(s[i]))
  }

  /** Strips the leading white space: the result is a suffix of `s`, everything
      cut off is white space, and the result does not start with white space. */
  function TrimLeft(s: string): (r: string)
    ensures |r| <= |s| && r == s[|s| - |r|..]
    ensures forall i :: 0 <= i < |s| - |r| ==> IsSpace(s[i])
    ensures r != [] ==> !IsSpace(r[0])
  {
    if s != [] && IsSpace(s[0]) then TrimLeft(s[1..]) else s
  }

  /** Strips the trailing white space: the result is a prefix of `s`, everything
      cut off is white space, and the result does not end with white space. */
  function TrimRight(s: string): (r: string)
    ensures |r| <= |s| && r == s[..|r|]
    ensures forall i :: |r| <= i < |s| ==> IsSpace(s[i])
    ensures r != [] ==> !IsSpace(r[|r| - 1])
  {
    if s != [] && IsSpace(s[|s| - 1]) then TrimRight(s[..|s| - 1]) else s
  }

  /** `r` is `s` with the `i` runes before it and the runes after it cut off,
      all of them white space. */
  predicate Trimmed(s: string, r: string, i: int) {
    && 0 <= i <= |s| - |r|
    && r == s[i..i + |r|]
    && (forall k :: 0 <= k < i ==> IsSpace(s[k]))
    && (forall k :: i + |r| <= k < |s| ==> IsSpace(s[k]))
  }

  /** `strings.TrimSpace`: the result is `s` with its leading and trailing
      white space cut off, and neither end of it is white space. */
  function TrimSpace(s: string): (r: string)
    ensures exists i :: Trimmed(s, r, i)
    ensures r != [] ==> !IsSpace(r[0]) && !IsSpace(r[|r| - 1])
  {
    var l := TrimLeft(s);
    TrimmedFromBothEnds(s, l, TrimRight(l));
    TrimRight(l)
  }

  /** Cutting white space off the front, then off the back, leaves an infix
      whose surroundings are all white space. */
  lemma TrimmedFromBothEnds(s: string, l: string, t: string)
    requires |l| <= |s| && l == s[|s| - |l|..]
    requires forall k :: 0 <= k < |s| - |l| ==> IsSpace(s[k])
    requires |t| <= |l| && t == l[..|t|]
    requires forall k :: |t| <= k < |l| ==> IsSpace(l[k])
    ensures Trimmed(s, t, |s| - |l|)
  {
    var i := |s| - |l|;
    forall k | i + |t| <= k < |s|
      ensures IsSpace(s[k])
    {
      assert s[k] == l[k - i];
    }
  }

  /** The length of the run of non-space runes at the start of `s`. */
  function WordEnd(s: string): (n: nat)
    ensures n <= |s|
    ensures NoSpace(s[..n])
    ensures n < |s| ==> IsSpace(s[n])
  {
    if s == [] || IsSpace(s[0]) then 0 else 1 + WordEnd(s[1..])
  }

  /** `strings.Fields`: the maximal runs of non-space runes, in order. Every
      field is non-empty and holds no white space. */
  function Fields(s: string): (r: seq<string>)
    ensures forall i :: 0 <= i < |r| ==> r[i] != [] && NoSpace(r[i])
    decreases |s|
  {
    if s == [] then []
    else if IsSpace(s[0]) then Fields(s[1..])
    else
      var n := WordEnd(s);
      [s[..n]] + Fields(s[n..])
  }

  /** `s[i..j]` is a field of `s`: a non-empty run of non-space runes with white
      space or an end of `s` on either side. */
  ghost predicate IsFieldAt(s: string, i: int, j: int) {
    && 0 <= i < j <= |s|
    && (i == 0 || IsSpace(s[i - 1]))
    && (j == |s| || IsSpace(s[j]))
    && NoSpace(s[i..j])
  }

  /** `strings.Split(s, string(sep))`: the pieces between the separators, in
      order; there is always at least one piece, and no piece holds `sep`. */
  function Split(s: string, sep: char): (r: seq<string>)
    ensures |r| >= 1
    ensures forall i :: 0 <= i < |r| ==> sep !in r[i]
  {
    if s == [] then [[]]
    else
      var rest := Split(s[1..], sep);
      if s[0] == sep then [[]] + rest else [[s[0]] + rest[0]] + rest[1..]
  }

  /** `strings.Join(parts, sep)`: no parts give the empty string; otherwise the
      result starts with the first part. */
  function Join(parts: seq<string>, sep: string): (r: string)
    ensures parts == [] ==> r == []
    ensures parts != [] ==> |parts[0]| <= |r| && r[..|parts[0]|] == parts[0]
  {
    if |parts| == 0 then []
    else if |parts| == 1 then parts[0]
    else parts[0] + sep + Join(parts[1..], sep)
  }

  // ---------------------------------------------------------------------------
  // Lower-casing and trimming

  lemma LowerRuneIdempotent(c: char)
    ensures LowerRune(LowerRune(c)) == LowerRune(c)
  {
  }

  /** Lower-casing twice is lower-casing once. */
  lemma ToLowerIdempotent(s: string)
    ensures ToLower(ToLower(s)) == ToLower(s)
  {
    forall i | 0 <= i < |s| ensures ToLower(ToLower(s))[i] == ToLower(s)[i] {
      LowerRuneIdempotent(s[i]);
    }
  }

  lemma ToLowerSuffix(s: string, i: int)
    requires 0 <= i <= |s|
    ensures ToLower(s[i..]) == ToLower(s)[i..]
  {
  }

  lemma ToLowerPrefix(s: string, j: int)
    requires 0 <= j <= |s|
    ensures ToLower(s[..j]) == ToLower(s)[..j]
  {
  }

  lemma {:induction false} TrimLeftLower(s: string)
    ensures TrimLeft(ToLower(s)) == ToLower(TrimLeft(s))
    decreases |s|
  {
    if s != [] && IsSpace(s[0]) {
      assert IsSpace(ToLower(s)[0]);
      ToLowerSuffix(s, 1);
      TrimLeftLower(s[1..]);
    }
  }

  lemma {:induction false} TrimRightLower(s: string)
    ensures TrimRight(ToLower(s)) == ToLower(TrimRight(s))
    decreases |s|
  {
    if s != [] && IsSpace(s[|s| - 1]) {
      assert IsSpace(ToLower(s)[|s| - 1]);
      ToLowerPrefix(s, |s| - 1);
      TrimRightLower(s[..|s| - 1]);
    }
  }

  /** Trimming and lower-casing commute, so `TrimSpace(ToLower(w))` (the ban-word
      commands) and `ToLower(TrimSpace(w))` (the similarity check) agree. */
  lemma TrimSpaceLowerCommute(s: string)
    ensures TrimSpace(ToLower(s)) == ToLower(TrimSpace(s))
  {
    TrimLeftLower(s);
    TrimRightLower(TrimLeft(s));
  }

  /** Trimming twice is trimming once. */
  lemma TrimSpaceIdempotent(s: string)
    ensures TrimSpace(TrimSpace(s)) == TrimSpace(s)
  {
    var r := TrimSpace(s);
    if r != [] {
      assert TrimLeft(r) == r;
      assert TrimRight(r) == r;
    }
  }

  // ---------------------------------------------------------------------------
  // Fields

  lemma FieldsOfSpaceStart(s: string)
    requires s != [] && IsSpace(s[0])
    ensures Fields(s) == Fields(s[1..])
  {
  }

  /** A field of `s[k..]` that does not start at its first rune is a field of `s`
      shifted by `k`, and back. */
  lemma FieldShift(s: string, k: int, i: int, j: int)
    requires 0 <= k <= |s| && 1 <= i
    ensures IsFieldAt(s[k..], i, j) <==> IsFieldAt(s, i + k, j + k)
  {
    if 0 <= i < j <= |s| - k {
      assert s[k..][i..j] == s[i + k..j + k];
    }
  }

  /** The only field of `s` that starts at its first rune is the leading word. */
  lemma FirstField(s: string, j: int)
    requires s != [] && !IsSpace(s[0])
    ensures IsFieldAt(s, 0, j) <==> j == WordEnd(s)
  {
  }

  /** `w` occurs in `s` as a field. */
  ghost predicate IsField(s: string, w: string) {
    exists i, j :: IsFieldAt(s, i, j) && s[i..j] == w
  }

  lemma FieldAfterSpaceLifts(s: string, w: string)
    requires s != [] && IsSpace(s[0])
    requires IsField(s[1..], w)
    ensures IsField(s, w)
  {
    var i, j :| IsFieldAt(s[1..], i, j) && s[1..][i..j] == w;
    assert s[1..][i..j] == s[i + 1..j + 1];
    if i >= 1 {
      FieldShift(s, 1, i, j);
    }
    assert IsFieldAt(s, i + 1, j + 1);
  }

  lemma FieldAfterSpaceDrops(s: string, w: string)
    requires s != [] && IsSpace(s[0])
    requires IsField(s, w)
    ensures IsField(s[1..], w)
  {
    var i, j :| IsFieldAt(s, i, j) && s[i..j] == w;
    assert s[i..j][0] == s[i];
    assert s[1..][i - 1..j - 1] == s[i..j];
    if i >= 2 {
      FieldShift(s, 1, i - 1, j - 1);
    }
    assert IsFieldAt(s[1..], i - 1, j - 1);
  }

  lemma FieldsAfterSpace(s: string, w: string)
    requires s != [] && IsSpace(s[0])
    ensures IsField(s, w) <==> IsField(s[1..], w)
  {
    if IsField(s[1..], w) {
      FieldAfterSpaceLifts(s, w);
    }
    if IsField(s, w) {
      FieldAfterSpaceDrops(s, w);
    }
  }

  lemma RestFieldIsField(s: string, n: int, w: string)
    requires 0 <= n <= |s| && (n < |s| ==> IsSpace(s[n]))
    requires IsField(s[n..], w)
    ensures IsField(s, w)
  {
    var i, j :| IsFieldAt(s[n..], i, j) && s[n..][i..j] == w;
    assert s[n..][i..j][0] == s[n + i];
    assert s[n..][i..j] == s[i + n..j + n];
    FieldShift(s, n, i, j);
  }

  /** A field that starts after the first rune starts after the leading word. */
  lemma LaterFieldStartsAfterWord(s: string, i: int, j: int)
    requires s != [] && !IsSpace(s[0])
    requires IsFieldAt(s, i, j) && i > 0
    ensures i > WordEnd(s)
  {
    var n := WordEnd(s);
    assert forall k :: 0 <= k < n ==> s[..n][k] == s[k];
  }

  lemma FieldIsWordOrRest(s: string, w: string)
    requires s != [] && !IsSpace(s[0])
    requires IsField(s, w)
    ensures w == s[..WordEnd(s)] || IsField(s[WordEnd(s)..], w)
  {
    var n := WordEnd(s);
    var i, j :| IsFieldAt(s, i, j) && s[i..j] == w;
    if i == 0 {
      FirstField(s, j);
    } else {
      LaterFieldIsInRest(s, w, i, j);
    }
  }

  /** A field that starts after the first rune is a field of the text after
      the leading word. */
  lemma LaterFieldIsInRest(s: string, w: string, i: int, j: int)
    requires s != [] && !IsSpace(s[0])
    requires IsFieldAt(s, i, j) && s[i..j] == w && i > 0
    ensures IsField(s[WordEnd(s)..], w)
  {
    var n := WordEnd(s);
    LaterFieldStartsAfterWord(s, i, j);
    FieldShift(s, n, i - n, j - n);
    assert s[n..][i - n..j - n] == w;
  }

  lemma FieldsAfterWord(s: string, w: string)
    requires s != [] && !IsSpace(s[0])
    ensures IsField(s, w) <==> w == s[..WordEnd(s)] || IsField(s[WordEnd(s)..], w)
  {
    var n := WordEnd(s);
    if w == s[..n] {
      FirstField(s, n);
      assert s[0..n] == s[..n];
    }
    if IsField(s[n..], w) {
      RestFieldIsField(s, n, w);
    }
    if IsField(s, w) {
      FieldIsWordOrRest(s, w);
    }
  }

  /** `strings.Fields` returns exactly the maximal non-space runs of `s`: a string
      is one of its results if and only if it is such a run. */
  lemma {:induction false} FieldsAreMaximalRuns(s: string, w: string)
    ensures w in Fields(s) <==> IsField(s, w)
    decreases |s|
  {
    if s == [] {
    } else if IsSpace(s[0]) {
      FieldsAreMaximalRuns(s[1..], w);
      FieldsAfterSpace(s, w);
    } else {
      var n := WordEnd(s);
      FieldsAreMaximalRuns(s[n..], w);
      FieldsAfterWord(s, w);
    }
  }

  lemma {:induction false} WordEndOfWord(w: string, rest: string)
    requires NoSpace(w) && (rest == [] || IsSpace(rest[0]))
    ensures WordEnd(w + rest) == |w|
    decreases |w|
  {
    if w != [] {
      assert (w + rest)[1..] == w[1..] + rest;
      WordEndOfWord(w[1..], rest);
    } else {
      assert w + rest == rest;
    }
  }

  /** A word ends at the same place whatever follows a white-space rune. */
  lemma {:induction false} WordEndBeforeSpace(a: string, t: string)
    requires t != [] && IsSpace(t[0])
    ensures WordEnd(a + t) == WordEnd(a)
    decreases |a|
  {
    if a == [] {
      assert a + t == t;
    } else {
      assert (a + t)[0] == a[0];
      assert (a + t)[1..] == a[1..] + t;
      WordEndBeforeSpace(a[1..], t);
    }
  }

  /** Cutting a text at a white-space rune cuts its fields there: the fields
      of the left part come first, in order, then those of the right part.
      With `FieldsOfWord` and `Fields([]) == []` this fixes the fields of
      every text, their order and their number included. */
  lemma {:induction false} FieldsSplitAtSpace(a: string, c: char, b: string)
    requires IsSpace(c)
    ensures Fields(a + [c] + b) == Fields(a) + Fields(b)
    decreases |a|
  {
    var s := a + [c] + b;
    if a == [] {
      assert s == [c] + b && s[1..] == b;
    } else if IsSpace(a[0]) {
      assert s[0] == a[0] && s[1..] == a[1..] + [c] + b;
      FieldsSplitAtSpace(a[1..], c, b);
    } else {
      assert s[0] == a[0];
      assert s == a + ([c] + b);
      WordEndBeforeSpace(a, [c] + b);
      var n := WordEnd(a);
      assert s[..n] == a[..n];
      assert s[n..] == a[n..] + [c] + b;
      FieldsSplitAtSpace(a[n..], c, b);
    }
  }

  /** A word followed by white space is the first field; the fields of the
      text after that white space follow it. */
  lemma FieldsOfWordThenSpace(w: string, rest: string)
    requires w != [] && NoSpace(w) && rest != [] && IsSpace(rest[0])
    ensures Fields(w + rest) == [w] + Fields(rest[1..])
  {
    var s := w + rest;
    WordEndOfWord(w, rest);
    assert s[..|w|] == w && s[|w|..] == rest;
  }

  /** A lone word is its only field. */
  lemma FieldsOfWord(w: string)
    requires w != [] && NoSpace(w)
    ensures Fields(w) == [w]
  {
    WordEndOfWord(w, []);
    assert w + [] == w;
  }

  /** The pieces of `parts`, glued together. */
  function Concat(parts: seq<string>): string {
    if parts == [] then [] else parts[0] + Concat(parts[1..])
  }

  /** `s` with every white-space rune removed, the others kept in order. */
  function RemoveSpace(s: string): string {
    if s == [] then [] else (if IsSpace(s[0]) then [] else [s[0]]) + RemoveSpace(s[1..])
  }

  lemma {:induction false} RemoveSpaceAfterWord(s: string, n: nat)
    requires n <= |s| && NoSpace(s[..n])
    ensures RemoveSpace(s) == s[..n] + RemoveSpace(s[n..])
  {
    if n > 0 {
      assert s[..n][0] == s[0];
      assert s[1..][..n - 1] == s[..n][1..];
      RemoveSpaceAfterWord(s[1..], n - 1);
      assert s[1..][n - 1..] == s[n..];
      assert s[..n] == [s[0]] + s[1..][..n - 1];
    } else {
      assert s[n..] == s;
    }
  }

  /** The fields of `s`, glued back together, are `s` without its white
      space: no rune is lost, duplicated or taken from a white-space run. */
  lemma {:induction false} FieldsInTextOrder(s: string)
    ensures Concat(Fields(s)) == RemoveSpace(s)
    decreases |s|
  {
    if s != [] {
      if IsSpace(s[0]) {
        FieldsInTextOrder(s[1..]);
      } else {
        var n := WordEnd(s);
        FieldsInTextOrder(s[n..]);
        RemoveSpaceAfterWord(s, n);
        var f := Fields(s);
        assert f == [s[..n]] + Fields(s[n..]);
        assert f[1..] == Fields(s[n..]);
      }
    }
  }

  /** The fields of two words separated by one blank. */
  lemma FieldsOfTwoWords(s: string, a: string, b: string)
    requires a != [] && NoSpace(a) && b != [] && NoSpace(b)
    requires s == a + " " + b
    ensures Fields(s) == [a, b]
  {
    assert s == a + ([' '] + b);
    FieldsOfWordThenSpace(a, [' '] + b);
    assert ([' '] + b)[1..] == b;
    FieldsOfWord(b);
  }

  /** The fields of three words separated by single blanks. */
  lemma FieldsOfThreeWords(s: string, a: string, b: string, c: string)
    requires a != [] && NoSpace(a) && b != [] && NoSpace(b) && c != [] && NoSpace(c)
    requires s == a + " " + b + " " + c
    ensures Fields(s) == [a, b, c]
  {
    var rest := b + " " + c;
    assert s == a + ([' '] + rest);
    FieldsOfWordThenSpace(a, [' '] + rest);
    assert ([' '] + rest)[1..] == rest;
    FieldsOfTwoWords(rest, b, c);
  }

  // ---------------------------------------------------------------------------
  // Split and Join

  /** Joining the pieces of `strings.Split` with the separator gives back the
      original string. */
  lemma {:induction false} JoinSplit(s: string, sep: char)
    ensures Join(Split(s, sep), [sep]) == s
  {
    if s != [] {
      var rest := Split(s[1..], sep);
      JoinSplit(s[1..], sep);
      if s[0] == sep {
        assert Split(s, sep) == [[]] + rest;
        assert ([[]] + rest)[1..] == rest;
      } else {
        var r := [[s[0]] + rest[0]] + rest[1..];
        assert Split(s, sep) == r;
        if |rest| == 1 {
          assert Join(rest, [sep]) == rest[0];
        } else {
          assert r[1..] == rest[1..];
          assert Join(rest, [sep]) == rest[0] + [sep] + Join(rest[1..], [sep]);
        }
      }
    }
  }
}
