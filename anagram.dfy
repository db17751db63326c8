/**
  Anagram test (src/anagram.js).

  `areAnagrams` lowers both strings, builds their letter-count tables,
  deletes the space entry from each table and compares the tables for deep
  equality. The reference meaning is `SameLetters`: after lowering, every
  character other than the space occurs equally often in both strings.
 */
module Anagram {
  import opened LetterCount
  import opened CaseMapping

  /** Every character except the space occurs equally often in the two
      lowered strings. */
  ghost predicate SameLetters(a: string, b: string) {
    forall c :: c != ' ' ==> Occurrences(LowerCase(a), c) == Occurrences(LowerCase(b), c)
  }

  /** `s` with every space character taken out (and no other character). */
  function WithoutSpaces(s: string): string {
    if s == [] then []
    else WithoutSpaces(s[..|s| - 1]) + (if s[|s| - 1] == ' ' then [] else [s[|s| - 1]])
  }

  /** areAnagrams(string1, string2). */
  method AreAnagrams(string1: string, string2: string) returns (equal: bool)
    ensures equal <==> SameLetters(string1, string2)
  {
    var letterCount1 := GetLetterCount(Str(LowerCase(string1)));
    var letterCount2 := GetLetterCount(Str(LowerCase(string2)));
    // Drop the space key from both tables.
    letterCount1 := letterCount1 - {' '};
    letterCount2 := letterCount2 - {' '};
    equal := letterCount1 == letterCount2;
    ghost var lower1, lower2 := LowerCase(string1), LowerCase(string2);
    assert letterCount1 == CountsOf(lower1) - {' '};
    assert letterCount2 == CountsOf(lower2) - {' '};
    TablesAgreeOffKey(lower1, lower2, ' ');
    assert equal <==> forall c :: c != ' ' ==> Occurrences(lower1, c) == Occurrences(lower2, c);
  }

  /** Two tables with one key deleted are equal exactly when the two strings
      count every other character alike. */
  lemma TablesAgreeOffKey(s: string, t: string, k: char)
    ensures CountsOf(s) - {k} == CountsOf(t) - {k} <==>
            forall c :: c != k ==> Occurrences(s, c) == Occurrences(t, c)
  {
    if forall c :: c != k ==> Occurrences(s, c) == Occurrences(t, c) {
      SameCountsSameTables(s, t, k);
    } else {
      var c :| c != k && Occurrences(s, c) != Occurrences(t, c);
      CountsLookup(s, c);
      CountsLookup(t, c);
      assert c in CountsOf(s) - {k} <==> c in CountsOf(s);
      assert c in CountsOf(t) - {k} <==> c in CountsOf(t);
    }
  }

  /** The direction of `TablesAgreeOffKey` that needs key extensionality. */
  lemma SameCountsSameTables(s: string, t: string, k: char)
    requires forall c :: c != k ==> Occurrences(s, c) == Occurrences(t, c)
    ensures CountsOf(s) - {k} == CountsOf(t) - {k}
  {
    var m, n := CountsOf(s) - {k}, CountsOf(t) - {k};
    forall c
      ensures c in m <==> c in n
    {
      if c != k {
        OccurrencesPositive(s, c);
        OccurrencesPositive(t, c);
        assert c in m <==> c in s;
        assert c in n <==> c in t;
      }
    }
    forall c | c in m
      ensures m[c] == n[c]
    {
      assert c != k && c in CountsOf(s) && c in n;
      assert m[c] == Occurrences(s, c);
      assert n[c] == Occurrences(t, c);
    }
    assert m.Keys == n.Keys;
  }

  // ---------------------------------------------------------------------
  // WithoutSpaces

  /** One step of the filter. */
  lemma WithoutSpacesSnoc(p: string, x: char)
    ensures WithoutSpaces(p + [x]) == WithoutSpaces(p) + (if x == ' ' then [] else [x])
  {
    var s := p + [x];
    assert s[..|s| - 1] == p;
  }

  /** Removing spaces zeroes the space count and keeps every other count. */
  lemma {:induction false} OccurrencesWithoutSpaces(s: string, c: char)
    ensures Occurrences(WithoutSpaces(s), c) == if c == ' ' then 0 else Occurrences(s, c)
  {
    if s != [] {
      var p, x := s[..|s| - 1], s[|s| - 1];
      assert s == p + [x];
      OccurrencesWithoutSpaces(p, c);
      OccurrencesSnoc(p, x, c);
      WithoutSpacesSnoc(p, x);
      if x != ' ' {
        OccurrencesSnoc(WithoutSpaces(p), x, c);
      } else {
        assert WithoutSpaces(p) + [] == WithoutSpaces(p);
      }
    }
  }

  /** Removing spaces commutes with lowering, since only a space lowers to
      a space. */
  lemma {:induction false} LowerCaseWithoutSpaces(s: string)
    ensures LowerCase(WithoutSpaces(s)) == WithoutSpaces(LowerCase(s))
  {
    if s != [] {
      var p, x := s[..|s| - 1], s[|s| - 1];
      assert s == p + [x];
      LowerCaseWithoutSpaces(p);
      LowerCaseConcat(p, [x]);
      assert LowerCase(s)[..|s| - 1] == LowerCase(p);
      LowerCaseConcat(WithoutSpaces(p), if x == ' ' then [] else [x]);
      LowerSpace(x);
    }
  }

  // ---------------------------------------------------------------------
  // Properties of areAnagrams

  /** Anagrams are exactly the pairs whose lowered, space-free letters are
      permutations of each other. */
  lemma SameLettersIffPermutation(a: string, b: string)
    ensures SameLetters(a, b) <==>
            multiset(WithoutSpaces(LowerCase(a))) == multiset(WithoutSpaces(LowerCase(b)))
  {
    var x, y := WithoutSpaces(LowerCase(a)), WithoutSpaces(LowerCase(b));
    forall c
      ensures multiset(x)[c] == if c == ' ' then 0 else Occurrences(LowerCase(a), c)
      ensures multiset(y)[c] == if c == ' ' then 0 else Occurrences(LowerCase(b), c)
    {
      OccurrencesMultiset(x, c);
      OccurrencesMultiset(y, c);
      OccurrencesWithoutSpaces(LowerCase(a), c);
      OccurrencesWithoutSpaces(LowerCase(b), c);
    }
    if SameLetters(a, b) {
      assert forall c :: multiset(x)[c] == multiset(y)[c];
      assert multiset(x) == multiset(y);
    }
  }

  /** The test is symmetric. */
  lemma SameLettersSymmetric(a: string, b: string)
    ensures SameLetters(a, b) <==> SameLetters(b, a)
  {
  }

  /** The test is transitive. */
  lemma SameLettersTransitive(a: string, b: string, c: string)
    requires SameLetters(a, b) && SameLetters(b, c)
    ensures SameLetters(a, c)
  {
  }

  /** Every rearrangement of a string is an anagram of it; in particular
      every string is an anagram of itself. */
  lemma PermutationIsAnagram(a: string, b: string)
    requires multiset(a) == multiset(b)
    ensures SameLetters(a, b)
  {
    LowerCasePermutation(a, b);
    forall c | c != ' '
      ensures Occurrences(LowerCase(a), c) == Occurrences(LowerCase(b), c)
    {
      OccurrencesMultiset(LowerCase(a), c);
      OccurrencesMultiset(LowerCase(b), c);
    }
  }

  /** Rewriting any letters of either string in upper or lower case does not
      change the outcome. */
  lemma CaseInsensitive(a: string, a': string, b: string, b': string)
    requires |a'| == |a| && forall i :: 0 <= i < |a| ==> a'[i] in {a[i], ToUpper(a[i]), ToLower(a[i])}
    requires |b'| == |b| && forall i :: 0 <= i < |b| ==> b'[i] in {b[i], ToUpper(b[i]), ToLower(b[i])}
    ensures SameLetters(a', b') <==> SameLetters(a, b)
  {
    forall i | 0 <= i < |a|
      ensures LowerCase(a')[i] == LowerCase(a)[i]
    {
      LowerForgetsCase(a[i]);
    }
    forall i | 0 <= i < |b|
      ensures LowerCase(b')[i] == LowerCase(b)[i]
    {
      LowerForgetsCase(b[i]);
    }
    assert LowerCase(a') == LowerCase(a);
    assert LowerCase(b') == LowerCase(b);
  }

  /** Inserting a space anywhere in the first string does not change the
      outcome (by symmetry, the same holds for the second). */
  lemma SpaceInsertionIgnored(a: string, i: nat, b: string)
    requires i <= |a|
    ensures SameLetters(a[..i] + " " + a[i..], b) <==> SameLetters(a, b)
  {
    var a' := a[..i] + " " + a[i..];
    assert a == a[..i] + a[i..];
    LowerCaseConcat(a[..i] + " ", a[i..]);
    LowerCaseConcat(a[..i], " ");
    LowerCaseConcat(a[..i], a[i..]);
    assert LowerCase(" ") == " ";
    forall c | c != ' '
      ensures Occurrences(LowerCase(a'), c) == Occurrences(LowerCase(a), c)
    {
      OccurrencesConcat(LowerCase(a[..i]) + " ", LowerCase(a[i..]), c);
      OccurrencesConcat(LowerCase(a[..i]), " ", c);
      OccurrencesConcat(LowerCase(a[..i]), LowerCase(a[i..]), c);
      OccurrencesSnoc([], ' ', c);
      assert [] + [' '] == " ";
    }
  }

  /** Taking every space out of either string, or of both, does not change
      the outcome. */
  lemma SpacesIgnored(a: string, b: string)
    ensures SameLetters(WithoutSpaces(a), b) <==> SameLetters(a, b)
    ensures SameLetters(a, WithoutSpaces(b)) <==> SameLetters(a, b)
    ensures SameLetters(WithoutSpaces(a), WithoutSpaces(b)) <==> SameLetters(a, b)
  {
    LowerCaseWithoutSpaces(a);
    LowerCaseWithoutSpaces(b);
    forall c | c != ' '
      ensures Occurrences(LowerCase(WithoutSpaces(a)), c) == Occurrences(LowerCase(a), c)
      ensures Occurrences(LowerCase(WithoutSpaces(b)), c) == Occurrences(LowerCase(b), c)
    {
      OccurrencesWithoutSpaces(LowerCase(a), c);
      OccurrencesWithoutSpaces(LowerCase(b), c);
    }
  }

  /** Only the space is ignored: appending any other character (a tab, a
      line break, a letter) to a string makes it no anagram of the original. */
  lemma OtherCharactersCount(a: string, x: char)
    requires x != ' '
    ensures !SameLetters(a + [x], a)
  {
    LowerCaseConcat(a, [x]);
    LowerSpace(x);
    OccurrencesSnoc(LowerCase(a), ToLower(x), ToLower(x));
    assert LowerCase([x]) == [ToLower(x)];
  }

  /** Strings whose space-free lengths differ are never anagrams. */
  lemma LengthMismatch(a: string, b: string)
    requires |WithoutSpaces(a)| != |WithoutSpaces(b)|
    ensures !SameLetters(a, b)
  {
    SameLettersIffPermutation(a, b);
    LowerCaseWithoutSpaces(a);
    LowerCaseWithoutSpaces(b);
    assert |multiset(WithoutSpaces(LowerCase(a)))| == |WithoutSpaces(a)|;
    assert |multiset(WithoutSpaces(LowerCase(b)))| == |WithoutSpaces(b)|;
  }
}
