/**
  Character-frequency tables (src/letter-count.js).

  `getLetterCount` takes a JavaScript value, returns an empty table for a
  falsy one, and otherwise walks the characters of the string, creating a
  key with count 0 on first sight and incrementing it. The table is modelled
  as a `map<char, nat>`; the reference meaning of an entry is `Occurrences`.
 */
module LetterCount {

  /** The JavaScript values the function is called with: the two nullish
      values and strings. */
  datatype Input = Undefined | Null | Str(text: string)

  /** `!input` in JavaScript: nullish values and the empty string. */
  predicate Falsy(input: Input) {
    !input.Str? || input.text == []
  }

  /** The characters the function walks over (none for a falsy input). */
  function Text(input: Input): (s: string)
    ensures Falsy(input) <==> s == []
  {
    if input.Str? then input.text else []
  }

  /** Number of occurrences of `c` in `s`, peeled from the end so that it
      follows a left-to-right scan. */
  function Occurrences(s: string, c: char): nat
  {
    if s == [] then 0
    else Occurrences(s[..|s| - 1], c) + (if s[|s| - 1] == c then 1 else 0)
  }

  /** The table the source builds: one key per character that occurs, mapped
      to its number of occurrences. */
  ghost function CountsOf(s: string): map<char, nat>
  {
    map c | c in s :: Occurrences(s, c)
  }

  /** Sum of all counts stored in a table. */
  ghost function Total(m: map<char, nat>): nat
    decreases |m|
  {
    if m == map[] then 0
    else
      var k :| k in m;
      assert (m - {k}).Keys == m.Keys - {k};
      m[k] + Total(m - {k})
  }

  /** getLetterCount: a falsy input gives an empty table; otherwise every
      character is counted in one left-to-right pass. */
  method GetLetterCount(input: Input) returns (result: map<char, nat>)
    ensures Falsy(input) ==> result == map[]
    ensures result == CountsOf(Text(input))
    ensures forall c :: c in result <==> c in Text(input)
    ensures forall c :: c in result ==> result[c] == Occurrences(Text(input), c) >= 1
  {
    result := map[];
    if Falsy(input) {
      return;
    }
    var letters := input.text;
    var i := 0;
    while i < |letters|
      invariant 0 <= i <= |letters|
      invariant result == CountsOf(letters[..i])
    {
      var letter := letters[i];
      ghost var before := result;
      // A character seen for the first time gets an entry of 0 ...
      result := result[letter := if letter in result then result[letter] else 0];
      // ... and then the entry is incremented.
      result := result[letter := result[letter] + 1];
      assert result == CountsOf(letters[..i + 1]) by {
        assert result == before[letter := (if letter in before then before[letter] else 0) + 1];
        CountsNext(letters[..i], letter, before);
        assert letters[..i + 1] == letters[..i] + [letter];
      }
      i := i + 1;
    }
    assert letters[..i] == letters;
    CountsMeaning(letters);
  }

  // ---------------------------------------------------------------------
  // Occurrences

  /** A character occurs in `s` exactly when its count is positive. */
  lemma {:induction false} OccurrencesPositive(s: string, c: char)
    ensures c in s <==> Occurrences(s, c) > 0
  {
    if s != [] {
      var p := s[..|s| - 1];
      assert s == p + [s[|s| - 1]];
      OccurrencesPositive(p, c);
    }
  }

  /** Appending one character adds one to its own count only. */
  lemma OccurrencesSnoc(p: string, x: char, c: char)
    ensures Occurrences(p + [x], c) == Occurrences(p, c) + (if x == c then 1 else 0)
  {
    var s := p + [x];
    assert s[..|s| - 1] == p;
  }

  /** Counting distributes over concatenation. */
  lemma {:induction false} OccurrencesConcat(x: string, y: string, c: char)
    ensures Occurrences(x + y, c) == Occurrences(x, c) + Occurrences(y, c)
    decreases |y|
  {
    if y == [] {
      assert x + y == x;
    } else {
      var y' := y[..|y| - 1];
      assert (x + y)[..|x + y| - 1] == x + y';
      OccurrencesConcat(x, y', c);
    }
  }

  /** `Occurrences` agrees with the multiplicity of `c` in the multiset of
      `s`: the independent reference definition of a count. */
  lemma {:induction false} OccurrencesMultiset(s: string, c: char)
    ensures Occurrences(s, c) == multiset(s)[c]
  {
    if s != [] {
      var p := s[..|s| - 1];
      assert s == p + [s[|s| - 1]];
      OccurrencesMultiset(p, c);
    }
  }

  // ---------------------------------------------------------------------
  // The table

  /** The table of the empty string is empty, and empty only then. */
  lemma CountsEmpty(s: string)
    ensures CountsOf(s) == map[] <==> s == []
  {
    if s != [] {
      assert s[0] in CountsOf(s);
    }
  }

  /** One step of the source's loop: appending `x` creates or increments
      the entry of `x` and leaves every other entry alone. */
  lemma CountsStep(p: string, x: char)
    ensures CountsOf(p + [x]) == CountsOf(p)[x := Occurrences(p, x) + 1]
  {
    var s := p + [x];
    var lhs, rhs := CountsOf(s), CountsOf(p)[x := Occurrences(p, x) + 1];
    forall c
      ensures c in lhs <==> c in rhs
    {
      assert c in s <==> c in p || c == x;
    }
    forall c | c in lhs
      ensures lhs[c] == rhs[c]
    {
      OccurrencesSnoc(p, x, c);
    }
    assert lhs == rhs;
  }

  /** The keys of the table are the characters of `s`, each mapped to its
      number of occurrences, which is at least 1. */
  lemma CountsMeaning(s: string)
    ensures forall c :: c in CountsOf(s) <==> c in s
    ensures forall c :: c in CountsOf(s) ==> CountsOf(s)[c] == Occurrences(s, c) >= 1
  {
    CountsPositive(s);
  }

  /** Every stored count is at least 1. */
  lemma CountsPositive(s: string)
    ensures forall c :: c in CountsOf(s) ==> CountsOf(s)[c] >= 1
  {
    forall c | c in CountsOf(s)
      ensures CountsOf(s)[c] >= 1
    {
      OccurrencesPositive(s, c);
    }
  }

  /** Looking up any character, present or not (missing keys read as 0),
      gives its number of occurrences. */
  lemma CountsLookup(s: string, c: char)
    ensures (if c in CountsOf(s) then CountsOf(s)[c] else 0) == Occurrences(s, c)
  {
    OccurrencesPositive(s, c);
  }

  /** The table depends only on which characters occur how often, not on
      their order: every permutation of the input gives the same table. */
  lemma CountsPermutation(s: string, t: string)
    requires multiset(s) == multiset(t)
    ensures CountsOf(s) == CountsOf(t)
  {
    forall c
      ensures c in s <==> c in t
      ensures Occurrences(s, c) == Occurrences(t, c)
    {
      OccurrencesMultiset(s, c);
      OccurrencesMultiset(t, c);
    }
  }

  /** Two strings have the same table exactly when one is a permutation of
      the other. */
  lemma CountsEqualIffPermutation(s: string, t: string)
    ensures CountsOf(s) == CountsOf(t) <==> multiset(s) == multiset(t)
  {
    if CountsOf(s) == CountsOf(t) {
      forall c
        ensures multiset(s)[c] == multiset(t)[c]
      {
        CountsLookup(s, c);
        CountsLookup(t, c);
        OccurrencesMultiset(s, c);
        OccurrencesMultiset(t, c);
      }
      assert multiset(s) == multiset(t);
    }
    if multiset(s) == multiset(t) {
      CountsPermutation(s, t);
    }
  }

  /** Removing an entry takes its count out of the total, whichever entry
      the sum happens to pick first. */
  lemma {:induction false} TotalRemove(m: map<char, nat>, k: char)
    requires k in m
    ensures Total(m) == m[k] + Total(m - {k})
    decreases |m|
  {
    var j :| j in m && Total(m) == m[j] + Total(m - {j});
    if j != k {
      assert (m - {j}).Keys == m.Keys - {j};
      assert (m - {k}).Keys == m.Keys - {k};
      TotalRemove(m - {j}, k);
      TotalRemove(m - {k}, j);
      assert m - {j} - {k} == m - {k} - {j};
    }
  }

  /** The counts of the table add up to the length of the input. */
  lemma {:induction false} CountsSumToLength(s: string)
    ensures Total(CountsOf(s)) == |s|
  {
    if s == [] {
      assert CountsOf(s) == map[];
    } else {
      var p, x := s[..|s| - 1], s[|s| - 1];
      assert s == p + [x];
      CountsStep(p, x);
      CountsSumToLength(p);
      var m, m' := CountsOf(s), CountsOf(p);
      TotalRemove(m, x);
      assert m - {x} == m' - {x};
      OccurrencesPositive(p, x);
      if x in m' {
        TotalRemove(m', x);
      } else {
        assert m' - {x} == m';
      }
    }
  }

  /** Builds the table of `p + [x]` from the table of `p`, as one
      iteration of the source's loop does. */
  lemma CountsNext(p: string, x: char, m: map<char, nat>)
    requires CountsOf(p) == m
    ensures CountsOf(p + [x]) == m[x := (if x in m then m[x] else 0) + 1]
  {
    CountsLookup(p, x);
    CountsStep(p, x);
  }

  /** The `bat` example of the unit tests. */
  lemma CountsOfBat()
    ensures CountsOf("bat") == map['b' := 1, 'a' := 1, 't' := 1]
  {
    CountsEmpty("");
    CountsNext("", 'b', map[]);
    assert "" + ['b'] == "b";
    CountsNext("b", 'a', map['b' := 1]);
    assert "b" + ['a'] == "ba";
    CountsNext("ba", 't', map['b' := 1, 'a' := 1]);
    assert "ba" + ['t'] == "bat";
  }

  lemma CountsOfCo()
    ensures CountsOf("co") == map['c' := 1, 'o' := 1]
  {
    CountsEmpty("");
    CountsNext("", 'c', map[]);
    assert "" + ['c'] == "c";
    CountsNext("c", 'o', map['c' := 1]);
    assert "c" + ['o'] == "co";
  }

  lemma CountsOfComm()
    ensures CountsOf("comm") == map['c' := 1, 'o' := 1, 'm' := 2]
  {
    CountsOfCo();
    CountsNext("co", 'm', map['c' := 1, 'o' := 1]);
    assert "co" + ['m'] == "com";
    CountsNext("com", 'm', map['c' := 1, 'o' := 1, 'm' := 1]);
    assert "com" + ['m'] == "comm";
  }

  /** The `commit` example of the unit tests: a repeated letter. */
  lemma CountsOfCommit()
    ensures CountsOf("commit") == map['c' := 1, 'o' := 1, 'm' := 2, 'i' := 1, 't' := 1]
  {
    CountsOfComm();
    CountsNext("comm", 'i', map['c' := 1, 'o' := 1, 'm' := 2]);
    assert "comm" + ['i'] == "commi";
    CountsNext("commi", 't', map['c' := 1, 'o' := 1, 'm' := 2, 'i' := 1]);
    assert "commi" + ['t'] == "commit";
  }

  lemma CountsOfMi()
    ensures CountsOf("mi") == map['m' := 1, 'i' := 1]
  {
    CountsEmpty("");
    CountsNext("", 'm', map[]);
    assert "" + ['m'] == "m";
    CountsNext("m", 'i', map['m' := 1]);
    assert "m" + ['i'] == "mi";
  }

  lemma CountsOfMiss()
    ensures CountsOf("miss") == map['m' := 1, 'i' := 1, 's' := 2]
  {
    CountsOfMi();
    CountsNext("mi", 's', map['m' := 1, 'i' := 1]);
    assert "mi" + ['s'] == "mis";
    CountsNext("mis", 's', map['m' := 1, 'i' := 1, 's' := 1]);
    assert "mis" + ['s'] == "miss";
  }

  lemma CountsOfMissis()
    ensures CountsOf("missis") == map['m' := 1, 'i' := 2, 's' := 3]
  {
    CountsOfMiss();
    CountsNext("miss", 'i', map['m' := 1, 'i' := 1, 's' := 2]);
    assert "miss" + ['i'] == "missi";
    CountsNext("missi", 's', map['m' := 1, 'i' := 2, 's' := 2]);
    assert "missi" + ['s'] == "missis";
  }

  lemma CountsOfMississ()
    ensures CountsOf("mississ") == map['m' := 1, 'i' := 2, 's' := 4]
  {
    CountsOfMissis();
    CountsNext("missis", 's', map['m' := 1, 'i' := 2, 's' := 3]);
    assert "missis" + ['s'] == "mississ";
  }

  lemma CountsOfMississi()
    ensures CountsOf("mississi") == map['m' := 1, 'i' := 3, 's' := 4]
  {
    CountsOfMississ();
    CountsNext("mississ", 'i', map['m' := 1, 'i' := 2, 's' := 4]);
    assert "mississ" + ['i'] == "mississi";
  }

  lemma CountsOfMississip()
    ensures CountsOf("mississip") == map['m' := 1, 'i' := 3, 's' := 4, 'p' := 1]
  {
    CountsOfMississi();
    CountsNext("mississi", 'p', map['m' := 1, 'i' := 3, 's' := 4]);
    assert "mississi" + ['p'] == "mississip";
  }

  lemma CountsOfMississipp()
    ensures CountsOf("mississipp") == map['m' := 1, 'i' := 3, 's' := 4, 'p' := 2]
  {
    CountsOfMississip();
    CountsNext("mississip", 'p', map['m' := 1, 'i' := 3, 's' := 4, 'p' := 1]);
    assert "mississip" + ['p'] == "mississipp";
  }

  /** The `mississippi` example of the unit tests: letters repeated up to
      four times. */
  lemma CountsOfMississippi()
    ensures CountsOf("mississippi") == map['m' := 1, 'i' := 4, 's' := 4, 'p' := 2]
  {
    CountsOfMississipp();
    CountsNext("mississipp", 'i', map['m' := 1, 'i' := 3, 's' := 4, 'p' := 2]);
    assert "mississipp" + ['i'] == "mississippi";
  }
}
