/**
  Lower-casing, as `String.prototype.toLowerCase` does it for the ASCII
  letters: `A` to `Z` become `a` to `z`, every other character is kept.
  It works character by character, so a lowered string has the input's
  length and its characters line up with the input's.
 */
module CaseMapping {

  predicate IsUpper(c: char) {
    'A' <= c <= 'Z'
  }

  predicate IsLower(c: char) {
    'a' <= c <= 'z'
  }

  function ToLower(c: char): char {
    if IsUpper(c) then (c as int + 32) as char else c
  }

  function ToUpper(c: char): char {
    if IsLower(c) then (c as int - 32) as char else c
  }

  /** `s.toLowerCase()`, which keeps the length (`LowerCaseChars` says
      what happens to each character). */
  function LowerCase(s: string): (r: string)
    ensures |r| == |s|
  {
    seq(|s|, i requires 0 <= i < |s| => ToLower(s[i]))
  }

  /** No upper-case letter is left; every upper-case letter is replaced by
      its lower-case partner and every other character is kept. */
  lemma LowerCaseChars(s: string)
    ensures forall i :: 0 <= i < |s| ==> !IsUpper(LowerCase(s)[i])
    ensures forall i :: 0 <= i < |s| && !IsUpper(s[i]) ==> LowerCase(s)[i] == s[i]
    ensures forall i :: 0 <= i < |s| && IsUpper(s[i]) ==>
              IsLower(LowerCase(s)[i]) && ToUpper(LowerCase(s)[i]) == s[i]
  {
  }

  /** A character lowers to a space exactly when it is a space. */
  lemma LowerSpace(c: char)
    ensures ToLower(c) == ' ' <==> c == ' '
  {
  }

  /** Lowering forgets which case a letter was written in. */
  lemma LowerForgetsCase(c: char)
    ensures ToLower(ToUpper(c)) == ToLower(c)
    ensures ToLower(ToLower(c)) == ToLower(c)
  {
  }

  /** Lowering a concatenation lowers each part. */
  lemma LowerCaseConcat(x: string, y: string)
    ensures LowerCase(x + y) == LowerCase(x) + LowerCase(y)
  {
    assert |LowerCase(x + y)| == |LowerCase(x) + LowerCase(y)|;
    forall i | 0 <= i < |x + y|
      ensures LowerCase(x + y)[i] == (LowerCase(x) + LowerCase(y))[i]
    {
      if i < |x| {
        assert (x + y)[i] == x[i];
      } else {
        assert (x + y)[i] == y[i - |x|];
      }
    }
  }

  /** Lowering a string with one character taken out of the middle. */
  lemma LowerCaseMiddle(u: string, x: char, v: string)
    ensures multiset(LowerCase(u + [x] + v)) == multiset(LowerCase(u + v)) + multiset{ToLower(x)}
  {
    LowerCaseConcat(u + [x], v);
    LowerCaseConcat(u, [x]);
    LowerCaseConcat(u, v);
    assert LowerCase([x]) == [ToLower(x)];
  }

  /** Any character of `t` can be cut out of it. */
  lemma CutOut(t: string, x: char) returns (u: string, v: string)
    requires x in multiset(t)
    ensures t == u + [x] + v
    ensures multiset(u + v) == multiset(t) - multiset{x}
  {
    var j :| 0 <= j < |t| && t[j] == x;
    u, v := t[..j], t[j + 1..];
    assert t == u + [x] + v;
    assert multiset(t) == multiset(u + v) + multiset{x};
  }

  /** Lowering a permutation of `s` gives a permutation of the lowered `s`. */
  lemma {:induction false} LowerCasePermutation(s: string, t: string)
    requires multiset(s) == multiset(t)
    ensures multiset(LowerCase(s)) == multiset(LowerCase(t))
    decreases |s|
  {
    if s != [] {
      var p, x := s[..|s| - 1], s[|s| - 1];
      assert s == p + [x];
      assert multiset(s) == multiset(p) + multiset{x};
      var u, v := CutOut(t, x);
      LowerCasePermutation(p, u + v);
      LowerCaseMiddle(p, x, []);
      assert p + [x] + [] == s && p + [] == p;
      LowerCaseMiddle(u, x, v);
    }
  }
}
