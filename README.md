# Letter counts and anagrams

A Dafny model of the string utility of the `tdd-es6` example repository:

- `getLetterCount(input)` (src/letter-count.js) returns a character-frequency
  table. A falsy input (`null`, `undefined` or the empty string) gives an empty
  table. Otherwise the string is split into characters, and one pass creates
  each key with count 0 the first time it is seen and increments it.
- `areAnagrams(string1, string2)` (src/anagram.js) lower-cases both strings,
  builds their tables, deletes the `' '` key from both and compares the tables
  for deep equality.

Layout:

- `letter_count.dfy`, module `LetterCount`: the JavaScript input
  (`Input = Undefined | Null | Str(text)`), the reference count
  `Occurrences` and table `CountsOf`, and `GetLetterCount`. This is a method
  whose `while` loop performs the two updates of the source's `forEach` body
  on a `map<char, nat>`. Its invariant says that after `i` characters the map
  is `CountsOf` of the first `i` characters. The lemmas beside it prove the
  table's properties: every count is positive, the counts sum to the
  length, the table ignores order, and the unit-test examples `bat`,
  `commit` and `mississippi` hold.
- `case_mapping.dfy`, module `CaseMapping`: `toLowerCase`, restricted to
  ASCII letters, with the facts the anagram proofs need.
- `anagram.dfy`, module `Anagram`: `AreAnagrams` as a method. It calls
  `GetLetterCount` on the lowered strings, removes the space key from each
  map (the source's `delete`) and compares the maps (the source's
  `_.isEqual`). It is proved against the predicate `SameLetters`: every
  character other than the space occurs equally often in the two lowered
  strings. The lemmas cover symmetry, transitivity, permutations, case,
  spaces and length.
- `anagram_examples.dfy`, module `AnagramExamples`: the four cases of
  src/anagram.test.js, proved about `SameLetters`.

## Model

| member | source | states |
|---|---|---|
| LetterCount.GetLetterCount | src/letter-count.js:1-14 | a falsy input gives the empty map; otherwise the keys are exactly the characters of the input, and each maps to its number of occurrences, which is at least 1; the loop invariant ties the map after `i` characters to the counts of the first `i` characters |
| LetterCount.OccurrencesPositive | src/letter-count.js:8-10 | a character is in the string exactly when its count is positive |
| LetterCount.OccurrencesMultiset | src/letter-count.js:7-11 | the count of `c` equals the multiplicity of `c` in the string's multiset |
| LetterCount.OccurrencesConcat | src/letter-count.js:7-11 | counts add up over a concatenation |
| LetterCount.CountsEmpty | src/letter-count.js:2-5 | the table is empty exactly when the string is empty |
| LetterCount.CountsStep | src/letter-count.js:9-10 | one loop iteration: appending `x` sets the entry of `x` to its old count (0 when missing) plus one and leaves every other entry unchanged |
| LetterCount.CountsMeaning | src/letter-count.js:8-10 | the keys of the table are exactly the characters of the input, each mapped to its number of occurrences, which is at least 1 |
| LetterCount.CountsPositive | src/letter-count.js:9-10 | every stored count is at least 1 |
| LetterCount.CountsLookup | src/letter-count.js:9 | reading a key, with a missing key defaulting to 0 as the source does, gives its number of occurrences |
| LetterCount.CountsPermutation | src/letter-count.js:7-11 | any permutation of the input gives the same table |
| LetterCount.CountsEqualIffPermutation | src/letter-count.js:7-11 | two strings have equal tables exactly when each is a permutation of the other |
| LetterCount.CountsSumToLength | src/letter-count.js:7-11 | the counts in the table add up to the length of the input |
| LetterCount.CountsOfBat | src/letter-count.test.js:11-15 | the table of `bat` is `{b: 1, a: 1, t: 1}` |
| LetterCount.CountsOfCommit | src/letter-count.test.js:17-21 | the table of `commit` is `{c: 1, o: 1, m: 2, i: 1, t: 1}` |
| LetterCount.CountsOfMississippi | src/letter-count.test.js:35-39 | the table of `mississippi` is `{m: 1, i: 4, s: 4, p: 2}` |
| CaseMapping.LowerCase | src/anagram.js:6-7 | `toLowerCase` restricted to ASCII: the lowered string has the input's length |
| CaseMapping.LowerCaseChars | src/anagram.js:6-7 | no upper-case ASCII letter is left; each one becomes the lower-case letter whose upper case it is, and every other character is kept |
| CaseMapping.LowerCasePermutation | src/anagram.js:6-7 | lower-casing a permutation of a string gives a permutation of the lowered string |
| CaseMapping.LowerForgetsCase | src/anagram.js:5-7 | a letter lowers to the same character whether it is written in upper or lower case |
| Anagram.AreAnagrams | src/anagram.js:4-14 | the result is true exactly when the lowered strings agree on the count of every character except `' '` |
| Anagram.TablesAgreeOffKey | src/anagram.js:9-12 | two tables with key `k` deleted are equal exactly when the strings agree on the count of every character other than `k` |
| Anagram.OccurrencesWithoutSpaces | src/anagram.js:9-11 | dropping spaces zeroes the space count and keeps every other count |
| Anagram.SameLettersIffPermutation | src/anagram.js:6-12 | two strings are anagrams exactly when their lowered, space-free forms are permutations of each other |
| Anagram.SameLettersSymmetric | src/anagram.js:12 | `areAnagrams(a, b)` equals `areAnagrams(b, a)` |
| Anagram.SameLettersTransitive | src/anagram.js:12 | anagram-ness is transitive |
| Anagram.PermutationIsAnagram | src/anagram.js:6-12 | any permutation of a string, including the string itself, is an anagram of it |
| Anagram.CaseInsensitive | src/anagram.js:5-7 | writing any characters of either argument in upper or lower case leaves the result unchanged |
| Anagram.SpaceInsertionIgnored | src/anagram.js:9-11 | inserting a space at any position leaves the result unchanged |
| Anagram.SpacesIgnored | src/anagram.js:9-11 | removing all spaces from the first argument, from the second, or from both leaves the result unchanged |
| Anagram.OtherCharactersCount | src/anagram.js:9-11 | only the space is dropped: appending any other character, such as a tab, makes a string no anagram of the original |
| Anagram.LengthMismatch | src/anagram.js:6-12 | strings whose space-free lengths differ are not anagrams |
| AnagramExamples.ListenSilent | src/anagram.test.js:5-9 | `listen` and `silent` are anagrams |
| AnagramExamples.ListensNotSilent | src/anagram.test.js:11-15 | `listens` and `silent` are not |
| AnagramExamples.UpperListenSilent | src/anagram.test.js:17-21 | `LISTEN` and `Silent` are anagrams |
| AnagramExamples.ConversationVoicesRantOn | src/anagram.test.js:23-27 | `Conversation` and `Voices rant on` are anagrams |

## Left out

- CaseMapping.LowerCase: covers only the ASCII letters `A`-`Z`. JavaScript's `toLowerCase` also applies the full Unicode case mapping, which can change a string's length (`İ`) or depend on context (final sigma). That mapping is a large table outside this repository.
- UTF-16 code units: `split('')` splits a string into UTF-16 code units. Dafny's `char` is a Unicode scalar value, so a character outside the Basic Multilingual Plane counts as one key here but as two surrogate keys in JavaScript.
- LetterCount.GetLetterCount: inputs other than strings, `null` and `undefined` are not modelled. For example, `0` and `false` are falsy and return `{}`, and a truthy non-string throws because it has no `split`.
- Anagram.AreAnagrams: takes two strings. A `null` or `undefined` argument makes `toLowerCase` throw a `TypeError`, and that path is not modelled.
- `_.isEqual` from underscore is a library routine. On two plain objects with number values it amounts to equal key sets and equal values, which is modelled as equality of `map<char, nat>`.
- JavaScript counts are IEEE doubles, which stay exact up to 2^53. The model uses unbounded `nat`, so a string too long for that precision is not modelled.
- In src/letter-count.test.js:29-33 the test titled "undefined" passes `null`. The model's `Input` has both `Undefined` and `Null`, and `GetLetterCount` gives the empty map for each.
- integration-tests/src/db.js: a MongoDB connect, `findOne`, close sequence, plus database naming that depends on the environment. This is I/O through a driver that is not part of this model.
- integration-tests/src/server.js: an Express route that passes the lookup result to `res.json`. It has no 404 or 500 branch, though server.test.js expects both. There is no logic of its own to model.
- integration-tests/src/test-helpers.js and mocha-setup.js: database seeding and reset, and test-runner setup.
