# LString in Dafny

`LString` is a mutable string kept as a singly linked chain of character
nodes (`node { char data; node next; }`) with two fields: `length` and
`front`. It can be built empty or from a `String`. It can report its length
and turn itself back into a `String`. It offers lexicographic `compareTo` and
`equals`, reads and overwrites single characters (`charAt`, `setCharAt`),
copies out a range as a new `LString` (`substring`), and splices a copy of
another `LString` into a range in place (`replace`).

Most method bodies in `LString.java` are placeholders:
- `compareTo` returns 0.
- `equals` returns false.
- `charAt` returns `'a'`.
- `setCharAt` does nothing.
- `substring` and `replace` return `null`.

The model implements the behaviour that the comments on these methods and
`LStringTest.java` require.

Files:

- `lexicographic.dfy` (module `Lexicographic`): `Compare` is the result of
  Java's `String.compareTo`. `Precedes` is an independent, non-recursive
  definition of "comes first". The lemmas prove that `Compare` is a total
  order and that its sign means `Precedes`.
- `lstring.dfy` (module `LinkedString`): the `Node` and `LString` classes.
  - `LString` keeps ghost `Contents` (the characters), `Nodes` (the chain
    from `front`) and `Repr` (the objects it owns).
  - `Valid()` says four things:
    - the chain from `front` has exactly `length` nodes and ends in null;
    - the nodes spell `Contents`;
    - `front` is null exactly when the chain is empty;
    - `Repr` is the LString together with its nodes.
  - Each LString owns its nodes. `substring` and `replace` copy nodes and
    never share them.
  - An out-of-range index gives `Err(IndexOutOfBounds)` in place of Java's
    `IndexOutOfBoundsException`.
- `scenarios.dfy` (module `LStringScenarios`): client methods that build
  fresh LStrings and chain operations together. They state the observable
  outcomes the tests check, for all inputs.
- `as_written.dfy` (module `ConstructorAsWritten`): the string constructor
  with its loop exactly as written (see Findings).

## Model

| member | source | states |
|---|---|---|
| Lexicographic.CompareAntisymmetric | LString.java:63-64 | swapping the operands negates the comparison, so the signs are opposite |
| Lexicographic.CompareZeroIff | LString.java:63-64 | the comparison is 0 exactly when the two strings are equal |
| Lexicographic.CompareReflexive | LString.java:63-64 | every string compares equal to itself |
| Lexicographic.CompareNegativeIff | LString.java:63-64 | the result is negative exactly when a comes first: after a common prefix, a ends first or a's next character has the smaller code (so "B" < "BB" < "Ba" < "a") |
| Lexicographic.FirstDifferenceDecides | LString.java:63-64 | the first differing position decides, with the difference of the character codes |
| Lexicographic.ProperPrefixIsSmaller | LString.java:63-64 | a proper prefix compares smaller than the string it begins |
| Lexicographic.CompareTransitive | LString.java:63-64 | "comes first" is transitive |
| LinkedString.ChainNoRepeat | LString.java:6-21 | in a null-terminated chain, two different positions hold different nodes |
| LinkedString.ChainIsDistinct | LString.java:6-21 | a null-terminated chain visits no node twice, so it has no cycle |
| LinkedString.Node.constructor | LString.java:10-12 | a node holding the given character, with next null |
| LinkedString.Node.Link | LString.java:14-17 | a node holding the given character and linked to the given next node |
| LinkedString.CopyNodes | LString.java:109-111 | copies the first count nodes of a chain into a fresh null-terminated chain with the same characters, and returns its first and last node |
| LinkedString.LString.constructor | LString.java:23-26 | the empty LString: a valid empty chain with front null and length 0 |
| LinkedString.LString.FromString | LString.java:28-44 | one fresh node per character, linked in order; Contents is the original and length is its length |
| LinkedString.LString.Length | LString.java:46-49 | the length field is the number of characters |
| LinkedString.LString.ToString | LString.java:51-61 | walking from front to null collects exactly Contents |
| LinkedString.LString.CompareTo | LString.java:63-75 | the result is Compare(this, other): negative, zero or positive as this comes first, is equal, or comes after |
| LinkedString.LString.Equals | LString.java:77-89 | true exactly when the characters are equal, and exactly when the comparison is 0 |
| LinkedString.LString.CharAt | LString.java:91-97 | the character at index when 0 <= index < length; otherwise IndexOutOfBounds |
| LinkedString.LString.SetCharAt | LString.java:99-107 | in range, only position index changes, to ch, and the chain (front, its nodes in order), length and owned objects stay the same; out of range, IndexOutOfBounds and nothing changes |
| LinkedString.LString.Substring | LString.java:109-125 | succeeds exactly when 0 <= start <= end <= length, giving a new valid LString made of fresh nodes and holding Contents[start..end], empty when start == end; otherwise IndexOutOfBounds |
| LinkedString.LString.Splice | LString.java:136-142 | relinks the chain so that a fresh copy takes the place of [start, end), covering insertion at front, in the middle and at the end |
| LinkedString.LString.Replace | LString.java:127-147 | succeeds exactly when 0 <= start <= end <= length, and returns this same LString holding s[..start] + r + s[end..]; new nodes are fresh; the replacement keeps its characters and shares no node with the result; out of range, IndexOutOfBounds and no field of this LString or of its nodes changes |
| LStringScenarios.FromStringRoundTrip | LStringTest.java:220-228 | building from a string and calling toString gives the string back, and length() is its length |
| LStringScenarios.EmptyConstructions | LStringTest.java:182-200 | LString() and LString("") are both "" with length 0 |
| LStringScenarios.CompareBothWays | LStringTest.java:252-273 | compareTo called both ways round gives opposite signs; equals is symmetric and agrees with compareTo being 0 and with equal content |
| LStringScenarios.CompareOf | LStringTest.java:252-263 | compareTo on LStrings built from s and t is Compare(s, t), and it is negative exactly when s comes first |
| LStringScenarios.CompareSamples | LStringTest.java:239-247 | "B" < "a", "BB" < "Ba", "" < "a", "a" < "ab" and "abc" < "abd" |
| LStringScenarios.SetThenGet | LStringTest.java:310-353 | setCharAt then charAt at the same index reads back ch, with the length and all other characters unchanged; out of range both fail |
| LStringScenarios.SubstringIsCopy | LStringTest.java:497-518 | overwriting a character of the source after substring leaves the substring's characters as taken |
| LStringScenarios.ReplaceKeepsReplacement | LStringTest.java:659-728 | replace gives the same instance holding s[..start] + r + s[end..]; setCharAt on the result leaves the replacement's characters as they were |
| LStringScenarios.ReplaceSample | LStringTest.java:709-718 | for the test string "abcd" (left = right = 2), replace(2, 2, "xyzzy") gives "abxyzzycd" of length 9 on the same LString |
| LStringScenarios.ReplaceWithItself | LString.java:127-129 | splicing an LString into itself gives s[..start] + s + s[end..], because the copy is taken before any link changes |
| ConstructorAsWritten.FromStringAsWritten | LString.java:29-44 | with the loop as written, the chain of a string of two or more characters is its first character followed by its last, while length counts them all |
| ConstructorAsWritten.LostCharacters | LString.java:36-40 | for "abc" the chain is 'a' then 'c' and ends there, while length is 3 |

## Left out

- The `System.out.println` debugging output in the string constructor (LString.java:33, 38) is I/O and is not modelled.
- LinkedString.LString.Equals takes an LString argument. The Java `Object.equals` handling of `null` and of other classes (LString.java:80) is not modelled.
- LinkedString.LString.CompareTo returns the `String.compareTo` value: the difference of the first differing characters, or of the lengths. Only the sign of the result is part of the contract.
- LinkedString.LString.Length: `length` is an unbounded integer. Java `int` overflow, which needs more than 2^31 - 1 nodes, is not modelled.
- Characters are Dafny `char` values treated as atomic. UTF-16 surrogate pairs are not modelled.
- LinkedString.LString.Substring returns an empty LString when start == end == length. The commented-out sketch at LString.java:118-120 would return `null` there, but LStringTest.java:467-470 expects an empty LString.
- LinkedString.LString.Replace requires the replacement to be this LString or to share no object with it. No other kind of sharing can arise, because every operation copies nodes.
- The test harness in LStringTest.java (runner, listeners, timeouts, result printing) is not modelled. The random indices it picks are replaced by statements over all indices.

## Findings

| source | as written | input that shows it | evidently intended | confidence | as-written member | corrected member |
|---|---|---|---|---|---|---|
| LString.java:36-40 | the loop assigns `curr.next` but never advances `curr`, so each new node replaces the one before it while `length` still counts every character | `new LString("abc")`: the chain is 'a' then 'c', length is 3, and toString would give "ac" | advance `curr = curr.next` after linking each node, so the chain spells the whole string | not executed | ConstructorAsWritten.LostCharacters | LinkedString.LString.FromString |
