/** Client scenarios: each method builds its LStrings afresh, runs a sequence
    of operations on them and states what the caller observes. They follow
    the situations LStringTest.java exercises, stated for all inputs rather
    than for the test's sample strings and random indices. */
module LStringScenarios {
  import Lexicographic
  import opened LinkedString

  /** Building from a string and reading it back gives the same characters
      and the same length. */
  method FromStringRoundTrip(s: seq<char>) returns (t: seq<char>, n: int)
    ensures t == s && n == |s|
  {
    var ls := new LString.FromString(s);
    t := ls.ToString();
    n := ls.Length();
  }

  /** LString() and LString("") are both the empty string, of length 0. */
  method EmptyConstructions() returns (t1: seq<char>, n1: int, t2: seq<char>, n2: int)
    ensures t1 == [] && n1 == 0 && t2 == [] && n2 == 0
  {
    var a := new LString();
    var b := new LString.FromString([]);
    t1 := a.ToString();
    n1 := a.Length();
    t2 := b.ToString();
    n2 := b.Length();
  }

  /** compareTo and equals, each called both ways round: the signs are
      opposite, equals is symmetric and agrees with compareTo being 0. */
  method CompareBothWays(s: seq<char>, t: seq<char>)
    returns (st: int, ts: int, eqST: bool, eqTS: bool)
    ensures (st < 0 <==> ts > 0) && (st == 0 <==> ts == 0)
    ensures st < 0 <==> Lexicographic.Precedes(s, t)
    ensures eqST == eqTS && (eqST <==> st == 0) && (eqST <==> s == t)
  {
    var a := new LString.FromString(s);
    var b := new LString.FromString(t);
    st := a.CompareTo(b);
    ts := b.CompareTo(a);
    eqST := a.Equals(b);
    eqTS := b.Equals(a);
    Lexicographic.CompareAntisymmetric(s, t);
    Lexicographic.CompareNegativeIff(s, t);
  }

  /** compareTo on two LStrings built from s and t. */
  method CompareOf(s: seq<char>, t: seq<char>) returns (r: int)
    ensures r == Lexicographic.Compare(s, t)
    ensures r < 0 <==> Lexicographic.Precedes(s, t)
  {
    var a := new LString.FromString(s);
    var b := new LString.FromString(t);
    r := a.CompareTo(b);
    Lexicographic.CompareNegativeIff(s, t);
  }

  /** The order is by character code, without case folding:
      "B" < "a", "BB" < "Ba", "" < "a", "a" < "ab" and "abc" < "abd". */
  method CompareSamples() returns (r1: int, r2: int, r3: int, r4: int, r5: int)
    ensures r1 < 0 && r2 < 0 && r3 < 0 && r4 < 0 && r5 < 0
  {
    r1 := CompareOf("B", "a");
    r2 := CompareOf("BB", "Ba");
    r3 := CompareOf("", "a");
    r4 := CompareOf("a", "ab");
    r5 := CompareOf("abc", "abd");
  }

  /** setCharAt then charAt at the same index reads back ch; the length and
      every other position are unchanged; out of range, both fail. */
  method SetThenGet(s: seq<char>, index: int, ch: char)
    returns (setResult: Result<()>, got: Result<char>, t: seq<char>, n: int)
    ensures 0 <= index < |s| ==> setResult.Ok? && got == Ok(ch) && t == s[index := ch]
    ensures !(0 <= index < |s|) ==> setResult.Err? && got.Err? && t == s
    ensures n == |s|
  {
    var ls := new LString.FromString(s);
    setResult := ls.SetCharAt(index, ch);
    got := ls.CharAt(index);
    t := ls.ToString();
    n := ls.Length();
  }

  /** A substring is a copy: overwriting a character of its source
      afterwards leaves the substring's characters as they were taken. */
  method SubstringIsCopy(s: seq<char>, start: int, end: int, index: int, ch: char)
    returns (r: Result<seq<char>>)
    ensures r.Ok? <==> 0 <= start <= end <= |s|
    ensures r.Ok? ==> r.value == s[start..end]
  {
    var source := new LString.FromString(s);
    var sub := source.Substring(start, end);
    if sub.Err? {
      return Err(sub.error);
    }
    var _ := source.SetCharAt(index, ch);
    var t := sub.value.ToString();
    r := Ok(t);
  }

  /** replace returns the receiver holding s[..start] + rep + s[end..];
      overwriting a character of the result leaves the replacement intact. */
  method ReplaceKeepsReplacement(s: seq<char>, start: int, end: int, rep: seq<char>,
                                 index: int, ch: char)
    returns (r: Result<seq<char>>, same: bool, repAfter: seq<char>)
    ensures r.Ok? <==> 0 <= start <= end <= |s|
    ensures r.Ok? && 0 <= index < |s[..start] + rep + s[end..]| ==>
              same && r.value == (s[..start] + rep + s[end..])[index := ch]
    ensures r.Ok? && !(0 <= index < |s[..start] + rep + s[end..]|) ==>
              same && r.value == s[..start] + rep + s[end..]
    ensures repAfter == rep
  {
    var target := new LString.FromString(s);
    var replacement := new LString.FromString(rep);
    var res := target.Replace(start, end, replacement);
    if res.Err? {
      repAfter := replacement.ToString();
      return Err(res.error), false, repAfter;
    }
    same := res.value == target;
    var _ := target.SetCharAt(index, ch);
    var t := target.ToString();
    r := Ok(t);
    repAfter := replacement.ToString();
  }

  /** "abcd".replace(2, 2, "xyzzy") inserts in the middle: "abxyzzycd",
      held by the same LString. */
  method ReplaceSample() returns (t: seq<char>, n: int, same: bool)
    ensures t == "abxyzzycd" && n == 9 && same
  {
    var ls := new LString.FromString("abcd");
    var xyzzy := new LString.FromString("xyzzy");
    var r := ls.Replace(2, 2, xyzzy);
    assert "abcd"[..2] + "xyzzy" + "abcd"[2..] == "abxyzzycd";
    same := r.Ok? && r.value == ls;
    t := ls.ToString();
    n := ls.Length();
  }

  /** An LString may be spliced into itself: the copy is taken before any
      link changes, so appending s to itself gives s + s. */
  method ReplaceWithItself(s: seq<char>, start: int, end: int) returns (r: Result<seq<char>>)
    ensures r.Ok? <==> 0 <= start <= end <= |s|
    ensures r.Ok? ==> r.value == s[..start] + s + s[end..]
  {
    var ls := new LString.FromString(s);
    var res := ls.Replace(start, end, ls);
    if res.Err? {
      return Err(res.error);
    }
    var t := ls.ToString();
    r := Ok(t);
  }
}
