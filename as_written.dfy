/** The string constructor of LString exactly as its loop is written: each
    new node is linked after curr, but curr is never moved on, so each node
    replaces the one linked before it while length still counts every
    character. LinkedString.LString.FromString is the corrected constructor. */
module ConstructorAsWritten {
  import opened LinkedString

  /** The front node and the length field the constructor leaves behind. For
      two or more characters the chain holds only the first and the last. */
  method FromStringAsWritten(original: seq<char>) returns (front: Node?, length: int)
    ensures |original| == 0 ==> front == null && length == 0
    ensures |original| > 0 ==> front != null && front.data == original[0] && length == |original|
    ensures |original| == 1 ==> front != null && front.next == null
    ensures |original| > 1 ==>
              front != null && front.next != null && front.next.next == null &&
              front.next.data == original[|original| - 1]
  {
    length := 0;
    front := null;
    if |original| > 0 {
      front := new Node(original[0]);
      var curr := front;
      length := length + 1;
      for i := 1 to |original|
        invariant length == i && curr == front && front.data == original[0]
        invariant i == 1 ==> front.next == null
        invariant i > 1 ==> front.next != null && front.next.next == null &&
                            front.next.data == original[i - 1]
      {
        curr.next := new Node(original[i]);
        length := length + 1;
      }
    }
  }

  /** Built from "abc", the chain is 'a' then 'c' and ends there, yet the
      length field says 3: toString would give "ac". */
  method LostCharacters() returns (walked: seq<char>, ends: bool, length: int)
    ensures walked == "ac" && ends && length == 3 && |walked| != length
  {
    var front;
    front, length := FromStringAsWritten("abc");
    walked := [front.data, front.next.data];
    ends := front.next.next == null;
  }
}
