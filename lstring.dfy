/** LString: a mutable string kept as a singly linked chain of character
    nodes, with a cached length. Every LString owns its nodes exclusively:
    substring copies the nodes it returns and replace copies the nodes it
    splices in, so no node is ever reachable from two LStrings. */
module LinkedString {
  import Lexicographic

  /** The one error the operations raise: Java's IndexOutOfBoundsException. */
  datatype Error = IndexOutOfBounds

  datatype Result<T> = Ok(value: T) | Err(error: Error)

  /** One character and the link to the node after it (null at the end). */
  class Node {
    var data: char
    var next: Node?

    constructor (data: char)
      ensures this.data == data && next == null
    {
      this.data := data;
      next := null;
    }

    constructor Link(data: char, next: Node?)
      ensures this.data == data && this.next == next
    {
      this.data := data;
      this.next := next;
    }
  }

  /** The set of nodes of a chain, as frame objects. */
  ghost function Elements(ns: seq<Node>): set<Node>
  {
    set n | n in ns
  }

  /** The first node of ns, or last when ns is empty. */
  function First(ns: seq<Node>, last: Node?): (n: Node?)
    ensures ns != [] ==> n == ns[0]
    ensures ns == [] ==> n == last
  {
    if ns == [] then last else ns[0]
  }

  /** The node n as a set: empty when n is null. */
  ghost function Opt(n: Node?): set<Node>
  {
    if n == null then {} else {n}
  }

  /** The last node of ns, or null when ns is empty. */
  function Last(ns: seq<Node>): (n: Node?)
    ensures ns != [] ==> n == ns[|ns| - 1]
    ensures ns == [] ==> n == null
  {
    if ns == [] then null else ns[|ns| - 1]
  }

  /** Each node of ns links to the next one, and the final one to last. */
  ghost predicate Linked(ns: seq<Node>, last: Node?)
    reads Elements(ns)`next
  {
    (forall i :: 0 <= i < |ns| - 1 ==> ns[i].next == ns[i + 1]) &&
    (|ns| > 0 ==> ns[|ns| - 1].next == last)
  }

  /** No node occurs twice in ns. */
  ghost predicate Distinct(ns: seq<Node>)
  {
    forall i, j :: 0 <= i < j < |ns| ==> ns[i] != ns[j]
  }

  /** ns is a chain linked in order and ending in null. */
  ghost predicate Chain(ns: seq<Node>)
    reads Elements(ns)`next
  {
    Linked(ns, null)
  }

  /** Two positions of a null-terminated chain hold different nodes: the
      later one is nearer the end, so following next from both reaches the
      last node from one while the other still has a successor. */
  lemma {:induction false} ChainNoRepeat(ns: seq<Node>, i: nat, j: nat)
    requires Chain(ns) && i < j < |ns|
    ensures ns[i] != ns[j]
    decreases |ns| - j
  {
    assert ns[i].next == ns[i + 1];
    if j < |ns| - 1 {
      ChainNoRepeat(ns, i + 1, j + 1);
      assert ns[j].next == ns[j + 1];
    }
  }

  /** A null-terminated chain has no cycle: it never visits a node twice. */
  lemma ChainIsDistinct(ns: seq<Node>)
    requires Chain(ns)
    ensures Distinct(ns)
  {
    forall i, j | 0 <= i < j < |ns|
      ensures ns[i] != ns[j]
    {
      ChainNoRepeat(ns, i, j);
    }
  }

  /** The nodes of ns carry the characters of s, one each, in order. */
  ghost predicate Spells(ns: seq<Node>, s: seq<char>)
    reads Elements(ns)`data
  {
    |ns| == |s| && forall i :: 0 <= i < |ns| ==> ns[i].data == s[i]
  }

  lemma LinkedSplit(ns: seq<Node>, k: nat, last: Node?)
    requires k <= |ns| && Linked(ns, last)
    ensures Linked(ns[..k], First(ns[k..], last)) && Linked(ns[k..], last)
  {
  }

  lemma LinkedConcat(xs: seq<Node>, ys: seq<Node>, last: Node?)
    requires Linked(xs, First(ys, last)) && Linked(ys, last)
    ensures Linked(xs + ys, last)
  {
  }

  lemma DistinctSlices(ns: seq<Node>, start: nat, end: nat)
    requires start <= end <= |ns| && Distinct(ns)
    ensures Elements(ns[..start]) !! Elements(ns[end..])
    ensures Elements(ns[..start]) + Elements(ns[end..]) <= Elements(ns)
  {
  }

  lemma ElementsConcat(xs: seq<Node>, ys: seq<Node>)
    ensures Elements(xs + ys) == Elements(xs) + Elements(ys)
  {
  }

  /** Three chains, each linked to the first node of the next, form one chain spelling the three strings in turn. */
  lemma SpliceChain(xs: seq<Node>, ys: seq<Node>, zs: seq<Node>,
                    s: seq<char>, t: seq<char>, u: seq<char>)
    requires Linked(xs, First(ys, First(zs, null))) && Linked(ys, First(zs, null)) && Linked(zs, null)
    requires Spells(xs, s) && Spells(ys, t) && Spells(zs, u)
    ensures Chain(xs + ys + zs) && Spells(xs + ys + zs, s + t + u)
    ensures Elements(xs + ys + zs) == Elements(xs) + Elements(ys) + Elements(zs)
  {
    LinkedConcat(xs, ys, First(zs, null));
    LinkedConcat(xs + ys, zs, null);
    ElementsConcat(xs, ys);
    ElementsConcat(xs + ys, zs);
    SpellsConcat(xs, ys, s, t);
    SpellsConcat(xs + ys, zs, s + t, u);
  }

  lemma SpellsSlices(ns: seq<Node>, s: seq<char>, start: nat, end: nat)
    requires start <= end <= |ns| && Spells(ns, s)
    ensures Spells(ns[..start], s[..start]) && Spells(ns[end..], s[end..])
  {
  }

  lemma LastOfPrefix(ns: seq<Node>, k: nat)
    requires 0 < k <= |ns| && Distinct(ns)
    ensures ns[..k] == ns[..k - 1] + [ns[k - 1]]
    ensures ns[k - 1] !in Elements(ns[..k - 1])
  {
  }

  /** Cutting a chain at [start, end) leaves a prefix and a suffix that are
      chains of their own, spell the matching slices and share no node; the
      last node of a non-empty prefix follows the rest of the prefix. */
  lemma CutChain(ns: seq<Node>, s: seq<char>, start: nat, end: nat)
    requires Chain(ns) && Spells(ns, s) && start <= end <= |ns|
    ensures Linked(ns[end..], null) && First(ns[end..], null) == (if end < |ns| then ns[end] else null)
    ensures Spells(ns[..start], s[..start]) && Spells(ns[end..], s[end..])
    ensures Elements(ns[..start]) !! Elements(ns[end..])
    ensures Elements(ns[..start]) + Elements(ns[end..]) <= Elements(ns)
    ensures start > 0 ==>
              ns[..start] == ns[..start - 1] + [ns[start - 1]] &&
              Linked(ns[..start - 1], ns[start - 1]) &&
              ns[start - 1] !in Elements(ns[..start - 1]) &&
              ns[start - 1] !in Elements(ns[end..]) &&
              Elements(ns[..start - 1]) <= Elements(ns)
  {
    LinkedSplit(ns, end, null);
    ChainIsDistinct(ns);
    DistinctSlices(ns, start, end);
    SpellsSlices(ns, s, start, end);
    if start > 0 {
      LastOfPrefix(ns, start);
      LinkedSplit(ns, start - 1, null);
    }
  }

  lemma SpellsConcat(xs: seq<Node>, ys: seq<Node>, s: seq<char>, t: seq<char>)
    requires Spells(xs, s) && Spells(ys, t)
    ensures Spells(xs + ys, s + t)
  {
  }

  /** Copies the first count nodes of the chain src into fresh nodes and
      returns the first and last of the copy. The source is only read. */
  method CopyNodes(src: Node?, count: nat, ghost srcNodes: seq<Node>)
    returns (head: Node?, tail: Node?, ghost copy: seq<Node>)
    requires count <= |srcNodes|
    requires count > 0 ==> src == srcNodes[0]
    requires forall i :: 0 <= i < count - 1 ==> srcNodes[i].next == srcNodes[i + 1]
    ensures |copy| == count && Chain(copy)
    ensures forall i :: 0 <= i < count ==> fresh(copy[i]) && copy[i].data == srcNodes[i].data
    ensures head == (if count == 0 then null else copy[0])
    ensures tail == (if count == 0 then null else copy[count - 1])
  {
    if count == 0 {
      return null, null, [];
    }
    var first := new Node(src.data);
    head, tail, copy := first, first, [first];
    var cur := src.next;
    var i := 1;
    while i < count
      invariant 1 <= i <= count && |copy| == i
      invariant i < count ==> cur == srcNodes[i]
      invariant tail == copy[i - 1] && head == copy[0]
      invariant Chain(copy)
      invariant forall k :: 0 <= k < i ==> fresh(copy[k]) && copy[k].data == srcNodes[k].data
    {
      ChainIsDistinct(copy);
      var n := new Node(cur.data);
      tail.next := n;
      tail := n;
      copy := copy + [n];
      cur := cur.next;
      i := i + 1;
    }
  }

  class LString {
    var length: int
    var front: Node?

    /** The characters this LString stands for. */
    ghost var Contents: seq<char>
    /** Its chain, from front to the last node. */
    ghost var Nodes: seq<Node>
    /** The objects it owns: itself and its nodes. */
    ghost var Repr: set<object>

    /** The chain from front visits exactly length distinct nodes, ends in
        null, and spells Contents; front is null exactly when length is 0. */
    ghost predicate Valid()
      reads this, Repr
      ensures Valid() ==> this in Repr
    {
      Repr == {this} + Elements(Nodes) &&
      Chain(Nodes) && Spells(Nodes, Contents) &&
      length == |Nodes| &&
      front == (if Nodes == [] then null else Nodes[0])
    }

    /** The empty LString. */
    constructor ()
      ensures Valid() && fresh(Repr)
      ensures Contents == []
    {
      length := 0;
      front := null;
      Contents, Nodes := [], [];
      Repr := {this};
    }

    /** An LString holding a copy of the characters of original, one fresh
        node per character, linked in order. */
    constructor FromString(original: seq<char>)
      ensures Valid() && fresh(Repr)
      ensures Contents == original
    {
      length := 0;
      front := null;
      Contents, Nodes := [], [];
      Repr := {this};
      new;
      if |original| > 0 {
        front := new Node(original[0]);
        var curr := front;
        length := length + 1;
        Nodes := [curr];
        for i := 1 to |original|
          invariant length == i == |Nodes|
          invariant front == Nodes[0] && curr == Nodes[i - 1]
          invariant Chain(Nodes) && Spells(Nodes, original[..i])
          invariant forall k :: 0 <= k < i ==> fresh(Nodes[k])
        {
          ChainIsDistinct(Nodes);
          curr.next := new Node(original[i]);
          curr := curr.next;
          length := length + 1;
          Nodes := Nodes + [curr];
        }
        Contents := original;
        Repr := {this} + Elements(Nodes);
      }
    }

    method Length() returns (n: int)
      requires Valid()
      ensures n == |Contents|
    {
      n := length;
    }

    /** The characters of the chain, read from front to end. */
    method ToString() returns (s: seq<char>)
      requires Valid()
      ensures s == Contents
    {
      s := [];
      var curr := front;
      ghost var i := 0;
      while curr != null
        invariant 0 <= i <= |Nodes|
        invariant curr == (if i < |Nodes| then Nodes[i] else null)
        invariant s == Contents[..i]
        decreases |Nodes| - i
      {
        s := s + [curr.data];
        curr := curr.next;
        i := i + 1;
      }
    }

    /** The node at position index, reached by walking from front. */
    method NodeAt(index: nat) returns (n: Node)
      requires Valid() && index < |Contents|
      ensures n == Nodes[index]
    {
      n := front;
      var k := 0;
      while k < index
        invariant 0 <= k <= index && n == Nodes[k]
      {
        assert Linked(Nodes, null) && k + 1 < |Nodes|;
        assert Nodes[k].next == Nodes[k + 1];
        n := n.next;
        k := k + 1;
      }
    }

    /** Lexicographic comparison by character code: negative, zero or
        positive as this comes before, equals or comes after other. */
    method CompareTo(other: LString) returns (r: int)
      requires Valid() && other.Valid()
      ensures r == Lexicographic.Compare(Contents, other.Contents)
    {
      var p, q := front, other.front;
      ghost var i := 0;
      while p != null && q != null
        invariant 0 <= i <= |Nodes| && i <= |other.Nodes|
        invariant p == (if i < |Nodes| then Nodes[i] else null)
        invariant q == (if i < |other.Nodes| then other.Nodes[i] else null)
        invariant Lexicographic.Compare(Contents, other.Contents)
               == Lexicographic.Compare(Contents[i..], other.Contents[i..])
        decreases |Nodes| - i
      {
        if p.data != q.data {
          return p.data as int - q.data as int;
        }
        assert Contents[i..][1..] == Contents[i + 1..];
        assert other.Contents[i..][1..] == other.Contents[i + 1..];
        p, q := p.next, q.next;
        i := i + 1;
      }
      r := length - other.length;
    }

    /** Same characters in the same order; agrees with CompareTo being 0. */
    method Equals(other: LString) returns (eq: bool)
      requires Valid() && other.Valid()
      ensures eq <==> Contents == other.Contents
      ensures eq <==> Lexicographic.Compare(Contents, other.Contents) == 0
    {
      var c := CompareTo(other);
      Lexicographic.CompareZeroIff(Contents, other.Contents);
      eq := c == 0;
    }

    method CharAt(index: int) returns (r: Result<char>)
      requires Valid()
      ensures 0 <= index < |Contents| ==> r == Ok(Contents[index])
      ensures !(0 <= index < |Contents|) ==> r == Err(IndexOutOfBounds)
    {
      if index < 0 || index >= length {
        return Err(IndexOutOfBounds);
      }
      var n := NodeAt(index);
      r := Ok(n.data);
    }

    /** Overwrites the character at index in place; the chain, the length
        and every other position stay as they were. */
    method SetCharAt(index: int, ch: char) returns (r: Result<()>)
      requires Valid()
      modifies Repr
      ensures Valid() && Repr == old(Repr)
      ensures Nodes == old(Nodes) && front == old(front) && length == old(length)
      ensures 0 <= index < old(|Contents|) ==>
                r == Ok(()) && Contents == old(Contents)[index := ch]
      ensures !(0 <= index < old(|Contents|)) ==>
                r == Err(IndexOutOfBounds) && Contents == old(Contents)
      ensures !(0 <= index < old(|Contents|)) ==> unchanged(Repr)
    {
      if index < 0 || index >= length {
        return Err(IndexOutOfBounds);
      }
      var n := NodeAt(index);
      ChainIsDistinct(Nodes);
      n.data := ch;
      Contents := Contents[index := ch];
      r := Ok(());
    }

    /** A new LString holding a copy of the characters in [start, end); it
        shares no node with this one, which is left unchanged. */
    method Substring(start: int, end: int) returns (r: Result<LString>)
      requires Valid()
      ensures r.Ok? <==> 0 <= start <= end <= |Contents|
      ensures r.Err? ==> r.error == IndexOutOfBounds
      ensures r.Ok? ==> r.value.Valid() && fresh(r.value.Repr) &&
                        r.value.Contents == Contents[start..end]
    {
      if start < 0 || start > end || end > length {
        return Err(IndexOutOfBounds);
      }
      var sub := new LString();
      if start < end {
        var first := NodeAt(start);
        var head, tail, copy := CopyNodes(first, end - start, Nodes[start..]);
        sub.front := head;
        sub.length := end - start;
        sub.Nodes := copy;
        sub.Contents := Contents[start..end];
        sub.Repr := {sub} + Elements(copy);
      }
      r := Ok(sub);
    }

    /** Links kept + [before], then copy, then suffix into one chain, where
        before is the node ahead of the spliced range, or null when the range
        starts at front. Only links change. */
    method Relink(before: Node?, head: Node?, tail: Node?, after: Node?,
                  ghost kept: seq<Node>, ghost prefix: seq<Node>, ghost copy: seq<Node>,
                  ghost suffix: seq<Node>)
      requires prefix == (if before == null then [] else kept + [before])
      requires before != null ==> Linked(kept, before) && before !in Elements(kept)
      requires Linked(copy, null) && head == First(copy, null) && tail == Last(copy)
      requires Linked(suffix, null) && after == First(suffix, null)
      requires before != null ==> before !in Elements(copy) && before !in Elements(suffix)
      requires tail != null ==> tail !in Elements(kept) && tail !in Elements(suffix)
      modifies this`front, (Opt(before) + Opt(tail))`next
      ensures before == null ==> front == First(copy + suffix, null)
      ensures before != null ==>
                front == old(front) && Linked(kept, before) &&
                before.next == First(copy, First(suffix, null))
      ensures Linked(copy, First(suffix, null)) && Linked(suffix, null)
    {
      var rest := after;
      if head != null {
        tail.next := after;
        rest := head;
      }
      if before == null {
        front := rest;
      } else {
        before.next := rest;
      }
    }

    /** Links the chain copy in place of the nodes at [start, end). */
    method Splice(start: nat, end: nat, head: Node?, tail: Node?, count: nat,
                  ghost copy: seq<Node>, ghost inserted: seq<char>)
      requires Valid() && start <= end <= |Contents| && count == |copy|
      requires Chain(copy) && Spells(copy, inserted) && Elements(copy) !! Repr
      requires head == First(copy, null)
      requires tail == Last(copy)
      modifies Repr, Elements(copy)
      ensures Valid()
      ensures Contents == old(Contents[..start]) + inserted + old(Contents[end..])
      ensures Repr <= old(Repr) + Elements(copy)
    {
      ghost var prefix, suffix := Nodes[..start], Nodes[end..];
      ghost var s := Contents;
      ghost var kept := if start == 0 then [] else Nodes[..start - 1];
      CutChain(Nodes, s, start, end);

      var before: Node? := null;
      if start > 0 {
        before := NodeAt(start - 1);
      }
      var after: Node? := null;
      if end < length {
        after := NodeAt(end);
      }
      Reattach(before, head, tail, after, length - (end - start) + count,
               kept, prefix, copy, suffix, s[..start], inserted, s[end..]);
    }

    /** Joins the prefix (kept, then before, or nothing when before is null),
        the chain copy and the suffix into the chain this LString stands
        for, spelling p, then t, then u. */
    method Reattach(before: Node?, head: Node?, tail: Node?, after: Node?, n: int,
                    ghost kept: seq<Node>, ghost prefix: seq<Node>, ghost copy: seq<Node>,
                    ghost suffix: seq<Node>, ghost p: seq<char>, ghost t: seq<char>, ghost u: seq<char>)
      requires prefix == (if before == null then [] else kept + [before])
      requires before != null ==> Linked(kept, before) && before !in Elements(kept) && front == prefix[0]
      requires Linked(copy, null) && head == First(copy, null) && tail == Last(copy)
      requires Linked(suffix, null) && after == First(suffix, null)
      requires before != null ==> before !in Elements(copy) && before !in Elements(suffix)
      requires tail != null ==> tail !in Elements(kept) && tail !in Elements(suffix)
      requires Spells(prefix, p) && Spells(copy, t) && Spells(suffix, u)
      requires n == |prefix| + |copy| + |suffix|
      modifies this`front, this`length, this`Nodes, this`Contents, this`Repr
      modifies (Opt(before) + Opt(tail))`next
      ensures Valid() && Contents == p + t + u
      ensures Repr == {this} + Elements(prefix) + Elements(copy) + Elements(suffix)
    {
      Relink(before, head, tail, after, kept, prefix, copy, suffix);
      if before != null {
        LinkedConcat(kept, [before], First(copy, First(suffix, null)));
      }
      SpliceChain(prefix, copy, suffix, p, t, u);
      Adopt(n, prefix + copy + suffix, p + t + u);
    }

    /** Makes this LString stand for the chain ns, which starts at front,
        holds n nodes and spells cs. */
    method Adopt(n: int, ghost ns: seq<Node>, ghost cs: seq<char>)
      requires Chain(ns) && Spells(ns, cs) && n == |ns| && front == First(ns, null)
      modifies this`length, this`Nodes, this`Contents, this`Repr
      ensures Valid() && Nodes == ns && Contents == cs && Repr == {this} + Elements(ns)
    {
      length, Nodes, Contents, Repr := n, ns, cs, {this} + Elements(ns);
    }

    /** Replaces the characters in [start, end) by a copy of those of
        replacement and returns this same LString. The replacement keeps its
        own nodes and characters; it may be this LString itself. */
    method Replace(start: int, end: int, replacement: LString) returns (r: Result<LString>)
      requires Valid() && replacement.Valid()
      requires replacement == this || Repr !! replacement.Repr
      modifies Repr
      ensures Valid() && fresh(Repr - old(Repr))
      ensures r.Ok? <==> 0 <= start <= end <= old(|Contents|)
      ensures r.Ok? ==> (r.value == this &&
                Contents == old(Contents[..start] + replacement.Contents + Contents[end..]))
      ensures r.Err? ==> r.error == IndexOutOfBounds && Contents == old(Contents)
      ensures r.Err? ==> Repr == old(Repr) && unchanged(Repr)
      ensures replacement != this ==>
                (replacement.Valid() && replacement.Contents == old(replacement.Contents) &&
                 Repr !! replacement.Repr)
    {
      if start < 0 || start > end || end > length {
        return Err(IndexOutOfBounds);
      }
      // Copy the replacement first: when it is this LString, its chain is
      // read before any link changes.
      var head, tail, copy := CopyNodes(replacement.front, replacement.length, replacement.Nodes);
      Splice(start, end, head, tail, replacement.length, copy, replacement.Contents);
      r := Ok(this);
    }
  }
}
