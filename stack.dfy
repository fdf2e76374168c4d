/** The vector-backed stack of Lab04 (MyStack): the top of the stack is the
    last element of the underlying vector. */
module Stacks {
  import opened Vectors

  class Stack<T(0)> {
    var stackData: Vector<T>

    ghost predicate Valid()
      reads this, stackData
    {
      stackData.Valid()
    }

    /** The elements from bottom to top. */
    ghost function Contents(): seq<T>
      reads this, stackData, stackData.data
      requires Valid()
    {
      stackData.Contents()
    }

    /** MyStack(initSize): an empty stack whose vector reserved initSize slots. */
    constructor (initSize: nat)
      ensures Valid() && fresh(stackData) && fresh(stackData.data)
      ensures Contents() == [] && stackData.data.Length == initSize
    {
      stackData := new Vector(0);
      new;
      stackData.Reserve(initSize);
    }

    method Push(x: T)
      requires Valid()
      modifies stackData, stackData.data
      ensures Valid()
      ensures Contents() == old(Contents()) + [x]
      ensures stackData.data == old(stackData.data) || fresh(stackData.data)
    {
      stackData.PushBack(x);
    }

    /** Removes the top element; on an empty stack the vector's pop_back guard
        makes it a no-op. */
    method Pop()
      requires Valid()
      modifies stackData
      ensures Valid() && stackData.data == old(stackData.data)
      ensures Contents() == if old(Contents()) == [] then [] else old(Contents())[..|old(Contents())| - 1]
    {
      stackData.PopBack();
    }

    /** The most recently pushed element still present. */
    function Top(): (x: T)
      reads this, stackData, stackData.data
      requires Valid() && Contents() != []
      ensures x == Contents()[|Contents()| - 1]
    {
      stackData.Back()
    }

    function Empty(): (r: bool)
      reads this, stackData, stackData.data
      requires Valid()
      ensures r <==> Size() == 0
      ensures r <==> Contents() == []
    {
      stackData.Empty()
    }

    function Size(): (r: nat)
      reads this, stackData, stackData.data
      requires Valid()
      ensures r == |Contents()|
    {
      stackData.Size()
    }

    function Capacity(): (r: nat)
      reads this, stackData
      requires Valid()
      ensures Size() <= r
    {
      stackData.Capacity()
    }
  }

  /** Pushing and then popping gives back the old contents, and the pushed
      element is the top in between. */
  method PushPopRestores<T(0)>(s: Stack<T>, x: T)
    requires s.Valid()
    modifies s.stackData, s.stackData.data
    ensures s.Valid() && s.Contents() == old(s.Contents())
  {
    s.Push(x);
    assert s.Top() == x;
    s.Pop();
    assert s.Contents() == old(s.Contents());
  }

  /** s read from its end: the order in which popping hands out the
      contents of a stack. */
  function Reversed<T>(s: seq<T>): (r: seq<T>)
    ensures |r| == |s|
  {
    if s == [] then [] else Reversed(s[1..]) + [s[0]]
  }

  /** Flushing st onto out hands out its top first. */
  lemma ReversedSplit<T>(st: seq<T>, out: seq<T>)
    requires st != []
    ensures out + Reversed(st) == (out + [st[|st| - 1]]) + Reversed(st[..|st| - 1])
  {
    ReversedLast(st);
    Associative(out, [st[|st| - 1]], Reversed(st[..|st| - 1]));
  }

  lemma Associative<T>(a: seq<T>, b: seq<T>, c: seq<T>)
    ensures (a + b) + c == a + (b + c)
  {
  }

  /** The reversal of a non-empty sequence starts with its last element. */
  lemma {:induction false} ReversedLast<T>(st: seq<T>)
    requires st != []
    ensures Reversed(st) == [st[|st| - 1]] + Reversed(st[..|st| - 1])
    decreases |st|
  {
    var rest := st[1..];
    if rest != [] {
      ReversedLast(rest);
      assert st[..|st| - 1] == [st[0]] + rest[..|rest| - 1];
      assert (st[..|st| - 1])[1..] == rest[..|rest| - 1];
    }
  }

  /** Element k of the reversal is element |s| - 1 - k of s. */
  lemma {:induction false} ReversedAt<T>(s: seq<T>, k: nat)
    requires k < |s|
    ensures Reversed(s)[k] == s[|s| - 1 - k]
    decreases |s|
  {
    if k < |s| - 1 {
      ReversedAt(s[1..], k);
    }
  }
}
