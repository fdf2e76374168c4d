/** The binary max-heap of Lab08 (MyBinaryHeap): a vector used from index 1
    on (slot 0 is a sentinel the heap never reads), where every element is
    at least as large as the elements at twice its index and one past that. */
module BinaryHeaps {
  import opened Wrappers

  /** The heap property on the parent edges below `lo`: every slot j >= 2
      whose parent j / 2 is at least lo holds no more than its parent. */
  predicate HeapFrom(s: seq<int>, lo: nat)
  {
    forall j :: 2 <= j < |s| && j / 2 >= lo ==> s[j / 2] >= s[j]
  }

  /** data[i] >= data[2i] and data[i] >= data[2i + 1] for every i >= 1,
      wherever those children exist. */
  predicate HeapOrdered(s: seq<int>)
  {
    HeapFrom(s, 1)
  }

  function Swap(s: seq<int>, i: nat, j: nat): (t: seq<int>)
    requires i < |s| && j < |s|
    ensures |t| == |s| && t[i] == s[j] && t[j] == s[i]
    ensures forall k :: 0 <= k < |s| && k != i && k != j ==> t[k] == s[k]
    ensures multiset(t) == multiset(s)
  {
    s[i := s[j]][j := s[i]]
  }

  /** The stored elements of a vector whose slot 0 is the sentinel. */
  lemma ItemsSplit(s: seq<int>)
    requires |s| >= 1
    ensures multiset(s) == multiset{s[0]} + multiset(s[1..])
  {
    assert s == [s[0]] + s[1..];
  }

  /** A rearrangement that keeps the sentinel keeps the stored elements. */
  lemma SameItems(a: seq<int>, b: seq<int>)
    requires |a| >= 1 && |b| >= 1 && a[0] == b[0] && multiset(a) == multiset(b)
    ensures multiset(a[1..]) == multiset(b[1..])
  {
    ItemsSplit(a);
    ItemsSplit(b);
    assert multiset(a[1..]) == multiset(a) - multiset{a[0]};
    assert multiset(b[1..]) == multiset(b) - multiset{b[0]};
  }

  /** In a heap no element exceeds the one at index 1. */
  lemma {:induction false} RootIsMax(s: seq<int>, k: nat)
    requires HeapOrdered(s) && 1 <= k < |s|
    ensures s[k] <= s[1]
    decreases k
  {
    if k > 1 {
      RootIsMax(s, k / 2);
    }
  }

  lemma RootIsMaxOfItems(s: seq<int>)
    requires HeapOrdered(s) && |s| >= 2
    ensures forall y :: y in multiset(s[1..]) ==> y <= s[1]
  {
    forall y | y in multiset(s[1..])
      ensures y <= s[1]
    {
      var k :| 0 <= k < |s[1..]| && s[1..][k] == y;
      RootIsMax(s, k + 1);
    }
  }

  // ---------------------------------------------------------------------------
  // percolateUp

  /** The state percolateUp works in, with the moving value written at its
      hole i: every parent edge holds except the one into i, and the parent
      of i is at least every child of i. */
  predicate UpReady(s: seq<int>, i: nat)
  {
    1 <= i < |s| &&
    (forall j :: 2 <= j < |s| && j != i ==> s[j / 2] >= s[j]) &&
    (i > 1 ==> forall j :: 2 <= j < |s| && j / 2 == i ==> s[i / 2] >= s[j])
  }

  /** Moving the hole one level up keeps the percolateUp state. */
  lemma UpStep(s: seq<int>, i: nat)
    requires UpReady(s, i) && i > 1 && s[i] > s[i / 2]
    ensures UpReady(Swap(s, i / 2, i), i / 2)
  {
    var t := Swap(s, i / 2, i);
    var p := i / 2;
    forall j | 2 <= j < |t| && j != p
      ensures t[j / 2] >= t[j]
    {
      if j == i {
      } else if j / 2 == i {
        assert t[j / 2] == s[p];
      } else if j / 2 == p {
        assert t[j / 2] == s[i] && s[p] >= s[j];
      }
    }
    if p > 1 {
      forall j | 2 <= j < |t| && j / 2 == p
        ensures t[p / 2] >= t[j]
      {
        assert t[p / 2] == s[p / 2] && s[p / 2] >= s[p];
        if j != i {
          assert s[p] >= s[j];
        }
      }
    }
  }

  /** One turn of percolateUp's loop, on the vector d whose hole i stands
      for temp: the parent moves down into the hole, which moves up. */
  lemma UpHole(d: seq<int>, i: nat, temp: int)
    requires 1 < i < |d| && UpReady(d[i := temp], i) && temp > d[i / 2]
    ensures UpReady(d[i := d[i / 2]][i / 2 := temp], i / 2)
    ensures multiset(d[i := d[i / 2]][i / 2 := temp]) == multiset(d[i := temp])
  {
    UpStep(d[i := temp], i);
    assert d[i := d[i / 2]][i / 2 := temp] == Swap(d[i := temp], i / 2, i);
  }

  /** One turn of percolateUp's loop, in any state: the multiset of the
      vector with temp in the hole is kept. */
  lemma UpMoved(d: seq<int>, i: nat, temp: int)
    requires 1 < i < |d|
    ensures multiset(d[i := d[i / 2]][i / 2 := temp]) == multiset(d[i := temp])
  {
    assert d[i := d[i / 2]][i / 2 := temp] == Swap(d[i := temp], i / 2, i);
  }

  /** The invariant of percolateUp's loop, started on d0 at p with the
      value temp held aside; `ready` says whether d0 was in the
      percolateUp state. */
  ghost predicate UpLoop(d: seq<int>, i: nat, temp: int, ready: bool, p: nat, d0: seq<int>)
  {
    1 <= i <= p < |d| && |d| == |d0| && d[0] == d0[0] && temp == d0[p] &&
    (ready ==> UpReady(d[i := temp], i)) &&
    multiset(d[i := temp]) == multiset(d0) &&
    (i == p ==> d == d0)
  }

  /** One turn of percolateUp's loop keeps its invariant. */
  lemma UpTurn(d: seq<int>, i: nat, temp: int, ready: bool, p: nat, d0: seq<int>)
    requires UpLoop(d, i, temp, ready, p, d0) && i > 1 && temp > d[i / 2]
    ensures UpLoop(d[i := d[i / 2]], i / 2, temp, ready, p, d0)
  {
    if ready {
      UpHole(d, i, temp);
    }
    UpMoved(d, i, temp);
  }

  /** Where percolateUp's loop stops, writing temp into the hole gives a
      heap (when d0 was in the percolateUp state) with d0's multiset. */
  lemma UpExit(d: seq<int>, i: nat, temp: int, ready: bool, p: nat, d0: seq<int>)
    requires UpLoop(d, i, temp, ready, p, d0) && (i == 1 || temp <= d[i / 2])
    ensures ready ==> HeapOrdered(d[i := temp])
    ensures |d[i := temp]| == |d0| && d[i := temp][0] == d0[0]
    ensures multiset(d[i := temp]) == multiset(d0)
    ensures p == 1 ==> d[i := temp] == d0
  {
    if ready {
      UpDone(d[i := temp], i);
    }
    if p == 1 {
      assert d[i := temp] == d0;
    }
  }

  /** The moving value is now no larger than its parent, or at the root. */
  lemma UpDone(s: seq<int>, i: nat)
    requires UpReady(s, i) && (i == 1 || s[i] <= s[i / 2])
    ensures HeapOrdered(s)
  {
  }

  // ---------------------------------------------------------------------------
  // percolateDown

  /** The state percolateDown works in from index i: every parent edge below
      lo holds except those out of i, and the parent of i (if it is below
      lo) is at least every child of i. */
  predicate DownReady(s: seq<int>, lo: nat, i: nat)
  {
    1 <= lo <= i &&
    (forall j :: 2 <= j < |s| && j / 2 >= lo && j / 2 != i ==> s[j / 2] >= s[j]) &&
    (i / 2 >= lo ==> forall j :: 2 <= j < |s| && j / 2 == i ==> s[i / 2] >= s[j])
  }

  /** Swapping i with its larger child, when that child is larger than i,
      moves the percolateDown state one level down. */
  lemma DownStep(s: seq<int>, lo: nat, i: nat, c: nat)
    requires DownReady(s, lo, i) && (c == 2 * i || c == 2 * i + 1) && c < |s|
    requires s[c] > s[i] && s[c] >= s[2 * i] && (2 * i + 1 < |s| ==> s[c] >= s[2 * i + 1])
    ensures DownReady(Swap(s, i, c), lo, c)
  {
    var t := Swap(s, i, c);
    assert c / 2 == i;
    forall j | 2 <= j < |t| && j / 2 >= lo && j / 2 != c
      ensures t[j / 2] >= t[j]
    {
      if j == i {
        assert t[j / 2] == s[i / 2];
      } else if j / 2 == i {
        assert j == 2 * i || j == 2 * i + 1;
      }
    }
  }

  /** i is at least its children, or has none: the heap holds below lo. */
  lemma DownDone(s: seq<int>, lo: nat, i: nat)
    requires DownReady(s, lo, i)
    requires 2 * i < |s| ==> s[i] >= s[2 * i] && (2 * i + 1 < |s| ==> s[i] >= s[2 * i + 1])
    ensures HeapFrom(s, lo)
  {
    forall j | 2 <= j < |s| && j / 2 >= lo
      ensures s[j / 2] >= s[j]
    {
      if j / 2 == i {
        assert j == 2 * i || j == 2 * i + 1;
      }
    }
  }

  /** The decrement decreaseKey's comment describes, on unbounded
      integers: v - d, or 0 when a nonnegative priority is below d. */
  function Decreased(v: int, d: nat): (r: int)
    ensures r <= v
    ensures r == v - d || (r == 0 && 0 <= v < d)
  {
    if 0 <= v < d then 0 else v - d
  }

  // ---------------------------------------------------------------------------
  // The 32-bit arithmetic of increaseKey and decreaseKey: the priority is an
  // int and the adjustment an unsigned int, so the usual arithmetic
  // conversions turn the priority into an unsigned int, the arithmetic is
  // taken modulo 2^32, and the result is converted back to int.

  predicate IsInt32(v: int)
  {
    -0x8000_0000 <= v < 0x8000_0000
  }

  /** An int converted to unsigned int. */
  function ToUnsigned(v: int): (u: nat)
    requires IsInt32(v)
    ensures u < 0x1_0000_0000 && (u == v || u == v + 0x1_0000_0000)
  {
    if v >= 0 then v else v + 0x1_0000_0000
  }

  /** An unsigned int converted back to int. */
  function ToInt32(u: nat): (r: int)
    requires u < 0x1_0000_0000
    ensures IsInt32(r) && (r == u || r == u - 0x1_0000_0000)
  {
    if u < 0x8000_0000 then u else u - 0x1_0000_0000
  }

  /** increaseKey's new value, `data[p] += d` on an int and an unsigned int.
      It is v + d exactly when that sum fits in an int, and it falls below v
      when the sum wraps around. */
  function Increased32(v: int, d: nat): (r: int)
    requires IsInt32(v) && d < 0x1_0000_0000
    ensures IsInt32(r)
    ensures r >= v <==> v + d < 0x8000_0000
    ensures r >= v ==> r == v + d
  {
    var s := ToUnsigned(v) + d;
    ToInt32(if s >= 0x1_0000_0000 then s - 0x1_0000_0000 else s)
  }

  /** decreaseKey's new value: `data[p] < d` compares the priority converted
      to unsigned, so a negative priority counts as at least 2^31; the
      subtraction wraps modulo 2^32. It is never above v exactly when v is
      nonnegative or v - d fits in an int, and then it is Decreased(v, d). */
  function Decreased32(v: int, d: nat): (r: int)
    requires IsInt32(v) && d < 0x1_0000_0000
    ensures IsInt32(r)
    ensures r <= v <==> v >= 0 || v - d >= -0x8000_0000
    ensures r <= v ==> r == Decreased(v, d)
  {
    var u := ToUnsigned(v);
    if u < d then 0 else ToInt32(u - d)
  }

  // ---------------------------------------------------------------------------
  // The states each operation hands to percolateUp or percolateDown

  /** After push_back(x) onto a heap, x may only be too large for its parent. */
  lemma PushReady(s: seq<int>, x: int)
    requires |s| >= 1 && HeapOrdered(s)
    ensures UpReady(s + [x], |s|)
    ensures multiset((s + [x])[1..]) == multiset(s[1..]) + multiset{x}
  {
    assert (s + [x])[1..] == s[1..] + [x];
  }

  /** After moving the last element to the root and popping, only the root's
      edges may be broken, and the old root is gone. */
  lemma PopReady(s: seq<int>)
    requires |s| >= 2 && HeapOrdered(s)
    ensures var t := Swap(s, 1, |s| - 1)[..|s| - 1];
      DownReady(t, 1, 1) && t[0] == s[0] &&
      multiset(t[1..]) == multiset(s[1..]) - multiset{s[1]}
  {
    var w := Swap(s, 1, |s| - 1);
    var t := w[..|s| - 1];
    SameItems(s, w);
    assert w[1..] == t[1..] + [s[1]];
  }

  /** A grown element may only be too large for its parent. */
  lemma RaiseReady(s: seq<int>, p: nat, v: int)
    requires HeapOrdered(s) && 1 <= p < |s| && v >= s[p]
    ensures UpReady(s[p := v], p)
    ensures multiset(s[p := v][1..]) == multiset(s[1..]) - multiset{s[p]} + multiset{v}
  {
    if p > 1 {
      assert s[p / 2] >= s[p];
    }
    assert s[p := v][1..] == s[1..][p - 1 := v];
  }

  /** A shrunk element may only be too small for its children. */
  lemma LowerReady(s: seq<int>, p: nat, v: int)
    requires HeapOrdered(s) && 1 <= p < |s| && v <= s[p]
    ensures DownReady(s[p := v], 1, p)
    ensures multiset(s[p := v][1..]) == multiset(s[1..]) - multiset{s[p]} + multiset{v}
  {
    if p > 1 {
      assert s[p / 2] >= s[p];
    }
    assert s[p := v][1..] == s[1..][p - 1 := v];
  }

  /** Writing v at slot p of the elements swaps one copy of s[p] for v. */
  lemma ChangedItems(s: seq<int>, p: nat, v: int)
    requires 1 <= p < |s|
    ensures multiset(s[p := v][1..]) == multiset(s[1..]) - multiset{s[p]} + multiset{v}
  {
    assert s[p := v][1..] == s[1..][p - 1 := v];
  }

  /** The heap [-1, -2] under the sentinel loses its order when decreaseKey
      lowers -2 by 2^32 - 1: read as unsigned, -2 is below the decrement, so
      the leaf becomes 0, above its parent, and percolateDown leaves a leaf
      where it is. */
  lemma DecreaseKeyBreaksHeap()
    ensures var s := [0, -1, -2];
      HeapOrdered(s) && 2 * 2 >= |s| && Decreased32(s[2], 0xffff_ffff) == 0 &&
      !HeapOrdered(s[2 := Decreased32(s[2], 0xffff_ffff)])
  {
    var s := [0, -1, -2];
    assert s[2 := 0][2 / 2] < s[2 := 0][2];
  }

  /** The heap [2^31 - 1, 5] under the sentinel loses its order when
      increaseKey adds 1 to its root: the sum wraps to -2^31, below its
      child, and percolateUp leaves the root where it is. */
  lemma IncreaseKeyBreaksHeap()
    ensures var s := [0, 0x7fff_ffff, 5];
      HeapOrdered(s) && Increased32(s[1], 1) == -0x8000_0000 &&
      !HeapOrdered(s[1 := Increased32(s[1], 1)])
  {
    var s := [0, 0x7fff_ffff, 5];
    assert s[1 := -0x8000_0000][2 / 2] < s[1 := -0x8000_0000][2];
  }

  /** Before percolating i down, every slot after i already roots a heap. */
  lemma BuildReady(s: seq<int>, i: nat)
    requires 1 <= i && HeapFrom(s, i + 1)
    ensures DownReady(s, i, i)
  {
  }

  class BinaryHeap {
    /** Slot 0 is a sentinel; the elements are data[1..]. */
    var data: seq<int>

    ghost predicate Valid()
      reads this
    {
      |data| >= 1 && HeapOrdered(data)
    }

    ghost function Items(): multiset<int>
      reads this
      requires |data| >= 1
    {
      multiset(data[1..])
    }

    /** MyBinaryHeap(): only the sentinel. */
    constructor ()
      ensures Valid() && Items() == multiset{}
    {
      data := [0];
    }

    /** MyBinaryHeap(items): the items are appended after the sentinel, then
        heap order is built. */
    constructor FromItems(items: seq<int>)
      ensures Valid() && Items() == multiset(items)
    {
      data := [0];
      new;
      for i := 0 to |items|
        invariant data == [0] + items[..i]
      {
        data := data + [items[i]];
      }
      assert data[1..] == items;
      ghost var filled := data;
      BuildHeap();
      SameItems(filled, data);
    }

    /** percolateUp(p): the value at p is held aside while each smaller
        parent moves down into the hole, then written where the walk
        stopped. */
    method PercolateUp(p: nat)
      requires 1 <= p < |data|
      modifies this
      ensures UpReady(old(data), p) ==> HeapOrdered(data)
      ensures |data| == old(|data|) && data[0] == old(data[0])
      ensures multiset(data) == old(multiset(data))
      ensures p == 1 ==> data == old(data)
    {
      ghost var d0, ready := data, UpReady(data, p);
      var i: nat := p;
      var temp := data[i];
      while i > 1 && temp > data[i / 2]
        invariant UpLoop(data, i, temp, ready, p, d0)
        decreases i
      {
        UpTurn(data, i, temp, ready, p, d0);
        data := data[i := data[i / 2]];
        i := i / 2;
      }
      UpExit(data, i, temp, ready, p, d0);
      data := data[i := temp];
    }

    /** percolateDown(p): swaps the value at p with its larger child while
        that child is larger. `lo` is the smallest index whose parent edges
        the caller needs restored. */
    method PercolateDown(p: nat, ghost lo: nat)
      requires |data| >= 1 && 1 <= lo <= p
      modifies this
      ensures DownReady(old(data), lo, p) ==> HeapFrom(data, lo)
      ensures |data| == old(|data|) && data[0] == old(data[0])
      ensures multiset(data) == old(multiset(data))
      ensures 2 * p >= |data| ==> data == old(data)
    {
      ghost var ready := DownReady(data, lo, p);
      var i := p;
      var leftChild := i * 2;
      var rightChild := i * 2 + 1;
      while leftChild < |data|
        invariant lo <= i && leftChild == 2 * i && rightChild == 2 * i + 1
        invariant |data| == old(|data|) && data[0] == old(data[0])
        invariant ready ==> DownReady(data, lo, i)
        invariant multiset(data) == old(multiset(data))
        invariant 2 * p >= |data| ==> data == old(data)
        decreases |data| - i
      {
        var largerChild := leftChild;
        if rightChild < |data| && data[rightChild] > data[leftChild] {
          largerChild := rightChild;
        }
        if data[i] >= data[largerChild] {
          if ready {
            DownDone(data, lo, i);
          }
          break;
        }
        if ready {
          DownStep(data, lo, i, largerChild);
        }
        data := Swap(data, i, largerChild);
        i := largerChild;
        leftChild := i * 2;
        rightChild := i * 2 + 1;
      }
      if ready && leftChild >= |data| {
        DownDone(data, lo, i);
      }
    }

    /** buildHeap: percolates down every slot that has a child, from the
        last one back to the root. */
    method BuildHeap()
      requires |data| >= 1
      modifies this
      ensures HeapOrdered(data) && |data| == old(|data|) && data[0] == old(data[0])
      ensures multiset(data) == old(multiset(data))
    {
      var i := |data| / 2;
      while i > 0
        invariant 0 <= i <= |data| / 2
        invariant HeapFrom(data, i + 1)
        invariant |data| == old(|data|) && data[0] == old(data[0])
        invariant multiset(data) == old(multiset(data))
      {
        BuildReady(data, i);
        PercolateDown(i, i);
        i := i - 1;
      }
    }

    /** enqueue(x): x goes to the end and percolates up. */
    method Enqueue(x: int)
      requires Valid()
      modifies this
      ensures Valid()
      ensures Items() == old(Items()) + multiset{x}
    {
      PushReady(data, x);
      data := data + [x];
      ghost var pushed := data;
      PercolateUp(|data| - 1);
      SameItems(pushed, data);
    }

    /** front(): the element at index 1, a maximum; underflow when empty. */
    function Front(): (r: Result<int>)
      reads this
      requires Valid()
      ensures r.Err? <==> Items() == multiset{}
      ensures r.Ok? ==> r.value in Items() && forall y :: y in Items() ==> y <= r.value
    {
      if |data| <= 1 then Err(Underflow)
      else
        RootIsMaxOfItems(data);
        assert data[1..][0] == data[1];
        Ok(data[1])
    }

    /** dequeue(): the last element replaces the root, which is popped, and
        the new root percolates down; an empty heap is left alone. */
    method Dequeue()
      requires Valid()
      modifies this
      ensures Valid()
      ensures old(|data|) <= 1 ==> data == old(data)
      ensures old(|data|) > 1 ==> Items() == old(Items()) - multiset{old(data[1])}
      ensures old(|data|) > 1 ==> forall y :: y in old(Items()) ==> y <= old(data[1])
    {
      if |data| > 1 {
        RootIsMaxOfItems(data);
        PopReady(data);
        data := Swap(data, 1, |data| - 1);
        data := data[..|data| - 1];
        ghost var popped := data;
        PercolateDown(1, 1);
        SameItems(popped, data);
      }
    }

    /** verifyHeapProperty(): checks both children of every slot. */
    method VerifyHeapProperty() returns (r: bool)
      ensures r <==> HeapOrdered(data)
    {
      var i := 1;
      while i < |data|
        invariant 1 <= i
        invariant forall j :: 2 <= j < |data| && j / 2 < i ==> data[j / 2] >= data[j]
      {
        var leftChild := i * 2;
        var rightChild := i * 2 + 1;
        var leftWrong := leftChild < |data| && data[i] < data[leftChild];
        var rightWrong := rightChild < |data| && data[i] < data[rightChild];
        if leftWrong || rightWrong {
          assert leftChild / 2 == i && rightChild / 2 == i;
          return false;
        }
        i := i + 1;
      }
      return true;
    }

    /** merge(rhs): rhs's elements are appended, rhs keeps only its
        sentinel, and heap order is rebuilt. */
    method Merge(rhs: BinaryHeap)
      requires Valid() && rhs.Valid() && rhs != this
      modifies this, rhs
      ensures Valid() && rhs.Valid()
      ensures Items() == old(Items()) + old(rhs.Items())
      ensures rhs.data == [old(rhs.data[0])]
    {
      for i := 1 to |rhs.data|
        invariant rhs.data == old(rhs.data)
        invariant data == old(data) + rhs.data[1..i]
      {
        data := data + [rhs.data[i]];
      }
      assert data[1..] == old(data)[1..] + rhs.data[1..];
      rhs.data := rhs.data[..1];
      ghost var joined := data;
      BuildHeap();
      SameItems(joined, data);
    }

    /** increaseKey(p, d): the element at p takes its 32-bit sum with d and
        percolates up. The result is a heap only when the sum did not wrap
        around; at the root a wrapped sum stays where it is. */
    method IncreaseKey(p: nat, d: nat)
      requires Valid() && 1 <= p < |data| && IsInt32(data[p]) && d < 0x1_0000_0000
      modifies this
      ensures |data| == old(|data|) && data[0] == old(data[0])
      ensures Items() == old(Items()) - multiset{old(data[p])} + multiset{Increased32(old(data[p]), d)}
      ensures old(data[p]) + d < 0x8000_0000 ==> Valid()
      ensures p == 1 ==> data == old(data)[1 := Increased32(old(data[1]), d)]
    {
      var raisedKey := Increased32(data[p], d);
      ChangedItems(data, p, raisedKey);
      if raisedKey >= data[p] {
        RaiseReady(data, p, raisedKey);
      }
      data := data[p := raisedKey];
      ghost var raised := data;
      PercolateUp(p);
      SameItems(raised, data);
    }

    /** decreaseKey(p, d): the element at p takes its 32-bit decrement (0
        when the priority, read as unsigned, is below d) and percolates
        down. The result is a heap only when the value did not grow; at a
        leaf a grown value stays where it is. */
    method DecreaseKey(p: nat, d: nat)
      requires Valid() && 1 <= p < |data| && IsInt32(data[p]) && d < 0x1_0000_0000
      modifies this
      ensures |data| == old(|data|) && data[0] == old(data[0])
      ensures Items() == old(Items()) - multiset{old(data[p])} + multiset{Decreased32(old(data[p]), d)}
      ensures old(data[p]) >= 0 || old(data[p]) - d >= -0x8000_0000 ==> Valid()
      ensures 2 * p >= |data| ==> data == old(data)[p := Decreased32(old(data[p]), d)]
    {
      var loweredKey := Decreased32(data[p], d);
      ChangedItems(data, p, loweredKey);
      if loweredKey <= data[p] {
        LowerReady(data, p, loweredKey);
      }
      data := data[p := loweredKey];
      ghost var lowered := data;
      PercolateDown(p, 1);
      SameItems(lowered, data);
    }

    /** The corrected update of one priority: the element at p takes the
        value v and moves up when it grew and down otherwise, so the result
        is a heap whichever way v moved. */
    method ReplaceKey(p: nat, v: int)
      requires Valid() && 1 <= p < |data|
      modifies this
      ensures Valid() && |data| == old(|data|) && data[0] == old(data[0])
      ensures Items() == old(Items()) - multiset{old(data[p])} + multiset{v}
    {
      if v > data[p] {
        RaiseReady(data, p, v);
        data := data[p := v];
        ghost var raised := data;
        PercolateUp(p);
        SameItems(raised, data);
      } else {
        LowerReady(data, p, v);
        data := data[p := v];
        ghost var lowered := data;
        PercolateDown(p, 1);
        SameItems(lowered, data);
      }
    }

    /** increaseKey corrected: the same 32-bit sum, and the heap restored
        even when the sum wrapped around. */
    method IncreaseKeyRestoring(p: nat, d: nat)
      requires Valid() && 1 <= p < |data| && IsInt32(data[p]) && d < 0x1_0000_0000
      modifies this
      ensures Valid() && |data| == old(|data|)
      ensures Items() == old(Items()) - multiset{old(data[p])} + multiset{Increased32(old(data[p]), d)}
    {
      ReplaceKey(p, Increased32(data[p], d));
    }

    /** decreaseKey corrected: the same 32-bit decrement, and the heap
        restored even when the value grew. */
    method DecreaseKeyRestoring(p: nat, d: nat)
      requires Valid() && 1 <= p < |data| && IsInt32(data[p]) && d < 0x1_0000_0000
      modifies this
      ensures Valid() && |data| == old(|data|)
      ensures Items() == old(Items()) - multiset{old(data[p])} + multiset{Decreased32(old(data[p]), d)}
    {
      ReplaceKey(p, Decreased32(data[p], d));
    }

    function Empty(): (r: bool)
      reads this
      requires Valid()
      ensures r <==> Items() == multiset{}
    {
      |data| <= 1
    }

    function Size(): (r: nat)
      reads this
      requires Valid()
      ensures r == |Items()|
    {
      |data| - 1
    }
  }
}
