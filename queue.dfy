/** The vector-backed queue of Lab04 (MyQueue). The queue is the window
    [dataStart, dataEnd) of the storage of `queueData`. */
module Queues {
  import opened Vectors

  class Queue<T(0)> {
    var dataStart: nat
    var dataEnd: nat
    var queueData: Vector<T>

    /** The window lies inside the vector's storage. */
    ghost predicate Valid()
      reads this, queueData
    {
      queueData.Valid() && dataStart <= dataEnd <= queueData.data.Length
    }

    /** The slots the queue regards as its elements, front first. */
    ghost function Window(): seq<T>
      reads this, queueData, queueData.data
      requires Valid()
    {
      queueData.data[dataStart..dataEnd]
    }

    /** The window ends exactly where the vector's elements end, so a
        push_back on the vector lands at the back of the window. */
    ghost predicate Coherent()
      reads this, queueData
    {
      dataEnd == queueData.theSize
    }

    /** MyQueue(initSize): dataEnd is set to initSize although the vector
        only reserves initSize slots and holds no element; with the default
        initSize 0 the queue is empty. */
    constructor (initSize: nat)
      ensures Valid() && fresh(queueData) && fresh(queueData.data)
      ensures dataStart == 0 && dataEnd == initSize
      ensures queueData.theSize == 0 && queueData.data.Length == initSize
      ensures initSize == 0 ==> Empty() && Coherent()
    {
      dataStart := 0;
      dataEnd := initSize;
      queueData := new Vector(0);
      new;
      queueData.Reserve(initSize);
    }

    /** reserve(newCapacity): unless the capacity already exceeds the request,
        builds MyVector(newCapacity), which already holds newCapacity
        default-initialised elements, and push_backs the window after them.
        The indices are left as they were. */
    method Reserve(newCapacity: nat)
      requires Valid()
      modifies this
      ensures Valid() && dataStart == old(dataStart) && dataEnd == old(dataEnd)
      ensures old(queueData.data.Length) > newCapacity ==> queueData == old(queueData)
      ensures old(queueData.data.Length) <= newCapacity ==>
                fresh(queueData) && fresh(queueData.data) &&
                |queueData.Contents()| == newCapacity + old(|Window()|) &&
                queueData.Contents()[newCapacity..] == old(Window())
      ensures old(queueData.data.Length) <= newCapacity && old(dataStart == dataEnd) ==>
                queueData.data.Length == newCapacity
    {
      if queueData.Capacity() > newCapacity {
        return;
      }
      var newQueue := new Vector(newCapacity);
      CopyWindow(newQueue);
      queueData := newQueue;
    }

    /** resize(newSize): reserve(2 * newSize). */
    method Resize(newSize: nat)
      requires Valid()
      modifies this
      ensures Valid() && dataStart == old(dataStart) && dataEnd == old(dataEnd)
      ensures old(queueData.data.Length) > 2 * newSize ==> queueData == old(queueData)
      ensures old(queueData.data.Length) <= 2 * newSize ==>
                fresh(queueData) && |queueData.Contents()| == 2 * newSize + old(|Window()|) &&
                queueData.Contents()[2 * newSize..] == old(Window())
    {
      Reserve(newSize * 2);
    }

    /** The copy loop of reserve and dequeue: push_backs the window, front
        first, onto newQueue. */
    method CopyWindow(newQueue: Vector<T>)
      requires Valid() && newQueue.Valid() && newQueue != queueData && newQueue.data != queueData.data
      modifies newQueue, newQueue.data
      ensures newQueue.Valid() && newQueue.Contents() == old(newQueue.Contents()) + Window()
      ensures newQueue.data == old(newQueue.data) || fresh(newQueue.data)
      ensures dataStart == dataEnd ==> newQueue.data == old(newQueue.data)
    {
      var i := dataStart;
      while i != dataEnd
        invariant dataStart <= i <= dataEnd
        invariant newQueue.Valid() && newQueue.data != queueData.data
        invariant newQueue.data == old(newQueue.data) || fresh(newQueue.data)
        invariant i == dataStart ==> newQueue.data == old(newQueue.data)
        invariant newQueue.Contents() == old(newQueue.Contents()) + queueData.data[dataStart..i]
        decreases dataEnd - i
      {
        newQueue.PushBack(queueData.Get(i));
        assert queueData.data[dataStart..i + 1] == queueData.data[dataStart..i] + [queueData.data[i]];
        i := i + 1;
      }
    }

    /** Appends x. When dataEnd has reached the capacity the storage is first
        rebuilt by Reserve(2 * capacity); if that capacity was not 0, the
        queued elements and x end up past dataEnd, and the window then covers
        only the default-initialised prefix of the new vector. */
    method Enqueue(x: T)
      requires Valid()
      modifies this, queueData, queueData.data
      ensures Valid()
      ensures dataStart == old(dataStart) && dataEnd == old(dataEnd) + 1
      ensures Size() == old(Size()) + 1
      ensures queueData == old(queueData) || fresh(queueData)
      ensures queueData.data == old(queueData.data) || fresh(queueData.data)
      ensures old(queueData.data.Length) == 0 ==> queueData.data.Length == 1
      ensures old(dataEnd) != old(queueData.data.Length) ==>
                queueData == old(queueData) && queueData.Contents() == old(queueData.Contents()) + [x]
      ensures old(Coherent()) && old(dataEnd) != old(queueData.data.Length) ==>
                Coherent() && Window() == old(Window()) + [x]
      ensures old(queueData.data.Length) == 0 ==> Coherent() && Window() == [x]
      ensures old(dataEnd) == old(queueData.data.Length) > 0 ==>
                var c := old(queueData.data.Length);
                |queueData.Contents()| == 2 * c + old(|Window()|) + 1 &&
                queueData.Contents()[2 * c..] == old(Window()) + [x] &&
                dataEnd <= 2 * c && !Coherent()
    {
      if dataEnd == queueData.Capacity() {
        Reserve(queueData.Capacity() * 2);
      }
      queueData.PushBack(x);
      dataEnd := dataEnd + 1;
    }

    /** Drops the front element (a no-op on an empty queue). When dataStart
        passes half of the vector's size the window is copied into a fresh
        vector and dataStart reset to 0. */
    method Dequeue()
      requires Valid()
      modifies this
      ensures Valid()
      ensures old(dataStart == dataEnd) ==>
                dataStart == old(dataStart) && dataEnd == old(dataEnd) && queueData == old(queueData)
      ensures old(dataStart < dataEnd) ==> Size() == old(Size()) - 1 && Window() == old(Window())[1..]
      ensures old(dataStart < dataEnd) && old(dataStart) + 1 > old(queueData.theSize) / 2 ==>
                dataStart == 0 && fresh(queueData) && queueData.Contents() == old(Window())[1..]
      ensures old(Coherent()) ==> Coherent()
    {
      if !Empty() {
        dataStart := dataStart + 1;
        if dataStart > queueData.Size() / 2 {
          var newQueue := new Vector(0);
          CopyWindow(newQueue);
          queueData := newQueue;
          dataEnd := dataEnd - dataStart;
          dataStart := 0;
        }
      }
    }

    /** reserve as evidently intended: the new vector only reserves
        newCapacity slots (it holds no default elements), and the indices
        are moved with the window, so the window stays the vector's
        elements. */
    method ReserveCompacting(newCapacity: nat)
      requires Valid() && Coherent()
      modifies this
      ensures Valid() && Coherent() && Window() == old(Window())
      ensures old(queueData.data.Length) > newCapacity ==> queueData == old(queueData)
      ensures old(queueData.data.Length) <= newCapacity ==>
                fresh(queueData) && fresh(queueData.data) && dataStart == 0
    {
      if queueData.Capacity() > newCapacity {
        return;
      }
      var newQueue := new Vector(0);
      newQueue.Reserve(newCapacity);
      CopyWindow(newQueue);
      queueData := newQueue;
      dataEnd := dataEnd - dataStart;
      dataStart := 0;
    }

    /** enqueue over ReserveCompacting: x always joins the back of the
        window, so the queue stays first-in first-out. */
    method EnqueueFifo(x: T)
      requires Valid() && Coherent()
      modifies this, queueData, queueData.data
      ensures Valid() && Coherent()
      ensures Window() == old(Window()) + [x]
      ensures queueData == old(queueData) || fresh(queueData)
      ensures queueData.data == old(queueData.data) || fresh(queueData.data)
    {
      if dataEnd == queueData.Capacity() {
        ReserveCompacting(queueData.Capacity() * 2);
      }
      assert Window() == queueData.Contents()[dataStart..];
      queueData.PushBack(x);
      dataEnd := dataEnd + 1;
      assert Window() == queueData.Contents()[dataStart..];
    }

    /** The front element (the source reads it without a check; the model
        asks for a non-empty queue). */
    function Front(): (x: T)
      reads this, queueData, queueData.data
      requires Valid() && dataStart < dataEnd
      ensures x == Window()[0]
    {
      queueData.Get(dataStart)
    }

    function Empty(): (r: bool)
      reads this
      ensures r <==> Size() == 0
    {
      dataStart == dataEnd
    }

    function Size(): (r: int)
      reads this
      ensures Valid() ==> r == |Window()|
    {
      dataEnd - dataStart
    }

    function Capacity(): (r: nat)
      reads this, queueData
      ensures Valid() ==> dataEnd <= r
    {
      queueData.Capacity()
    }
  }

  /** Two enqueues on a new queue: the second one finds the storage full,
      and the reserve it triggers leaves the window [0, 2) on the two
      default-initialised slots of the new vector, while 1 and 2 sit in
      slots 2 and 3; front() then reads slot 0, not 1. */
  method GrowthMisplacesWindow() returns (q: Queue<int>)
    ensures q.Valid() && q.dataStart == 0 && q.dataEnd == 2
    ensures |q.queueData.Contents()| == 4 && q.queueData.Contents()[2..] == [1, 2]
    ensures !q.Coherent()
  {
    q := new Queue(0);
    q.Enqueue(1);
    q.Enqueue(2);
  }

  /** The same two enqueues with the corrected reserve: the window holds
      1 then 2. */
  method GrowthKeepsOrder() returns (q: Queue<int>)
    ensures q.Valid() && q.Window() == [1, 2] && q.Front() == 1
  {
    q := new Queue(0);
    q.EnqueueFifo(1);
    q.EnqueueFifo(2);
  }
}
