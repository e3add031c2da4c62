/** `ts_queue<T>`: a double-ended queue. Its mutexes only serialise calls
    from different threads; here calls are sequential, so the queue is its
    contents. */
module NetQueue {

  class TsQueue<T> {
    /** deqQueue, front first */
    var items: seq<T>

    constructor ()
      ensures items == []
    {
      items := [];
    }

    /** front(): the oldest item. Undefined on an empty queue. */
    method Front() returns (t: T)
      requires items != []
      ensures t == items[0]
    {
      t := items[0];
    }

    /** back(): the newest item. Undefined on an empty queue. */
    method Back() returns (t: T)
      requires items != []
      ensures t == items[|items| - 1]
    {
      t := items[|items| - 1];
    }

    method PushBack(t: T)
      modifies this
      ensures items == old(items) + [t]
    {
      items := items + [t];
    }

    method PushFront(t: T)
      modifies this
      ensures items == [t] + old(items)
    {
      items := [t] + items;
    }

    method Empty() returns (b: bool)
      ensures b <==> |items| == 0
    {
      b := items == [];
    }

    method Count() returns (n: nat)
      ensures n == |items|
    {
      n := |items|;
    }

    method Clear()
      modifies this
      ensures items == []
    {
      items := [];
    }

    /** pop_front(): removes and returns the oldest item; the rest keep their order. */
    method PopFront() returns (t: T)
      requires items != []
      modifies this
      ensures t == old(items)[0] && items == old(items)[1..]
      ensures [t] + items == old(items)
    {
      t := items[0];
      items := items[1..];
    }

    /** pop_back(): removes and returns the newest item. */
    method PopBack() returns (t: T)
      requires items != []
      modifies this
      ensures t == old(items)[|old(items)| - 1] && items == old(items)[..|old(items)| - 1]
      ensures items + [t] == old(items)
    {
      t := items[|items| - 1];
      items := items[..|items| - 1];
    }
  }
}
