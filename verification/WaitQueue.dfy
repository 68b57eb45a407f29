/** The circular-array wait queue of the Windows read-write lock (lock.c). */
module WaitQueue {

  /** An event handle; here the thread that waits on it. */
  type Event = nat

  class CArrayWaitQueue {
    var array_: array<Event>
    var count: nat
    var alloc: nat
    var offset: nat

    ghost predicate Valid()
      reads this
    {
      && array_.Length == alloc
      && count <= alloc
      && (alloc == 0 ==> offset == 0)
      && (alloc > 0 ==> offset < alloc)
    }

    /** The index of the i-th waiting event, wrapped around once. */
    function Slot(i: nat): nat
      reads this
    {
      if offset + i >= alloc && offset + i - alloc >= 0 then offset + i - alloc else offset + i
    }

    /** The waiting events, first to last. */
    ghost function Contents(): (s: seq<Event>)
      requires Valid()
      reads this, array_
      ensures |s| == count
    {
      seq(count, i requires 0 <= i < count && Valid() reads this, array_ => array_[Slot(i)])
    }

    constructor Init()
      ensures Valid() && Contents() == [] && fresh(array_)
    {
      array_ := new Event[0];
      count, alloc, offset := 0, 0, 0;
    }

    /** Double the array, rotating its contents to start at offset 0. */
    method Grow()
      requires Valid() && count == alloc
      modifies this
      ensures Valid() && alloc == 2 * old(alloc) + 1 && offset == 0
      ensures Contents() == old(Contents()) && fresh(array_)
    {
      var newAlloc := 2 * alloc + 1;
      var newArray := Realloc(array_, newAlloc);
      ghost var a, before := array_[..], Contents();
      if offset > 0 {
        Rotate(newArray, a, alloc, offset);
      }
      forall j | 0 <= j < count ensures newArray[j] == before[j] {
        assert before[j] == array_[Slot(j)] == a[Slot(j)];
      }
      offset := 0;
      array_ := newArray;
      alloc := newAlloc;
      assert forall j :: 0 <= j < count ==> Slot(j) == j;
      assert Contents() == before;
    }

    /** A larger array that starts with the old contents. */
    static method Realloc(old_: array<Event>, newAlloc: nat) returns (newArray: array<Event>)
      requires old_.Length <= newAlloc
      ensures fresh(newArray) && newArray.Length == newAlloc
      ensures forall j :: 0 <= j < old_.Length ==> newArray[j] == old_[j]
    {
      newArray := new Event[newAlloc];
      for k := 0 to old_.Length
        invariant forall j :: 0 <= j < k ==> newArray[j] == old_[j]
      {
        newArray[k] := old_[k];
      }
    }

    /** Move the contents of a full queue, which start at offset in the first
        alloc cells, down to offset 0, through the new cells. */
    static method Rotate(newArray: array<Event>, ghost a: seq<Event>, oldAlloc: nat, oldOffset: nat)
      requires 0 < oldOffset < oldAlloc == |a| && newArray.Length == 2 * oldAlloc + 1
      requires forall j :: 0 <= j < oldAlloc ==> newArray[j] == a[j]
      modifies newArray
      ensures forall j :: 0 <= j < oldAlloc ==>
        newArray[j] == a[if oldOffset + j >= oldAlloc then oldOffset + j - oldAlloc else oldOffset + j]
    {
      var oldCount := oldAlloc;
      if oldOffset + oldCount > oldAlloc {
        var limit := oldOffset + oldCount - oldAlloc;
        var i := 0;
        while i < limit
          invariant 0 <= i <= limit
          invariant forall j :: 0 <= j < oldAlloc ==> newArray[j] == a[j]
          invariant forall j :: oldAlloc <= j < oldAlloc + i ==> newArray[j] == a[j - oldAlloc]
        {
          newArray[oldAlloc + i] := newArray[i];
          i := i + 1;
        }
      }
      var i := 0;
      while i < oldCount
        invariant 0 <= i <= oldCount
        invariant forall j :: 0 <= j < i ==>
          newArray[j] == a[if oldOffset + j >= oldAlloc then oldOffset + j - oldAlloc else oldOffset + j]
        invariant forall j :: i <= j < oldAlloc ==> newArray[j] == a[j]
        invariant forall j :: oldAlloc <= j < oldAlloc + oldOffset ==> newArray[j] == a[j - oldAlloc]
      {
        newArray[i] := newArray[oldOffset + i];
        i := i + 1;
      }
    }

    /** Enqueue an event at the end. */
    method Add(event: Event)
      requires Valid()
      modifies this, array_
      ensures Valid() && (array_ == old(array_) || fresh(array_))
      ensures Contents() == old(Contents()) + [event]
    {
      if count == alloc {
        Grow();
      }
      ghost var before := Contents();
      var index := offset + count;
      if index >= alloc {
        index := index - alloc;
      }
      array_[index] := event;
      count := count + 1;
      assert Slot(count - 1) == index;
      assert forall j :: 0 <= j < count - 1 ==> Slot(j) != index;
      assert Contents()[..count - 1] == before;
    }

    /** Notify the first waiting event and dequeue it. */
    method NotifyFirst() returns (event: Event)
      requires Valid() && count > 0
      modifies this
      ensures Valid() && array_ == old(array_)
      ensures [event] + Contents() == old(Contents())
    {
      ghost var before := Contents();
      event := array_[offset + 0];
      assert before[0] == event;
      offset := offset + 1;
      count := count - 1;
      if count == 0 || offset == alloc {
        offset := 0;
      }
      assert forall j :: 0 <= j < count ==> Contents()[j] == before[j + 1];
    }

    /** Notify all waiting events, first to last, and dequeue them all. */
    method NotifyAll() returns (events: seq<Event>)
      requires Valid()
      modifies this
      ensures Valid() && array_ == old(array_)
      ensures events == old(Contents()) && Contents() == []
    {
      events := [];
      var i := 0;
      while i < count
        invariant unchanged(this) && 0 <= i <= count
        invariant events == Contents()[..i]
      {
        var index := offset + i;
        if index >= alloc {
          index := index - alloc;
        }
        events := events + [array_[index]];
        i := i + 1;
      }
      count := 0;
      offset := 0;
    }
  }
}
