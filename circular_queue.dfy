/**
 * A fixed-capacity ring-buffer FIFO that keeps no element count: the array of
 * slots and the two cursors `front` and `rear` (both -1 when the queue is
 * empty) are the whole state.  Emptiness is read from the cursors, fullness
 * from a scan for a free slot.
 */
module CircularQueue {
  import opened Wrappers

  /** Why a call was refused (the Java exceptions of the class). */
  datatype QueueError =
    | InvalidCapacity  // constructor: size < 1
    | InvalidElement   // enqueue(null)
    | QueueFull        // enqueue on a full queue, or onto the front slot

  // ---------------------------------------------------------------------------
  // The abstraction, on plain values: slots, cursors and the queued elements.
  // ---------------------------------------------------------------------------

  /** Number of elements in the circular range front..rear (inclusive) of an n-slot array. */
  ghost function Count(n: int, front: int, rear: int): int {
    if front == -1 then 0
    else if front <= rear then rear - front + 1
    else n - front + rear + 1
  }

  /** Array index of the k-th queued element, counting from the front and wrapping at n. */
  ghost function SlotOf(n: int, front: int, k: int): int {
    if front + k < n then front + k else front + k - n
  }

  /** Whether slot i lies in the circular range front..rear. */
  ghost predicate InRange(front: int, rear: int, i: int) {
    front != -1 && (if front <= rear then front <= i <= rear else front <= i || i <= rear)
  }

  /** Advancing a cursor by one modulo n wraps from the last index to 0. */
  lemma Advance(x: int, n: int)
    requires 0 <= x < n
    ensures (x + 1) % n == if x + 1 == n then 0 else x + 1
  {
  }

  /**
   * The representation invariant: the cursors are both -1 or both indices,
   * the occupied slots are exactly the circular range front..rear, and
   * reading that range from the front gives `contents` in order.
   */
  ghost predicate Represents<T>(slots: seq<Option<T>>, front: int, rear: int, contents: seq<T>) {
    var n := |slots|;
    && n >= 1
    && ((front == -1 && rear == -1) || (0 <= front < n && 0 <= rear < n))
    && |contents| == Count(n, front, rear)
    && (forall i :: 0 <= i < n ==> (slots[i].Some? <==> InRange(front, rear, i)))
    && (forall k :: 0 <= k < |contents| ==> slots[SlotOf(n, front, k)] == Some(contents[k]))
  }

  /** Every slot is occupied exactly when the queue holds as many elements as it has slots. */
  lemma FullIffAtCapacity<T>(slots: seq<Option<T>>, front: int, rear: int, contents: seq<T>)
    requires Represents(slots, front, rear, contents)
    ensures (forall i :: 0 <= i < |slots| ==> slots[i].Some?) <==> |contents| == |slots|
  {
    var n := |slots|;
    if |contents| < n {
      // exhibit a free slot
      var free :=
        if front == -1 then 0
        else if front <= rear then (if 0 < front then 0 else n - 1)
        else rear + 1;
      assert !InRange(front, rear, free);
      assert slots[free].None?;
    } else {
      forall i | 0 <= i < n ensures slots[i].Some? {
        assert InRange(front, rear, i);
      }
    }
  }

  /**
   * On a non-empty queue, advancing `rear` by one (mod n) lands on `front`
   * exactly when the queue is at capacity: the wrap guard in Enqueue refuses the same calls as the fullness check.
   */
  lemma WrapGuardIffFull<T>(slots: seq<Option<T>>, front: int, rear: int, contents: seq<T>)
    requires Represents(slots, front, rear, contents)
    requires contents != []
    ensures ((rear + 1) % |slots| == front) <==> |contents| == |slots|
  {
    Advance(rear, |slots|);
  }

  /** A queue whose slots are all free, with both cursors at -1, holds nothing. */
  lemma EmptyRepresents<T>(slots: seq<Option<T>>)
    requires |slots| >= 1
    requires forall i :: 0 <= i < |slots| ==> slots[i].None?
    ensures Represents(slots, -1, -1, [])
  {
  }

  /** Enqueue into an empty queue: both cursors become 0 and slot 0 holds the element. */
  lemma EnqueueIntoEmpty<T>(slots: seq<Option<T>>, x: T)
    requires Represents(slots, -1, -1, [])
    ensures Represents(slots[0 := Some(x)], 0, 0, [x])
  {
    var s := slots[0 := Some(x)];
    forall i | 0 <= i < |s| ensures s[i].Some? <==> InRange(0, 0, i) {
      assert !InRange(-1, -1, i);
    }
  }

  /**
   * Enqueue into a non-empty queue below capacity: the slot after `rear`
   * (mod n) is free, and writing the element there while moving `rear` onto
   * it appends the element to the contents.
   */
  lemma EnqueueAtRear<T>(slots: seq<Option<T>>, front: int, rear: int, contents: seq<T>, x: T, next: int)
    requires Represents(slots, front, rear, contents)
    requires contents != [] && |contents| < |slots|
    requires next == (rear + 1) % |slots|
    ensures 0 <= next < |slots| && slots[next].None?
    ensures Represents(slots[next := Some(x)], front, next, contents + [x])
  {
    var n := |slots|;
    Advance(rear, n);
    assert SlotOf(n, front, |contents|) == next;
    assert !InRange(front, rear, next);
    var s := slots[next := Some(x)];
    var c := contents + [x];
    forall i | 0 <= i < n ensures s[i].Some? <==> InRange(front, next, i) {
      assert InRange(front, next, i) <==> InRange(front, rear, i) || i == next;
    }
    forall k | 0 <= k < |c| ensures s[SlotOf(n, front, k)] == Some(c[k]) {
      if k < |contents| {
        assert SlotOf(n, front, k) != next by {
          assert InRange(front, rear, SlotOf(n, front, k));
        }
      }
    }
  }

  /**
   * Dequeue from a non-empty queue: the front slot holds the first element;
   * freeing it and either resetting both cursors (last element) or advancing
   * `front` (mod n) drops that element from the contents.
   */
  lemma DequeueAtFront<T>(slots: seq<Option<T>>, front: int, rear: int, contents: seq<T>, front': int, rear': int)
    requires Represents(slots, front, rear, contents)
    requires contents != []
    requires front' == if front == rear then -1 else (front + 1) % |slots|
    requires rear' == if front == rear then -1 else rear
    ensures 0 <= front < |slots| && slots[front] == Some(contents[0])
    ensures Represents(slots[front := None], front', rear', contents[1..])
  {
    var n := |slots|;
    assert SlotOf(n, front, 0) == front;
    var s := slots[front := None];
    var c := contents[1..];
    if front == rear {
      forall i | 0 <= i < n ensures s[i].None? {
        assert InRange(front, rear, i) ==> i == front;
      }
    } else {
      Advance(front, n);
      var f := front';
      forall i | 0 <= i < n ensures s[i].Some? <==> InRange(f, rear, i) {
        assert InRange(f, rear, i) <==> InRange(front, rear, i) && i != front;
      }
      forall k | 0 <= k < |c| ensures s[SlotOf(n, f, k)] == Some(c[k]) {
        assert SlotOf(n, f, k) == SlotOf(n, front, k + 1);
        assert SlotOf(n, front, k + 1) != front;
      }
    }
  }

  // ---------------------------------------------------------------------------
  // The class.
  // ---------------------------------------------------------------------------

  class SizelessCircularQueue<T> {
    /** The slots; None is Java's null, an unoccupied slot. */
    const queue: array<Option<T>>
    /** Index of the front element, or -1 when the queue is empty. */
    var front: int
    /** Index of the rear element, or -1 when the queue is empty. */
    var rear: int

    /** The queued elements, front first. */
    ghost var Contents: seq<T>
    /** Every element accepted by Enqueue, in order. */
    ghost var Enqueued: seq<T>
    /** Every element returned by Dequeue, in order. */
    ghost var Dequeued: seq<T>

    /**
     * The object invariant: the slots and cursors represent Contents, and
     * what has been dequeued followed by what is still queued is exactly what
     * was enqueued (FIFO order).
     */
    ghost predicate Valid()
      reads this, queue
    {
      Represents(queue[..], front, rear, Contents) && Enqueued == Dequeued + Contents
    }

    /** The allocation after the size check: `size` free slots and both cursors at -1. */
    constructor (size: int)
      requires size >= 1
      ensures Valid() && fresh(queue)
      ensures queue.Length == size && front == -1 && rear == -1
      ensures forall i :: 0 <= i < queue.Length ==> queue[i].None?
      ensures Contents == [] && Enqueued == [] && Dequeued == []
    {
      queue := new Option<T>[size](_ => None);
      front := -1;
      rear := -1;
      Contents, Enqueued, Dequeued := [], [], [];
      new;
      EmptyRepresents(queue[..]);
    }

    /** The Java constructor: a size below 1 is refused, otherwise a fresh empty queue. */
    static method Create(size: int) returns (r: Result<SizelessCircularQueue<T>, QueueError>)
      ensures size < 1 <==> r.Failure?
      ensures r.Failure? ==> r.error == InvalidCapacity
      ensures r.Success? ==> fresh(r.value) && fresh(r.value.queue) && r.value.Valid()
      ensures r.Success? ==> r.value.queue.Length == size && r.value.Contents == []
      ensures r.Success? ==> r.value.front == -1 && r.value.rear == -1
      ensures r.Success? ==> forall i :: 0 <= i < size ==> r.value.queue[i].None?
      ensures r.Success? ==> r.value.Enqueued == [] && r.value.Dequeued == []
    {
      if size < 1 {
        return Failure(InvalidCapacity);
      }
      var q := new SizelessCircularQueue<T>(size);
      return Success(q);
    }

    /** True exactly when both cursors are -1, which is exactly when nothing is queued. */
    function IsEmpty(): (empty: bool)
      reads this, queue
      requires Valid()
      ensures empty <==> Contents == []
      ensures empty <==> (front == -1 && rear == -1)
    {
      front == -1 && rear == -1
    }

    /** Scans the slots: true exactly when none is free, which is exactly when the queue is at capacity. */
    method IsFull() returns (full: bool)
      requires Valid()
      ensures full <==> (forall i :: 0 <= i < queue.Length ==> queue[i].Some?)
      ensures full <==> |Contents| == queue.Length
    {
      FullIffAtCapacity(queue[..], front, rear, Contents);
      for k := 0 to queue.Length
        invariant forall i :: 0 <= i < k ==> queue[i].Some?
      {
        if queue[k].None? {
          return false;
        }
      }
      return true;
    }

    /**
     * Adds an element at the rear.  A None element, a full non-empty queue
     * and a rear that would wrap onto the front are refused with no change.
     */
    method Enqueue(element: Option<T>) returns (r: Outcome<QueueError>)
      requires Valid()
      modifies this, queue
      ensures Valid()
      ensures element.None? ==> r == Fail(InvalidElement)
      ensures element.Some? && |old(Contents)| == queue.Length ==> r == Fail(QueueFull)
      ensures element.Some? && |old(Contents)| < queue.Length ==> r == Pass
      ensures r.Fail? ==> unchanged(this, queue)
      ensures r.Pass? ==> Contents == old(Contents) + [element.value]
      ensures r.Pass? ==> Enqueued == old(Enqueued) + [element.value] && Dequeued == old(Dequeued)
      ensures r.Pass? && old(Contents) == [] ==> front == 0 && rear == 0
      ensures r.Pass? && old(Contents) != [] ==> front == old(front) && rear == (old(rear) + 1) % queue.Length
      ensures r.Pass? ==> queue[..] == old(queue[..])[rear := element]
    {
      if element.None? {
        return Fail(InvalidElement);
      }
      if !IsEmpty() {
        var full := IsFull();
        if full {
          return Fail(QueueFull);
        }
      }
      ghost var slots, c := queue[..], Contents;
      if IsEmpty() {
        front := 0;
        rear := 0;
        queue[rear] := element;
        EnqueueIntoEmpty(slots, element.value);
      } else {
        var next := (rear + 1) % queue.Length;
        WrapGuardIffFull(slots, front, rear, c);
        // the next rear slot would be the front slot
        if next == front {
          return Fail(QueueFull);
        }
        rear := next;
        queue[rear] := element;
        EnqueueAtRear(slots, front, old(rear), c, element.value, rear);
      }
      assert queue[..] == slots[rear := element];
      Contents := c + [element.value];
      Enqueued := Enqueued + [element.value];
      r := Pass;
    }

    /**
     * Removes and returns the front element, freeing its slot; None (and no
     * change) on an empty queue.
     */
    method Dequeue() returns (r: Option<T>)
      requires Valid()
      modifies this, queue
      ensures Valid()
      ensures old(Contents) == [] ==> r == None && unchanged(this, queue)
      ensures old(Contents) != [] ==> r == Some(old(Contents)[0]) && Contents == old(Contents)[1..]
      ensures old(Contents) != [] ==> Dequeued == old(Dequeued) + [r.value] && Enqueued == old(Enqueued)
      ensures old(Contents) != [] ==> queue[..] == old(queue[..])[old(front) := None]
      ensures old(Contents) != [] && old(front) == old(rear) ==> front == -1 && rear == -1
      ensures old(Contents) != [] && old(front) != old(rear) ==>
                front == (old(front) + 1) % queue.Length && rear == old(rear)
    {
      if IsEmpty() {
        return None;
      }
      ghost var slots, c := queue[..], Contents;
      r := queue[front];
      queue[front] := None;
      if front == rear {
        front := -1;
        rear := -1;
      } else {
        front := (front + 1) % queue.Length;
      }
      DequeueAtFront(slots, old(front), old(rear), c, front, rear);
      assert queue[..] == slots[old(front) := None];
      assert Dequeued + [r.value] + c[1..] == Dequeued + c;
      Contents := c[1..];
      Dequeued := Dequeued + [r.value];
    }

    /** The front element without removing it; None on an empty queue. */
    function Peek(): (r: Option<T>)
      reads this, queue
      requires Valid()
      ensures Contents == [] ==> r == None
      ensures Contents != [] ==> r == Some(Contents[0])
    {
      if IsEmpty() then None else queue[front]
    }
  }
}
