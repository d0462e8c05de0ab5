/**
 * Clients of SizelessCircularQueue. RoundTrip and Overfill are black-box:
 * they observe the queue only through its operations' results. The tester's
 * scenarios drive the queue only through its operations too, but, like the
 * repository's whitebox tester, their assertions also inspect the cursors
 * and slots.
 */
module QueueScenarios {
  import opened Wrappers
  import opened CircularQueue

  /** Enqueues the elements of xs in order into a queue with room for all of them; each is accepted. */
  method Fill<T>(q: SizelessCircularQueue<T>, xs: seq<T>)
    requires q.Valid() && q.Contents == [] && |xs| <= q.queue.Length
    modifies q, q.queue
    ensures q.Valid() && q.Contents == xs
  {
    for i := 0 to |xs|
      invariant q.Valid() && q.Contents == xs[..i]
    {
      var r := q.Enqueue(Some(xs[i]));
      assert r == Pass;
      assert xs[..i + 1] == xs[..i] + [xs[i]];
    }
    assert xs[..|xs|] == xs;
  }

  /**
   * Enqueue every element of xs into a fresh queue of the given capacity,
   * then dequeue until the queue reports empty: the dequeued values are xs,
   * in order and no more.
   */
  method RoundTrip<T>(xs: seq<T>, capacity: int) returns (ys: seq<T>)
    requires |xs| <= capacity
    ensures ys == xs
  {
    var created := SizelessCircularQueue<T>.Create(capacity);
    if created.Failure? {
      return [];
    }
    var q := created.value;
    Fill(q, xs);
    ys := [];
    while !q.IsEmpty()
      invariant fresh(q) && fresh(q.queue)
      invariant q.Valid()
      invariant ys + q.Contents == xs
      decreases |q.Contents|
    {
      var v := q.Dequeue();
      ys := ys + [v.value];
    }
  }

  /**
   * Filling a fresh queue to its capacity and enqueueing once more: the extra
   * element is refused as QueueFull and the queue still holds exactly xs.
   */
  method Overfill<T>(xs: seq<T>, extra: T) returns (r: Outcome<QueueError>, peek: Option<T>)
    requires |xs| >= 1
    ensures r == Fail(QueueFull)
    ensures peek == Some(xs[0])
  {
    var q := new SizelessCircularQueue<T>(|xs|);
    Fill(q, xs);
    r := q.Enqueue(Some(extra));
    peek := q.Peek();
  }

  /** Size 0 is refused; a fresh size-1 queue is empty and not full. */
  method ConstructorScenario() {
    var bad := SizelessCircularQueue<int>.Create(0);
    assert bad == Failure(InvalidCapacity);
    var ok := SizelessCircularQueue<int>.Create(1);
    assert ok.Success?;
    var q := ok.value;
    assert q.IsEmpty();
    var full := q.IsFull();
    assert !full;
  }

  /** Capacity 1: one enqueue fills the queue, a second is refused, a null is refused. */
  method EnqueueScenario() {
    var q := new SizelessCircularQueue<int>(1);
    var r := q.Enqueue(Some(1));
    assert r == Pass && !q.IsEmpty();
    var full := q.IsFull();
    assert full;
    assert q.Peek() == Some(1) && q.Peek() == Some(1);
    r := q.Enqueue(Some(2));
    assert r == Fail(QueueFull);
    var p := new SizelessCircularQueue<int>(1);
    r := p.Enqueue(None);
    assert r == Fail(InvalidElement) && p.IsEmpty();
  }

  /**
   * Capacity 2 with the rear wrapping past the end of the array: enqueue 1
   * and 2, dequeue 1, then enqueue 3, which goes into slot 0.
   */
  method WrapScenario() {
    var q := new SizelessCircularQueue<int>(2);
    var r := q.Enqueue(Some(1));
    r := q.Enqueue(Some(2));
    var v := q.Dequeue();
    assert v == Some(1) && q.Contents == [2];
    r := q.Enqueue(Some(3));
    assert r == Pass && q.front == 1 && q.rear == 0 && q.queue[0] == Some(3);
    DrainWrapped(q);
  }

  /**
   * Dequeueing from the wrapped state (slots [3, 2], front 1, rear 0): front
   * wraps to 0 and rear stays, then the last element resets both cursors.
   */
  method DrainWrapped(q: SizelessCircularQueue<int>)
    requires q.Valid() && q.Contents == [2, 3] && q.front == 1 && q.rear == 0
    modifies q, q.queue
  {
    var v := q.Dequeue();
    assert v == Some(2) && q.front == 0 && q.rear == 0 && q.queue[1] == None;
    v := q.Dequeue();
    assert v == Some(3) && q.IsEmpty();
    v := q.Dequeue();
    assert v == None && q.IsEmpty();
    var full := q.IsFull();
    assert !full;
  }
}
