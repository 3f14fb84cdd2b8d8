/** Single-threaded uses of the queue, stated as methods whose postconditions
    follow from the queue's contracts alone. */
module QueueScenarios {
  import opened SpmcQueue

  /** The demo's sequence: push 3, 2, 1 into a new queue, then pop three times;
      the values come out in push order. */
  method PushThreePopThree() returns (r1: bool, v1: int, r2: bool, v2: int, r3: bool, v3: int)
    ensures r1 && r2 && r3
    ensures [v1, v2, v3] == [3, 2, 1]
  {
    var queue := new Queue();
    var ok := queue.Push(3);
    ok := queue.Push(2);
    ok := queue.Push(1);
    assert queue.Contents() == [3, 2, 1];
    queue.EmptyIffHeadFree();
    r1, v1 := queue.Pop();
    queue.EmptyIffHeadFree();
    r2, v2 := queue.Pop();
    queue.EmptyIffHeadFree();
    r3, v3 := queue.Pop();
  }

  /** Filling a new queue: the first Capacity pushes succeed and the next one is
      refused; after one pop a push succeeds again, and the value popped is the
      first one pushed. */
  method FillPopRefill(values: seq<int>, extra: int)
    returns (refused: bool, popped: int, accepted: bool)
    requires |values| == Capacity
    ensures refused && accepted
    ensures popped == values[0]
  {
    var queue := new Queue();
    var i := 0;
    while i < Capacity
      invariant 0 <= i <= Capacity
      invariant queue.Valid() && queue.InSync()
      invariant !queue.evict
      invariant queue.Contents() == values[..i]
    {
      var ok := queue.Push(values[i]);
      assert values[..i + 1] == values[..i] + [values[i]];
      i := i + 1;
    }
    var ok := queue.Push(extra);
    refused := !ok;
    queue.EmptyIffHeadFree();
    var found;
    found, popped := queue.Pop();
    ok := queue.Push(extra);
    accepted := ok;
  }
}
