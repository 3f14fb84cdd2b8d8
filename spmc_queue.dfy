/** Sequential model of the bounded single-producer / multi-consumer ring buffer
    (class `SPMCQueue`). The producer writes at `back`; consumers claim positions
    by bumping the shared counter `front`; every slot carries an `occupied` and an
    `available` flag. Memory orderings and concurrent interleavings are not part
    of this model: every operation runs to completion before the next starts. */
module SpmcQueue {

  /** Number of slots in the ring. */
  const Capacity: nat := 1024

  /** The producer's step: the slot after `index`, back to slot 0 at the end of the ring. */
  function Increment(index: nat): (r: nat)
    ensures index < Capacity ==> r == Wrap(index + 1)
    ensures r < Capacity <==> index < Capacity
  {
    var incremented := index + 1;
    if incremented == Capacity then 0 else incremented
  }

  /** The consumer's reduction of a raw counter value to a physical slot. */
  function Wrap(index: nat): (r: nat)
    ensures r < Capacity
    ensures index < Capacity ==> r == index
  {
    index % Capacity
  }

  /** A raw counter value and that value less one whole ring designate the same
      slot: this is why pulling `front` back by Capacity never moves a claim. */
  lemma WrapPeriodic(index: nat)
    ensures Wrap(index + Capacity) == Wrap(index)
  {
  }

  /** Value of the claim counter `front` after `claims` single-threaded pops:
      it counts 1, 2, ..., Capacity and then restarts at 1, because the pop that
      claims position Capacity pulls the counter back by Capacity. */
  function ClaimCounter(claims: nat): nat
  {
    if claims == 0 then 0 else (claims - 1) % Capacity + 1
  }

  /** The counter update one pop performs: increment, and subtract Capacity when the
      claimed raw value was past the end of the ring and wrapped to slot 0. */
  function AfterClaim(front: nat): nat
  {
    if front >= Capacity && Wrap(front) == 0 then front + 1 - Capacity else front + 1
  }

  /** The counter stays within [0, Capacity] and the slot it designates is the
      number of pops so far, modulo Capacity. */
  lemma ClaimCounterBounds(claims: nat)
    ensures ClaimCounter(claims) <= Capacity
    ensures Wrap(ClaimCounter(claims)) == claims % Capacity
  {
  }

  /** One pop moves the counter from its value after `claims` pops to its value
      after `claims + 1` pops. */
  lemma {:induction false} ClaimStep(claims: nat)
    ensures AfterClaim(ClaimCounter(claims)) == ClaimCounter(claims + 1)
  {
    ClaimCounterBounds(claims);
  }

  /** Each pop claims the slot after the one the previous pop claimed. */
  lemma ClaimAdvancesHead(claims: nat)
    ensures Wrap(ClaimCounter(claims + 1)) == Increment(Wrap(ClaimCounter(claims)))
  {
    ClaimCounterBounds(claims);
    ClaimCounterBounds(claims + 1);
  }

  /** The slot `k` places after `head`, going round the ring. */
  function Offset(head: nat, k: nat): (i: nat)
    requires head < Capacity && k <= Capacity
    ensures i < Capacity
  {
    if head + k < Capacity then head + k else head + k - Capacity
  }

  /** How many slots `i` lies after `head`, going round the ring. */
  function Dist(head: nat, i: nat): (d: nat)
    requires head < Capacity && i < Capacity
    ensures d < Capacity
    ensures Offset(head, d) == i
  {
    if head <= i then i - head else i + Capacity - head
  }

  lemma DistOfOffset(head: nat, k: nat)
    requires head < Capacity && k < Capacity
    ensures Dist(head, Offset(head, k)) == k
  {
  }

  lemma DistStep(head: nat, i: nat)
    requires head < Capacity && i < Capacity && i != head
    ensures Dist(Increment(head), i) == Dist(head, i) - 1
  {
  }

  /** The two per-slot flags of the producer / consumer handshake. */
  datatype MetaData = MetaData(occupied: bool, available: bool)

  class Queue {
    /** Set once by `EvictWaitingConsumers`; never cleared. */
    var evict: bool
    /** The producer's write position. */
    var back: nat
    /** The consumers' claim counter. */
    var front: nat
    const meta: array<MetaData>
    const data: array<int>
    /** Number of pops performed so far. */
    ghost var claims: nat

    /** The sequential object invariant: the arrays have Capacity slots, `back`
        is a slot, `front` is determined by the number of pops, and the two
        flags of every slot agree (push raises both, a successful pop lowers both). */
    ghost predicate Valid()
      reads this, meta
    {
      meta.Length == Capacity && data.Length == Capacity &&
      back < Capacity &&
      front == ClaimCounter(claims) &&
      forall i :: 0 <= i < Capacity ==> meta[i].available == meta[i].occupied
    }

    /** The slot the next pop claims. */
    ghost function Head(): nat
      reads this
    {
      Wrap(front)
    }

    /** Number of items between the next claim and the producer's position; when
        the two positions coincide the ring is either empty or full, and the flag
        of that slot tells which. */
    ghost function Count(): (n: nat)
      reads this, meta
      requires Valid()
      ensures n <= Capacity
      ensures back == Offset(Head(), n)
    {
      if back == Head() then (if meta[back].occupied then Capacity else 0)
      else Dist(Head(), back)
    }

    /** The ring is in step: the occupied slots are exactly the Count() slots from
        Head() on. This holds from construction on and is kept by every push and
        every successful pop; an evicting pop on an empty ring breaks it. */
    ghost predicate InSync()
      reads this, meta
      requires Valid()
    {
      forall i :: 0 <= i < Capacity ==> (meta[i].occupied <==> Dist(Head(), i) < Count())
    }

    /** The queued values in the order they will be popped. */
    ghost function Contents(): (s: seq<int>)
      reads this, meta, data
      requires Valid()
      ensures |s| == Count()
    {
      var cells := data[..];
      var head := Head();
      var n := Count();
      seq(n, k requires 0 <= k < n => cells[Offset(head, k)])
    }

    /** A new queue: no slot occupied, both positions at slot 0, no eviction. */
    constructor ()
      ensures Valid() && InSync() && Contents() == []
      ensures fresh(meta) && fresh(data)
      ensures !evict && back == 0 && front == 0 && claims == 0
    {
      evict := false;
      back := 0;
      front := 0;
      claims := 0;
      meta := new MetaData[Capacity](_ => MetaData(false, false));
      data := new int[Capacity](_ => 0);
    }

    /** Producer side: refuse when the slot at `back` is still occupied (the ring
        is full); otherwise write the value there, advance `back` and raise both
        flags of the written slot. */
    method Emplace(value: int) returns (ok: bool)
      requires Valid()
      modifies this, meta, data
      ensures Valid()
      ensures ok == !old(meta[back].occupied)
      ensures front == old(front) && claims == old(claims) && evict == old(evict)
      ensures !ok ==> back == old(back) && meta[..] == old(meta[..]) && data[..] == old(data[..])
      ensures ok ==> back == Increment(old(back))
      ensures ok ==> data[..] == old(data[..])[old(back) := value]
      ensures ok ==> meta[..] == old(meta[..])[old(back) := MetaData(true, true)]
      ensures old(InSync()) ==> InSync()
      ensures old(InSync()) ==> (ok <==> |old(Contents())| < Capacity)
      ensures old(InSync()) ==> Contents() == if ok then old(Contents()) + [value] else old(Contents())
    {
      ghost var wasSync := InSync();
      ghost var oldContents := Contents();
      ghost var n := Count();
      if wasSync {
        FullIffBackOccupied();
      }
      var slot := back;
      if meta[slot].occupied {
        return false;
      }
      data[slot] := value;
      back := Increment(slot);
      meta[slot] := meta[slot].(occupied := true);
      meta[slot] := meta[slot].(available := true);
      ok := true;
      if wasSync {
        PushKeepsSync(slot, n, value, oldContents);
      }
    }

    /** `push` in both its copying and its moving form is `Emplace`. */
    method Push(value: int) returns (ok: bool)
      requires Valid()
      modifies this, meta, data
      ensures Valid()
      ensures ok == !old(meta[back].occupied)
      ensures front == old(front) && claims == old(claims) && evict == old(evict)
      ensures !ok ==> back == old(back) && meta[..] == old(meta[..]) && data[..] == old(data[..])
      ensures ok ==> back == Increment(old(back))
      ensures ok ==> data[..] == old(data[..])[old(back) := value]
      ensures ok ==> meta[..] == old(meta[..])[old(back) := MetaData(true, true)]
      ensures old(InSync()) ==> InSync()
      ensures old(InSync()) ==> (ok <==> |old(Contents())| < Capacity)
      ensures old(InSync()) ==> Contents() == if ok then old(Contents()) + [value] else old(Contents())
    {
      ok := Emplace(value);
    }

    /** In step, the slot at `back` is occupied exactly when the ring holds
        Capacity items: this is when a push is refused. */
    lemma FullIffBackOccupied()
      requires Valid() && InSync()
      ensures meta[back].occupied <==> Count() == Capacity
    {
      if Count() < Capacity {
        DistOfOffset(Head(), Count());
      }
    }

    /** In step, the slot the next pop claims is occupied exactly when the ring
        holds at least one item. */
    lemma EmptyIffHeadFree()
      requires Valid() && InSync()
      ensures meta[Head()].occupied <==> Count() > 0
    {
      assert Dist(Head(), Head()) == 0;
    }

    /** The proof that a successful push keeps the ring in step and appends. */
    lemma PushKeepsSync(slot: nat, n: nat, value: int, oldContents: seq<int>)
      requires Valid()
      requires slot < Capacity && n < Capacity
      requires back == Increment(slot) && slot == Offset(Head(), n)
      requires meta[slot].occupied
      requires forall i :: 0 <= i < Capacity && i != slot ==> (meta[i].occupied <==> Dist(Head(), i) < n)
      requires |oldContents| == n
      requires forall k :: 0 <= k < n ==> data[Offset(Head(), k)] == oldContents[k]
      requires data[slot] == value
      ensures InSync() && Contents() == oldContents + [value]
    {
      var h := Head();
      DistOfOffset(h, n);
      assert back == Offset(h, n + 1);
      assert Count() == n + 1 by {
        if back == h {
          assert n + 1 == Capacity;
          assert Dist(h, h) == 0;
          assert meta[h].occupied;
        } else {
          DistOfOffset(h, n + 1);
        }
      }
      var cells := data[..];
      var appended := oldContents + [value];
      forall k | 0 <= k < n + 1
        ensures cells[Offset(h, k)] == appended[k]
      {
        if k < n {
          DistOfOffset(h, k);
        }
      }
    }

    /** Consumer side, run by one thread at a time: claim the position `front` by
        bumping the counter (pulling it back by Capacity at the wrap point), then
        take the value if that slot is available, lowering both flags; if it is not
        available and eviction is set, give up with `(false, 0)`. The counter has
        advanced either way. */
    method Pop() returns (found: bool, value: int)
      requires Valid()
      requires evict || meta[Wrap(front)].available
      modifies this, meta
      ensures Valid()
      ensures claims == old(claims) + 1
      ensures front == AfterClaim(old(front))
      ensures back == old(back) && evict == old(evict) && data[..] == old(data[..])
      ensures found == old(meta[Wrap(front)].available)
      ensures found ==> value == data[Wrap(old(front))]
      ensures found ==> meta[..] == old(meta[..])[Wrap(old(front)) := MetaData(false, false)]
      ensures !found ==> value == 0 && meta[..] == old(meta[..])
      ensures old(InSync()) ==> (found <==> |old(Contents())| > 0)
      ensures old(InSync()) && found ==> value == old(Contents())[0]
      ensures old(InSync()) && found ==> InSync() && Contents() == old(Contents())[1..]
      ensures old(InSync()) && !found ==> !InSync()
    {
      ghost var wasSync := InSync();
      ghost var oldContents := Contents();
      ghost var n := Count();
      ghost var head := Head();
      if wasSync {
        EmptyIffHeadFree();
      }
      var wrapped := ClaimFront();
      // exchange(false) on the available flag.
      var taken := meta[wrapped].available;
      meta[wrapped] := meta[wrapped].(available := false);
      if !taken {
        // Only reached with evict set; without it the source spins on this slot.
        found, value := false, 0;
        if wasSync {
          EvictBreaksSync(head);
        }
        return;
      }
      value := data[wrapped];
      meta[wrapped] := meta[wrapped].(occupied := false);
      found := true;
      if wasSync {
        PopKeepsSync(head, n, oldContents);
      }
    }

    /** The claim step of a pop: fetch-and-increment `front`, and pull it back by
        Capacity when the claimed raw value was past the end of the ring and wrapped
        to slot 0. Returns the claimed slot; the next claim is the slot after it. */
    method ClaimFront() returns (wrapped: nat)
      requires Valid()
      modifies this
      ensures Valid()
      ensures wrapped == old(Head()) && Head() == Increment(wrapped)
      ensures wrapped == old(claims) % Capacity
      ensures front == AfterClaim(old(front)) && claims == old(claims) + 1
      ensures back == old(back) && evict == old(evict)
    {
      ClaimCounterBounds(claims);
      ClaimStep(claims);
      ClaimAdvancesHead(claims);
      // fetch_add: claim the current position and advance the counter.
      var claimed := front;
      front := front + 1;
      claims := claims + 1;
      wrapped := Wrap(claimed);
      if claimed >= Capacity && wrapped == 0 {
        // fetch_sub: pull the counter back into range.
        front := front - Capacity;
      }
    }

    /** The proof that a successful pop keeps the ring in step and drops the head. */
    lemma PopKeepsSync(head: nat, n: nat, oldContents: seq<int>)
      requires Valid()
      requires head < Capacity && 0 < n <= Capacity
      requires Head() == Increment(head)
      requires back == Offset(head, n)
      requires !meta[head].occupied
      requires forall i :: 0 <= i < Capacity && i != head ==> (meta[i].occupied <==> Dist(head, i) < n)
      requires |oldContents| == n
      requires forall k :: 0 <= k < n ==> data[Offset(head, k)] == oldContents[k]
      ensures InSync() && Contents() == oldContents[1..]
    {
      PopCount(head, n);
      PopSync(head, n);
      var h := Head();
      var cells := data[..];
      var rest := oldContents[1..];
      forall k | 0 <= k < n - 1
        ensures cells[Offset(h, k)] == rest[k]
      {
        assert Offset(h, k) == Offset(head, k + 1);
      }
    }

    /** After a successful pop the occupied slots are the remaining ones from the
        new head on. */
    lemma PopSync(head: nat, n: nat)
      requires Valid()
      requires head < Capacity && 0 < n <= Capacity
      requires Head() == Increment(head)
      requires !meta[head].occupied
      requires forall i :: 0 <= i < Capacity && i != head ==> (meta[i].occupied <==> Dist(head, i) < n)
      requires Count() == n - 1
      ensures InSync()
    {
      forall i | 0 <= i < Capacity
        ensures meta[i].occupied <==> Dist(Head(), i) < n - 1
      {
        if i != head {
          DistStep(head, i);
        }
      }
    }

    /** After a successful pop the ring holds one item fewer. */
    lemma PopCount(head: nat, n: nat)
      requires Valid()
      requires head < Capacity && 0 < n <= Capacity
      requires Head() == Increment(head)
      requires back == Offset(head, n)
      requires forall i :: 0 <= i < Capacity && i != head ==> (meta[i].occupied <==> Dist(head, i) < n)
      ensures Count() == n - 1
    {
      var h := Head();
      if back == h {
        assert n == 1;
        assert Dist(head, back) == 1;
        assert !meta[back].occupied;
      } else if back == head {
        assert n == Capacity;
        assert Dist(h, back) == Capacity - 1;
      } else {
        DistStep(head, back);
        DistOfOffset(head, n);
      }
    }

    /** An evicting pop on an empty ring leaves `front` one slot ahead of `back`:
        the ring is no longer in step. */
    lemma EvictBreaksSync(head: nat)
      requires Valid()
      requires head < Capacity
      requires Head() == Increment(head)
      requires back == head && !meta[Head()].occupied
      ensures !InSync()
    {
      assert Dist(Head(), Head()) == 0;
      assert Count() == Capacity - 1;
    }

    /** Shutdown: raise the eviction flag; nothing else changes, so a second call is
        a no-op. */
    method EvictWaitingConsumers()
      requires Valid()
      modifies this
      ensures Valid() && evict
      ensures back == old(back) && front == old(front) && claims == old(claims)
      ensures old(evict) ==> unchanged(this)
    {
      evict := true;
    }
  }
}
