/** The resource manager's code over its linked list of waiters
    (`src/resource.c`, built with BSP430_CORE_NDEBUG, so that misuse returns an
    error instead of spinning). */
module ResourceDriver {
  import opened Lists
  import opened Options
  import opened Resource

  /** `sBSP430resourceWaiter`. */
  class Waiter {
    var next: Waiter?

    constructor ()
      ensures next == null
    {
      next := null;
    }
  }

  ghost function Nth(q: seq<Waiter>, i: nat): Waiter? {
    if i < |q| then q[i] else null
  }

  ghost predicate Linked(head: Waiter?, q: seq<Waiter>)
    reads q
  {
    && head == Nth(q, 0)
    && (forall i {:trigger q[i].next} | 0 <= i < |q| :: q[i].next == Nth(q, i + 1))
    && Distinct(q)
  }

  lemma {:induction false} Unlinked(q: seq<Waiter>, k: nat)
    requires k < |q| && Distinct(q)
    ensures Distinct(q[..k] + q[k + 1..])
    ensures forall x | x in q[..k] + q[k + 1..] :: x in q && x != q[k]
  {
  }

  /** A claimant handle: null or an object. */
  ghost function Handle(x: object?): Option<object> {
    if x == null then None else Some(x)
  }

  /** `sBSP430resource`. */
  class SharedResource {
    var holder: object?
    var count: int
    var waiter: Waiter?
    ghost var queue: seq<Waiter>
    ghost var log: seq<Event<object>>

    constructor ()
      ensures Valid() && State() == Res(None, 0, [], [])
    {
      holder, count, waiter, queue, log := null, 0, null, [], [];
    }

    ghost predicate Valid()
      reads this, queue
    {
      Linked(waiter, queue) && 0 <= count && (count > 0 ==> holder != null)
    }

    ghost function State(): Res<object>
      reads this
    {
      Res(Handle(holder), count, queue, log)
    }

    /** `remove_waiter_ni`. */
    method RemoveWaiter(w: Waiter)
      requires Valid()
      modifies this`waiter, this`queue, queue
      ensures Valid() && State() == old(State()).(queue := Remove<object>(old(State()).queue, w))
      ensures forall x | x in queue :: x in old(queue)
    {
      hide Remove, Distinct;
      ghost var q := queue;
      var prev: Waiter?, wp := null, waiter;
      ghost var k := 0;
      while wp != null && wp != w
        invariant k <= |q| && wp == Nth(q, k)
        invariant prev == if k == 0 then null else q[k - 1]
        invariant forall i | 0 <= i < k :: q[i] != w
        decreases |q| - k
      {
        assert wp.next == q[k].next;
        prev, wp, k := wp, wp.next, k + 1;
      }
      ghost var j := RemoveSplits<object>(q, w);
      assert k == j;
      if wp != null {
        TakeOut(prev, wp, k);
      }
    }

    /** Pointing past a waiter. */
    method TakeOut(prev: Waiter?, w: Waiter, ghost k: nat)
      requires Valid() && k < |queue| && w == queue[k] && prev == if k == 0 then null else queue[k - 1]
      modifies this`waiter, this`queue, queue
      ensures Valid() && queue == old(queue)[..k] + old(queue)[k + 1..]
      ensures forall x | x in queue :: x in old(queue)
    {
      ghost var q := queue;
      assert w.next == q[k].next;
      if prev == null {
        waiter := w.next;
      } else {
        prev.next := w.next;
      }
      queue := q[..k] + q[k + 1..];
      Unlinked(q, k);
      hide Distinct;
      forall i | 0 <= i < |queue| ensures queue[i].next == Nth(queue, i + 1) {
        assert queue[i] == if i < k then q[i] else q[i + 1];
        assert Nth(queue, i + 1) == if i + 1 < k then Nth(q, i + 1) else Nth(q, i + 2);
      }
    }

    /** `iBSP430resourceClaim_ni`. */
    method Claim(self: object?, wait: Wait, w: Waiter?) returns (rc: int)
      requires Valid()
      modifies this, queue, w
      ensures Valid() && (State(), rc) == Resource.Claim(old(State()), this, Handle(self), wait, Handle(w))
      ensures forall x | x in queue :: x in old(queue) || x == w
    {
      if 0 == count || self == holder {
        if 0 == count {
          holder := if self == null then this else self;
          if w != null {
            RemoveWaiter(w);
          }
        }
        log := log + [Claimed(holder)];
        count := (count + 1) % 0x1_0000;
        return 0;
      }
      if !wait.NoWait? && w != null {
        Register(wait, w);
      }
      return -1;
    }

    /** The registration of a waiter, unless it is in the queue already. */
    method Register(wait: Wait, w: Waiter)
      requires Valid() && !wait.NoWait?
      modifies this`waiter, this`queue, queue, w
      ensures Valid()
      ensures queue == if w in old(queue) then old(queue)
                       else if wait.Lifo? then [w] + old(queue) else old(queue) + [w]
    {
      ghost var q := queue;
      var prev: Waiter?, wp := null, waiter;
      ghost var k := 0;
      while wp != null
        invariant k <= |q| && wp == Nth(q, k)
        invariant prev == if k == 0 then null else q[k - 1]
        invariant forall i | 0 <= i < k :: q[i] != w
        decreases |q| - k
      {
        if w == wp {
          return;
        }
        assert wp.next == q[k].next;
        prev, wp, k := wp, wp.next, k + 1;
      }
      if wait.Lifo? {
        Prepend(w);
      } else {
        Append(prev, w);
      }
    }

    method Prepend(w: Waiter)
      requires Valid() && w !in queue
      modifies this`waiter, this`queue, w
      ensures Valid() && queue == [w] + old(queue)
    {
      hide Distinct;
      ghost var q := queue;
      DistinctFirst(w, q);
      w.next := waiter;
      waiter := w;
      queue := [w] + q;
      forall i | 0 <= i < |queue| ensures queue[i].next == Nth(queue, i + 1) {
        if i > 0 {
          assert queue[i] == q[i - 1] && q[i - 1] in q;
        }
      }
    }

    method Append(prev: Waiter?, w: Waiter)
      requires Valid() && w !in queue && prev == if queue == [] then null else queue[|queue| - 1]
      modifies this`waiter, this`queue, queue, w
      ensures Valid() && queue == old(queue) + [w]
    {
      if prev == null {
        waiter := w;
      } else {
        prev.next := w;
      }
      w.next := null;
      queue := queue + [w];
    }

    /** The callback of a waiter: it does what its policy says and returns what it
        answers. */
    method Callback(w: Waiter, policy: object -> Policy, answer: object -> int) returns (rv: int)
      requires Valid() && queue != [] && w == queue[0]
      modifies this, queue
      ensures Valid() && State() == Notify(old(State()), this, policy) && rv == answer(w)
      ensures forall x | x in queue :: x in old(queue)
      decreases |queue|, 1
    {
      log, rv := log + [Called(w)], answer(w);
      match policy(w)
      case Claims =>
        var _ := Claim(w, Fifo, w);
      case KeepsWaiting =>
      case CancelsSelf =>
        var _ := CancelWait(w, policy, answer);
    }

    /** `iBSP430resourceCancelWait_ni`: the answer of the new first waiter if it was
        called back, otherwise 0. */
    method CancelWait(w: Waiter?, policy: object -> Policy, answer: object -> int) returns (rc: int)
      requires Valid()
      modifies this, queue
      ensures Valid() && State() == Resource.CancelWait(old(State()), this, Handle(w), policy)
      ensures forall x | x in queue :: x in old(queue)
      ensures rc == if w != null && 1 < |old(queue)| && w == old(queue)[0] then answer(old(queue)[1]) else 0
      decreases |queue|, 0
    {
      ghost var q := queue;
      rc := 0;
      var doCallback := w == waiter;
      if w != null {
        RemoveWaiter(w);
      }
      assert doCallback && w != null ==> queue == q[1..];
      if doCallback && waiter != null {
        rc := Callback(waiter, policy, answer);
      }
    }

    /** `iBSP430resourceRelease_ni`: -1 for anyone but the holder, otherwise the
        answer of the first waiter if the last claim was released, or 0. */
    method Release(self: object?, policy: object -> Policy, answer: object -> int) returns (rv: int)
      requires Valid()
      modifies this, queue
      ensures Valid() && State() == Resource.Release(old(State()), this, Handle(self), policy).0
      ensures var held := Resource.Release(old(State()), this, Handle(self), policy).1;
              rv == if !held then -1
                    else if old(count) <= 1 && old(queue) != [] then answer(old(queue)[0])
                    else 0
    {
      if (self != null && holder != self) || (self == null && holder != this) {
        return -1;
      }
      log := log + [Released(holder)];
      if 0 < count {
        count := count - 1;
      }
      rv := 0;
      if 0 == count {
        holder := null;
        if waiter != null {
          rv := Callback(waiter, policy, answer);
        }
      }
    }
  }
}
