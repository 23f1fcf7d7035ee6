/** What the resource manager promises. */
module ResourceProofs {
  import opened Lists
  import opened Options
  import opened Resource

  /** The claims of `who` not yet released. */
  function Outstanding<Id(==)>(log: seq<Event<Id>>, who: Id): int {
    if log == [] then 0
    else
      var event := log[|log| - 1];
      Outstanding(log[..|log| - 1], who)
      + (if event == Claimed(who) then 1 else if event == Released(who) then -1 else 0)
  }

  /** Only the holder has outstanding claims, and the count is their number. */
  ghost predicate Exclusive<Id(!new)>(r: Res<Id>) {
    forall who :: Outstanding(r.log, who) == if r.holder == Some(who) then r.count else 0
  }

  ghost predicate Invariant<Id(!new)>(r: Res<Id>) {
    && 0 <= r.count < 0x1_0000
    && (r.count > 0 <==> r.holder.Some?)
    && Distinct(r.queue)
    && Exclusive(r)
  }

  lemma {:induction false} OutstandingStep<Id(!new)>(log: seq<Event<Id>>, event: Event<Id>)
    ensures forall who :: Outstanding(log + [event], who) ==
              Outstanding(log, who) + if event == Claimed(who) then 1 else if event == Released(who) then -1 else 0
  {
  }

  lemma {:induction false} ClaimInvariant<Id(!new)>(r: Res<Id>, me: Id, self: Option<Id>,
                                                    wait: Wait, waiter: Option<Id>)
    requires Invariant(r) && !(r.count == 0xFFFF && self == r.holder)
    ensures Invariant(Claim(r, me, self, wait, waiter).0)
  {
    hide Remove, Outstanding;
    OutstandingStep(r.log, Claimed(Holder(me, self)));
    if waiter.Some? {
      RemoveDistinct(r.queue, waiter.value);
    }
  }

  /** "If the claim succeeds, any appearance of the waiter is removed": true exactly
      for the first claim, or if the waiter was not queued to begin with. */
  lemma {:induction false} SuccessDequeuesIffFirstClaim<Id(!new)>(
      r: Res<Id>, me: Id, self: Option<Id>, wait: Wait, waiter: Id)
    requires Invariant(r) && Claim(r, me, self, wait, Some(waiter)).1 == 0
    ensures waiter !in Claim(r, me, self, wait, Some(waiter)).0.queue <==> r.count == 0 || waiter !in r.queue
  {
    hide Remove, Exclusive;
    RemoveDistinct(r.queue, waiter);
  }

  /** What a claim answers: it succeeds iff the resource is free or held by the same
      claimant, who then holds it with one claim more. */
  lemma {:induction false} ClaimVerdict<Id(!new)>(r: Res<Id>, me: Id, self: Option<Id>, wait: Wait, waiter: Option<Id>)
    requires Invariant(r)
    ensures var (s, rc) := Claim(r, me, self, wait, waiter);
            && (rc == 0 <==> r.count == 0 || self == r.holder)
            && (rc == -1 <==> 0 < r.count && self != r.holder)
            && (rc == 0 ==>
                  && s.holder == Some(if self.None? then me else self.value)
                  && s.count == (r.count + 1) % 0x1_0000
                  && s.log == r.log + [Claimed(s.holder.value)])
            && (rc == -1 ==> s.holder == r.holder && s.count == r.count && s.log == r.log)
  {
  }

  /** What a claim does to the queue: a refused waiter is queued, last for FIFO and
      first for LIFO, unless it is queued already; the first claim takes its waiter
      out, and no other does. */
  lemma {:induction false} ClaimQueues<Id(!new)>(r: Res<Id>, me: Id, self: Option<Id>, wait: Wait, waiter: Option<Id>)
    requires Invariant(r)
    ensures var (s, rc) := Claim(r, me, self, wait, waiter);
            && (rc == -1 ==>
                  s.queue == if wait.NoWait? || waiter.None? || waiter.value in r.queue then r.queue
                             else if wait.Fifo? then r.queue + [waiter.value]
                             else [waiter.value] + r.queue)
            && (rc == 0 && (0 < r.count || waiter.None? || waiter.value !in r.queue) ==> s.queue == r.queue)
            && (rc == 0 && r.count == 0 && waiter.Some? ==>
                  forall a, b | r.queue == a + [waiter.value] + b :: s.queue == a + b)
  {
    hide Remove, Exclusive;
    if waiter.Some? {
      var w := waiter.value;
      if w !in r.queue {
        RemoveAbsent(r.queue, w);
      }
      forall a, b | r.queue == a + [w] + b ensures Remove(r.queue, w) == a + b {
        MiddleOnce(r.queue, a, w, b);
        RemoveMiddle(a, w, b);
      }
    }
  }

  lemma {:induction false} MiddleOnce<Id>(q: seq<Id>, a: seq<Id>, w: Id, b: seq<Id>)
    requires Distinct(q) && q == a + [w] + b
    ensures w !in a && w !in b
  {
    assert q[|a|] == w;
    assert forall i | 0 <= i < |a| :: q[i] == a[i];
    assert forall i | 0 <= i < |b| :: q[|a| + 1 + i] == b[i];
  }

  lemma {:induction false} CalledInvariant<Id(!new)>(r: Res<Id>, who: Id)
    requires Invariant(r)
    ensures Invariant(r.(log := r.log + [Called(who)]))
  {
  }

  lemma {:induction false} NotifyInvariant<Id(!new)>(r: Res<Id>, me: Id, policy: Id -> Policy)
    requires Invariant(r) && !(r.count == 0xFFFF && Notify(r, me, policy).count == 0)
    ensures Invariant(Notify(r, me, policy))
    decreases |r.queue|
  {
    hide Remove;
    if r.queue != [] {
      var w := r.queue[0];
      var called := r.(log := r.log + [Called(w)]);
      CalledInvariant(r, w);
      match policy(w)
      case Claims => ClaimInvariant(called, me, Some(w), Fifo, Some(w));
      case KeepsWaiting =>
      case CancelsSelf => NotifyInvariant(called.(queue := r.queue[1..]), me, policy);
    }
  }

  lemma {:induction false} ReleaseInvariant<Id(!new)>(r: Res<Id>, me: Id, self: Option<Id>, policy: Id -> Policy)
    requires Invariant(r)
    ensures Invariant(Release(r, me, self, policy).0)
  {
    var who := Holder(me, self);
    if r.holder == Some(who) {
      OutstandingStep(r.log, Released(who));
      var s := r.(count := r.count - 1, log := r.log + [Released(who)]);
      if s.count == 0 {
        NotifyInvariant(s.(holder := None), me, policy);
      }
    }
  }

  lemma {:induction false} CancelInvariant<Id(!new)>(r: Res<Id>, me: Id, waiter: Option<Id>, policy: Id -> Policy)
    requires Invariant(r) && !Wraps(r, CancelStep(waiter, policy))
    ensures Invariant(CancelWait(r, me, waiter, policy))
  {
    WrapsIff(r, me, CancelStep(waiter, policy));
    if waiter.Some? {
      RemoveDistinct(r.queue, waiter.value);
      var left := r.(queue := Remove(r.queue, waiter.value));
      if r.queue != [] && waiter.value == r.queue[0] {
        NotifyInvariant(left, me, policy);
      }
    }
  }

  /** A step keeps mutual exclusion and an exact count exactly if it is not one of
      those that wrap the 16-bit count. */
  lemma {:induction false} StepInvariantIffNoWrap<Id(!new)>(r: Res<Id>, me: Id, step: Step<Id>)
    requires Invariant(r)
    ensures Invariant(Apply(r, me, step)) <==> !Wraps(r, step)
  {
    hide Exclusive, Remove;
    WrapsIff(r, me, step);
    if Wraps(r, step) {
      WrapKeepsHolder(r, me, step);
    } else {
      match step
      case ClaimStep(self, wait, waiter) => ClaimInvariant(r, me, self, wait, waiter);
      case ReleaseStep(self, policy) => ReleaseInvariant(r, me, self, policy);
      case CancelStep(waiter, policy) => CancelInvariant(r, me, waiter, policy);
    }
  }

  /** Notification of a resource that is held visits the same waiters as that of a
      free one; the first that does not cancel stays queued, and claims the resource
      only if it is itself its holder. */
  lemma {:induction false} NotifyHeld<Id(!new)>(r: Res<Id>, me: Id, policy: Id -> Policy)
    requires r.count > 0
    ensures var q, k, s := r.queue, Cancelling(r.queue, policy), Notify(r, me, policy);
            var again := k < |q| && policy(q[k]).Claims? && r.holder == Some(q[k]);
            && s.holder == r.holder && s.queue == q[k..]
            && s.count == (if again then (r.count + 1) % 0x1_0000 else r.count)
            && s.log == r.log + Calls(q[..if k < |q| then k + 1 else k]) + (if again then [Claimed(q[k])] else [])
    decreases |r.queue|
  {
    hide Calls, Remove;
    var q, k := r.queue, Cancelling(r.queue, policy);
    CallsUpTo(q, if k < |q| then k + 1 else k);
    if q == [] {
      assert r.log + [] + [] == r.log;
    } else {
      var called := r.(log := r.log + [Called(q[0])]);
      if policy(q[0]).CancelsSelf? {
        var n := if k < |q| then k else k - 1;
        NotifyHeld(called.(queue := q[1..]), me, policy);
        assert r.log + [Called(q[0])] + Calls(q[1..][..n]) == r.log + ([Called(q[0])] + Calls(q[1..][..n]));
      } else {
        assert r.log + ([Called(q[0])] + []) == called.log;
        assert called.log + [] == called.log;
      }
    }
  }

  lemma {:induction false} CallsUpTo<Id>(q: seq<Id>, n: nat)
    requires n <= |q|
    ensures Calls<Id>([]) == [] && q[..0] == []
    ensures n > 0 ==> Calls(q[..n]) == [Called(q[0])] + Calls(q[1..][..n - 1]) && q[1..][..0] == []
  {
    if n > 0 {
      assert q[..n][1..] == q[1..][..n - 1];
    }
  }

  /** `Wraps` names exactly the steps that take a full count to 0. */
  lemma {:induction false} WrapsIff<Id(!new)>(r: Res<Id>, me: Id, step: Step<Id>)
    requires Invariant(r)
    ensures Wraps(r, step) <==> r.count == 0xFFFF && Apply(r, me, step).count == 0
  {
    hide Exclusive;
    if step.CancelStep? && step.waiter.Some? && r.count > 0 {
      var left := r.(queue := Remove(r.queue, step.waiter.value));
      NotifyHeld(left, me, step.policy);
    }
  }

  lemma {:induction false} WrapKeepsHolder<Id(!new)>(r: Res<Id>, me: Id, step: Step<Id>)
    requires Invariant(r) && Wraps(r, step)
    ensures Apply(r, me, step).holder == r.holder && r.holder.Some?
  {
    if step.CancelStep? && step.waiter.Some? {
      NotifyHeld(r.(queue := Remove(r.queue, step.waiter.value)), me, step.policy);
    }
  }

  lemma {:induction false} RunInvariant<Id(!new)>(r: Res<Id>, me: Id, steps: seq<Step<Id>>)
    requires Invariant(r) && Runs(r, me, steps)
    ensures Invariant(After(r, me, steps))
    decreases |steps|
  {
    if steps != [] {
      StepInvariantIffNoWrap(r, me, steps[0]);
      RunInvariant(Apply(r, me, steps[0]), me, steps[1..]);
    }
  }

  /** In every reachable state at most one party has claims outstanding, the count
      is their number, and no waiter is queued twice. */
  lemma {:induction false} MutualExclusion<Id(!new)>(me: Id, steps: seq<Step<Id>>, a: Id, b: Id)
    requires Runs(Res(None, 0, [], []), me, steps)
    ensures var r := After(Res(None, 0, [], []), me, steps);
            && (Outstanding(r.log, a) > 0 && Outstanding(r.log, b) > 0 ==> a == b)
            && (Outstanding(r.log, a) > 0 <==> r.holder == Some(a))
            && (Outstanding(r.log, a) > 0 ==> r.count == Outstanding(r.log, a))
            && Distinct(r.queue)
  {
    RunInvariant(Res(None, 0, [], []), me, steps);
  }

  // ----- reentrant release -----

  function Calls<Id>(q: seq<Id>): seq<Event<Id>> {
    if q == [] then [] else [Called(q[0])] + Calls(q[1..])
  }

  /** When the resource is free, notification calls, in queue order and once each,
      the leading waiters that cancel and the first that does not; those leave the
      queue, and that one leaves it too if it claims, as the new holder. */
  lemma {:induction false} NotifyVisits<Id(!new)>(r: Res<Id>, me: Id, policy: Id -> Policy)
    requires r.count == 0 && r.holder == None
    ensures var q, k, s := r.queue, Cancelling(r.queue, policy), Notify(r, me, policy);
            if k == |q| then
              s == Res(None, 0, [], r.log + Calls(q))
            else if policy(q[k]).Claims? then
              s == Res(Some(q[k]), 1, q[k + 1..], r.log + Calls(q[..k + 1]) + [Claimed(q[k])])
            else
              s == Res(None, 0, q[k..], r.log + Calls(q[..k + 1]))
    decreases |r.queue|
  {
    var q, k := r.queue, Cancelling(r.queue, policy);
    if q != [] {
      var called := r.(log := r.log + [Called(q[0])]);
      if policy(q[0]).CancelsSelf? {
        NotifyVisits(called.(queue := q[1..]), me, policy);
        CallsFirst(q);
        if k < |q| {
          CallsFirst(q[..k + 1]);
          assert q[..k + 1][1..] == q[1..][..k];
        }
        assert forall c: seq<Event<Id>> :: called.log + c == r.log + ([Called(q[0])] + c);
      } else {
        assert q[..1] == [q[0]] && Calls(q[..1]) == [Called(q[0])];
      }
    }
  }

  lemma {:induction false} CallsFirst<Id>(q: seq<Id>)
    requires q != []
    ensures Calls(q) == [Called(q[0])] + Calls(q[1..])
  {
  }

  /** Releasing the last claim hands the resource on as `NotifyVisits` says;
      releasing an earlier one, or by another than the holder, calls nobody. */
  lemma {:induction false} ReleaseHandsOn<Id(!new)>(r: Res<Id>, me: Id, self: Option<Id>, policy: Id -> Policy)
    requires Invariant(r)
    ensures var (s, ok) := Release(r, me, self, policy);
            var q, k := r.queue, Cancelling(r.queue, policy);
            var log := r.log + [Released(Holder(me, self))];
            if r.holder != Some(Holder(me, self)) then s == r && !ok
            else if r.count > 1 then ok && s == r.(count := r.count - 1, log := log)
            else
              && ok
              && s.holder == (if k < |q| && policy(q[k]).Claims? then Some(q[k]) else None)
              && s.count == (if s.holder.Some? then 1 else 0)
              && s.queue == (if s.holder.Some? then q[k + 1..] else q[k..])
              && s.log == log + Calls(q[..if k < |q| then k + 1 else k])
                          + (if s.holder.Some? then [Claimed(q[k])] else [])
  {
    if r.holder == Some(Holder(me, self)) && r.count == 1 {
      var s := r.(count := 0, holder := None, log := r.log + [Released(Holder(me, self))]);
      NotifyVisits(s, me, policy);
      assert r.queue[..|r.queue|] == r.queue;
    }
  }

  // ----- cancelling a wait -----

  /** A waiter that is not the first leaves the queue, the others in their order, and
      nobody is called. */
  lemma {:induction false} CancelBehind<Id(!new)>(r: Res<Id>, me: Id, a: seq<Id>, w: Id, b: seq<Id>,
                                                  policy: Id -> Policy)
    requires Invariant(r) && r.queue == a + [w] + b && a != []
    ensures CancelWait(r, me, Some(w), policy) == r.(queue := a + b)
  {
    hide Remove, Exclusive;
    MiddleOnce(r.queue, a, w, b);
    RemoveMiddle(a, w, b);
    assert r.queue[0] == a[0];
  }

  /** If it is the first, the next one is called. */
  lemma {:induction false} CancelFirst<Id(!new)>(r: Res<Id>, me: Id, w: Id, b: seq<Id>, policy: Id -> Policy)
    requires Invariant(r) && r.queue == [w] + b
    ensures CancelWait(r, me, Some(w), policy) == Notify(r.(queue := b), me, policy)
  {
    hide Remove, Exclusive;
    RemoveMiddle([], w, b);
    assert [] + [w] + b == r.queue && [] + b == b;
  }

  /** One that is not queued changes nothing. */
  lemma {:induction false} CancelAbsent<Id(!new)>(r: Res<Id>, me: Id, waiter: Option<Id>, policy: Id -> Policy)
    requires Invariant(r) && (waiter.Some? ==> waiter.value !in r.queue)
    ensures CancelWait(r, me, waiter, policy) == r
  {
    hide Remove, Exclusive;
    if waiter.Some? {
      RemoveAbsent(r.queue, waiter.value);
    }
  }

  // ----- staying in the queue -----

  /** Notification takes waiter `w` off the queue: it cancels itself when called, or
      claims the free resource. */
  ghost predicate Served<Id>(q: seq<Id>, policy: Id -> Policy, free: bool, w: Id) {
    var k := Cancelling(q, policy);
    w in q[..k] || (free && k < |q| && q[k] == w && policy(w).Claims?)
  }

  /** The steps that take waiter `w` off the queue: a first claim that names it, its
      cancellation, or a notification that serves it. */
  ghost predicate Leaves<Id>(r: Res<Id>, me: Id, step: Step<Id>, w: Id) {
    match step
    case ClaimStep(_, _, waiter) => r.count == 0 && waiter == Some(w)
    case ReleaseStep(self, policy) =>
      r.holder == Some(if self.None? then me else self.value) && r.count == 1 && Served(r.queue, policy, true, w)
    case CancelStep(waiter, policy) =>
      waiter == Some(w) ||
      (r.queue != [] && waiter == Some(r.queue[0]) && Served(r.queue[1..], policy, r.count == 0, w))
  }

  lemma {:induction false} NotifyServes<Id(!new)>(r: Res<Id>, me: Id, policy: Id -> Policy, w: Id)
    requires Distinct(r.queue) && (r.count == 0 <==> r.holder == None) && 0 <= r.count && w in r.queue
    ensures w in Notify(r, me, policy).queue <==> !Served(r.queue, policy, r.count == 0, w)
  {
    var q, k := r.queue, Cancelling(r.queue, policy);
    SplitsApart(q, k, w);
    if k < |q| {
      SplitsApart(q, k + 1, w);
      FirstOfRest(q, k, w);
    }
    if r.count == 0 {
      NotifyVisits(r, me, policy);
    } else {
      NotifyHeld(r, me, policy);
    }
    hide *;
  }

  lemma {:induction false} SplitsApart<Id>(q: seq<Id>, k: nat, w: Id)
    requires Distinct(q) && k <= |q| && w in q
    ensures w in q[..k] <==> w !in q[k..]
  {
  }

  lemma {:induction false} FirstOfRest<Id>(q: seq<Id>, k: nat, w: Id)
    requires k < |q|
    ensures w in q[..k + 1] <==> w in q[..k] || w == q[k]
  {
    assert q[..k + 1] == q[..k] + [q[k]];
  }

  /** A queued waiter is off the queue after a step exactly if that is one of those. */
  lemma {:induction false} StaysQueuedIff<Id(!new)>(r: Res<Id>, me: Id, step: Step<Id>, w: Id)
    requires Invariant(r) && w in r.queue
    ensures w in Apply(r, me, step).queue <==> !Leaves(r, me, step, w)
  {
    match step
    case ClaimStep(self, wait, waiter) =>
      hide Exclusive, Remove;
      if waiter.Some? {
        RemoveDistinct(r.queue, waiter.value);
      }
    case ReleaseStep(self, policy) =>
      hide Exclusive, Served, Notify, Distinct;
      if r.count == 1 {
        NotifyServes(r.(count := 0, holder := None, log := r.log + [Released(Holder(me, self))]), me, policy, w);
      }
    case CancelStep(waiter, policy) =>
      hide Exclusive, Served, Notify, Remove;
      if waiter.Some? {
        RemoveDistinct(r.queue, waiter.value);
        if waiter.value == r.queue[0] {
          assert r.queue == [waiter.value] + r.queue[1..];
          CancelFirst(r, me, waiter.value, r.queue[1..], policy);
          if waiter.value != w {
            NotifyServes(r.(queue := r.queue[1..]), me, policy, w);
          } else {
            NotifyKeepsOut(r.(queue := r.queue[1..]), me, policy, w);
          }
        }
      }
  }

  lemma {:induction false} NotifyKeepsOut<Id(!new)>(r: Res<Id>, me: Id, policy: Id -> Policy, w: Id)
    requires (r.count == 0 <==> r.holder == None) && 0 <= r.count && w !in r.queue
    ensures w !in Notify(r, me, policy).queue
  {
    if r.count == 0 {
      NotifyVisits(r, me, policy);
    } else {
      NotifyHeld(r, me, policy);
    }
  }

  ghost predicate NeverLeaves<Id>(r: Res<Id>, me: Id, steps: seq<Step<Id>>, w: Id)
    decreases |steps|
  {
    steps == [] || (!Leaves(r, me, steps[0], w) && NeverLeaves(Apply(r, me, steps[0]), me, steps[1..], w))
  }

  /** Over any run, a refused waiter is in the queue from its claim on, as long as no
      step takes it off. */
  lemma {:induction false} RefusedStaysQueued<Id(!new)>(
      r: Res<Id>, me: Id, self: Option<Id>, wait: Wait, w: Id, steps: seq<Step<Id>>)
    requires Invariant(r) && !wait.NoWait? && Claim(r, me, self, wait, Some(w)).1 == -1
    requires var s := Claim(r, me, self, wait, Some(w)).0; Runs(s, me, steps) && NeverLeaves(s, me, steps, w)
    ensures w in After(Claim(r, me, self, wait, Some(w)).0, me, steps).queue
  {
    ClaimVerdict(r, me, self, wait, Some(w));
    ClaimQueues(r, me, self, wait, Some(w));
    ClaimInvariant(r, me, self, wait, Some(w));
    var s := Claim(r, me, self, wait, Some(w)).0;
    assert w in s.queue;
    hide *;
    StaysQueued(s, me, steps, w);
  }

  lemma {:induction false} StaysQueued<Id(!new)>(r: Res<Id>, me: Id, steps: seq<Step<Id>>, w: Id)
    requires Invariant(r) && w in r.queue && Runs(r, me, steps) && NeverLeaves(r, me, steps, w)
    ensures w in After(r, me, steps).queue
    decreases |steps|
  {
    hide Invariant, Leaves, Apply, Wraps;
    if steps != [] {
      StepInvariantIffNoWrap(r, me, steps[0]);
      StaysQueuedIff(r, me, steps[0], w);
      StaysQueued(Apply(r, me, steps[0]), me, steps[1..], w);
    }
  }
}
