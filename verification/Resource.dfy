/** The resource manager (`src/resource.c`): a recursive mutual-exclusion lock
    with a queue of waiters whose callbacks may claim or cancel at once.
    `Id` identifies claimants and waiters; `me` is the resource's own identity,
    which stands in for a null claimant. */
module Resource {
  import opened Lists
  import opened Options

  datatype Wait = NoWait | Fifo | Lifo

  /** What the callback of a waiter does when it is called. */
  datatype Policy = Claims | KeepsWaiting | CancelsSelf

  datatype Event<Id> =
    | Claimed(who: Id)
    | Released(who: Id)
    | Called(who: Id)

  /** `count` is 16 bits wide. */
  datatype Res<Id> = Res(holder: Option<Id>, count: int, queue: seq<Id>, log: seq<Event<Id>>)

  function Holder<Id>(me: Id, self: Option<Id>): Id {
    if self.None? then me else self.value
  }

  /** `iBSP430resourceClaim_ni`. */
  function Claim<Id(==)>(r: Res<Id>, me: Id, self: Option<Id>, wait: Wait, waiter: Option<Id>): (Res<Id>, int) {
    if r.count == 0 then
      var who := Holder(me, self);
      (Res(Some(who), 1, if waiter.Some? then Remove(r.queue, waiter.value) else r.queue, r.log + [Claimed(who)]), 0)
    else if self == r.holder then
      (r.(count := (r.count + 1) % 0x1_0000, log := if self.Some? then r.log + [Claimed(self.value)] else r.log), 0)
    else if wait.NoWait? || waiter.None? || waiter.value in r.queue then (r, -1)
    else if wait.Lifo? then (r.(queue := [waiter.value] + r.queue), -1)
    else (r.(queue := r.queue + [waiter.value]), -1)
  }

  /** Calling back the first waiter, who may claim for itself, go on waiting, or
      cancel, which calls back the next. */
  function Notify<Id(==)>(r: Res<Id>, me: Id, policy: Id -> Policy): Res<Id>
    decreases |r.queue|, 0
  {
    if r.queue == [] then r
    else
      var w := r.queue[0];
      var called := r.(log := r.log + [Called(w)]);
      match policy(w)
      case Claims => Claim(called, me, Some(w), Fifo, Some(w)).0
      case KeepsWaiting => called
      case CancelsSelf => Notify(called.(queue := r.queue[1..]), me, policy)
  }

  /** `iBSP430resourceCancelWait_ni`. */
  function CancelWait<Id(==)>(r: Res<Id>, me: Id, waiter: Option<Id>, policy: Id -> Policy): Res<Id> {
    var left := if waiter.Some? then r.(queue := Remove(r.queue, waiter.value)) else r;
    if waiter.Some? && r.queue != [] && waiter.value == r.queue[0] then Notify(left, me, policy) else left
  }

  /** `iBSP430resourceRelease_ni`, which fails unless the claimant is the holder. */
  function Release<Id(==)>(r: Res<Id>, me: Id, self: Option<Id>, policy: Id -> Policy): (Res<Id>, bool) {
    var who := Holder(me, self);
    if r.holder != Some(who) then (r, false)
    else
      var n := if r.count > 0 then r.count - 1 else r.count;
      var s := r.(count := n, log := r.log + [Released(who)]);
      (if n == 0 then Notify(s.(holder := None), me, policy) else s, true)
  }

  // ----- steps -----

  datatype Step<!Id> =
    | ClaimStep(self: Option<Id>, wait: Wait, waiter: Option<Id>)
    | ReleaseStep(self: Option<Id>, policy: Id -> Policy)
    | CancelStep(waiter: Option<Id>, policy: Id -> Policy)

  function Apply<Id(==)>(r: Res<Id>, me: Id, step: Step<Id>): Res<Id> {
    match step
    case ClaimStep(self, wait, waiter) => Claim(r, me, self, wait, waiter).0
    case ReleaseStep(self, policy) => Release(r, me, self, policy).0
    case CancelStep(waiter, policy) => CancelWait(r, me, waiter, policy)
  }

  /** The number of leading waiters that cancel themselves when called. */
  function Cancelling<Id>(q: seq<Id>, policy: Id -> Policy): (k: nat)
    ensures k <= |q| && (forall i | 0 <= i < k :: policy(q[i]).CancelsSelf?)
    ensures k < |q| ==> !policy(q[k]).CancelsSelf?
  {
    if q == [] || !policy(q[0]).CancelsSelf? then 0 else 1 + Cancelling(q[1..], policy)
  }

  /** The steps that the 16-bit count cannot record: with 65535 claims outstanding,
      another claim by the holder; or cancelling the first waiter, if the next that
      does not cancel too claims the resource and is itself its holder. */
  predicate Wraps<Id(==)>(r: Res<Id>, step: Step<Id>) {
    && r.count == 0xFFFF
    && match step
       case ClaimStep(self, _, _) => self == r.holder
       case ReleaseStep(_, _) => false
       case CancelStep(waiter, policy) =>
         && r.queue != [] && waiter == Some(r.queue[0])
         && var q := r.queue[1..];
            var k := Cancelling(q, policy);
            k < |q| && policy(q[k]).Claims? && r.holder == Some(q[k])
  }

  predicate Runs<Id(==)>(r: Res<Id>, me: Id, steps: seq<Step<Id>>)
    decreases |steps|
  {
    steps == [] || (!Wraps(r, steps[0]) && Runs(Apply(r, me, steps[0]), me, steps[1..]))
  }

  function After<Id(==)>(r: Res<Id>, me: Id, steps: seq<Step<Id>>): Res<Id>
    decreases |steps|
  {
    if steps == [] then r else After(Apply(r, me, steps[0]), me, steps[1..])
  }
}
