/** Interrupt-driven console output: the queue of `src/utility/console.c`, the
    transmit half of `euscia_isr` in `src/periph/eusci.c`, one thread of
    producers, and the sleep-until-there-is-space handshake between them. */
module Console {

  import opened Bits

  /** What a sleeping producer is waiting for: room for the octet it holds, a
      number of free places, or an empty buffer. */
  datatype Goal =
    | Room(octet: Octet)
    | Space(want: nat)
    | Drained(mark: int)

  datatype Sleeper = Awake | Asleep(goal: Goal, woken: bool)

  /** The console, the transmitter (`shifting`: the UART is sending an octet and
      will raise `ifg` after it), the producer, and all that was ever accepted
      for sending and handed to the UART. */
  datatype Tx = Tx(
    size: nat,
    contents: seq<Octet>,
    wake: int,
    ie: bool,
    ifg: bool,
    shifting: bool,
    sleeper: Sleeper,
    queued: seq<Octet>,
    sent: seq<Octet>)

  /** A ring of `size` places holds one octet less. */
  function Available(t: Tx): int {
    t.size - 1 - |t.contents|
  }

  /** What `wake_available` is set to by a producer going to sleep. */
  function WakeFor(goal: Goal): int {
    match goal
    case Room(_) => 1
    case Space(want) => want
    case Drained(mark) => mark
  }

  predicate Met(t: Tx, goal: Goal) {
    match goal
    case Room(_) => Available(t) > 0
    case Space(want) => Available(t) >= want
    case Drained(_) => t.contents == []
  }

  // ----- the transmit interrupt -----

  /** The part of `console_tx_isr_ni` that decides whether to wake a producer. */
  predicate Wakes(t: Tx) {
    if t.contents == [] then t.wake != 0 else 0 < t.wake <= Available(t)
  }

  /** `euscia_isr` for UCTXIFG, with the console callback alone on the chain. */
  function TxInterrupt(t: Tx): Tx {
    var didTx := t.contents != [];
    var u := if didTx then
               t.(contents := t.contents[1..], sent := t.sent + [t.contents[0]], shifting := true, ifg := false)
             else t.(ifg := false);
    var v := if Wakes(u) then
               u.(wake := 0, sleeper := if u.sleeper.Asleep? then u.sleeper.(woken := true) else u.sleeper)
             else u;
    if u.contents == [] then v.(ie := false, ifg := !didTx) else v
  }

  // ----- the producer -----

  /** One turn of the producer's loop, interrupts disabled: go on if the goal is
      met, else ask to be woken and sleep. */
  function Attempt(t: Tx, goal: Goal): Tx {
    if !Met(t, goal) then
      t.(wake := if t.wake == 0 then WakeFor(goal) else t.wake, sleeper := Asleep(goal, false))
    else if goal.Room? then
      t.(contents := t.contents + [goal.octet], queued := t.queued + [goal.octet],
         ie := t.ie || t.contents == [], sleeper := Awake)
    else t.(sleeper := Awake)
  }

  datatype Step =
    | Put(octet: Octet)
    | WaitForSpace(want: int)
    | TxIsr
    | UartDone
    | OtherWakeup
    | Resume

  predicate Enabled(t: Tx, step: Step) {
    match step
    case Put(_) => t.sleeper.Awake?
    case WaitForSpace(_) => t.sleeper.Awake?
    case TxIsr => t.ie && t.ifg
    case UartDone => t.shifting
    case OtherWakeup => t.sleeper.Asleep?
    case Resume => t.sleeper.Asleep? && t.sleeper.woken
  }

  /** `iBSP430consoleWaitForTxSpace_ni` refuses more than the buffer can hold. */
  function Apply(t: Tx, step: Step): Tx
    requires Enabled(t, step)
  {
    match step
    case Put(octet) => Attempt(t, Room(octet))
    case WaitForSpace(want) =>
      if t.size - 1 < want then t
      else Attempt(t, if want < 0 then Drained(want) else Space(want))
    case TxIsr => TxInterrupt(t)
    case UartDone => t.(shifting := false, ifg := true)
    case OtherWakeup => t.(sleeper := t.sleeper.(woken := true))
    case Resume => Attempt(t, t.sleeper.goal)
  }

  predicate Runs(t: Tx, steps: seq<Step>)
    decreases |steps|
  {
    steps == [] || (Enabled(t, steps[0]) && Runs(Apply(t, steps[0]), steps[1..]))
  }

  function After(t: Tx, steps: seq<Step>): Tx
    requires Runs(t, steps)
    decreases |steps|
  {
    if steps == [] then t else After(Apply(t, steps[0]), steps[1..])
  }

  /** After `iBSP430consoleInitialize`: the UART comes out of reset ready. */
  predicate Initial(t: Tx) {
    t == Tx(t.size, [], 0, false, true, false, Awake, [], []) && 1 <= t.size <= 254
  }

  // ----- what every step keeps -----

  ghost predicate Invariant(t: Tx) {
    && 1 <= t.size <= 254
    && |t.contents| <= t.size - 1
    && t.queued == t.sent + t.contents
    && (t.ie <==> t.contents != [])
    && (t.ifg || t.shifting)
    && (t.wake > 0 ==> Available(t) < t.wake)
    && (t.wake < 0 ==> t.contents != [])
    && (t.wake != 0 ==> t.sleeper.Asleep? && t.wake == WakeFor(t.sleeper.goal))
    && (t.sleeper.Asleep? ==> GoalOk(t, t.sleeper.goal))
    && (t.sleeper.Asleep? && !t.sleeper.woken ==> t.wake != 0)
  }

  ghost predicate GoalOk(t: Tx, goal: Goal) {
    match goal
    case Room(_) => true
    case Space(want) => 0 < want <= t.size - 1
    case Drained(mark) => mark < 0
  }

  lemma {:induction false} StepInvariant(t: Tx, step: Step)
    requires Invariant(t) && Enabled(t, step)
    ensures Invariant(Apply(t, step))
  {
    match step
    case TxIsr => InterruptInvariant(t);
    case _ =>
  }

  lemma {:induction false} InterruptInvariant(t: Tx)
    requires Invariant(t) && t.ie
    ensures Invariant(TxInterrupt(t))
    ensures TxInterrupt(t).contents == t.contents[1..] && TxInterrupt(t).shifting
  {
  }

  lemma {:induction false} RunInvariant(t: Tx, steps: seq<Step>)
    requires Invariant(t) && Runs(t, steps)
    ensures Invariant(After(t, steps))
    decreases |steps|
  {
    if steps != [] {
      StepInvariant(t, steps[0]);
      RunInvariant(Apply(t, steps[0]), steps[1..]);
    }
  }

  /** Output is the input, in order, without loss or repetition, in every run. */
  lemma {:induction false} OutputIsPrefixOfInput(t: Tx, steps: seq<Step>)
    requires Initial(t) && Runs(t, steps)
    ensures var u := After(t, steps); u.queued == u.sent + u.contents && |u.contents| <= u.size - 1
  {
    RunInvariant(t, steps);
  }

  // ----- what each step does -----

  /** The interrupt sends the oldest octet, if there is one; it is off afterwards iff
      nothing is left, and its flag up iff there was nothing to send. */
  lemma {:induction false} InterruptVerdict(t: Tx)
    ensures var u := TxInterrupt(t);
            && (t.contents == [] ==> u.contents == [] && u.sent == t.sent && u.shifting == t.shifting)
            && (t.contents != [] ==>
                  && u.contents == t.contents[1..] && u.sent == t.sent + [t.contents[0]] && u.shifting)
            && u.queued == t.queued && u.size == t.size
            && (u.ifg <==> t.contents == [])
            && u.ie == (t.ie && u.contents != [])
  {
  }

  /** Putting an octet: it is accepted if there is room, and starts the transmitter;
      otherwise the producer sleeps until there is. */
  lemma {:induction false} PutVerdict(t: Tx, octet: Octet)
    requires Invariant(t) && Enabled(t, Put(octet))
    ensures var u := Apply(t, Put(octet));
            if |t.contents| < t.size - 1 then
              u == t.(contents := t.contents + [octet], queued := t.queued + [octet], ie := true)
            else
              u == t.(wake := 1, sleeper := Asleep(Room(octet), false))
  {
  }

  /** The space asked for is there, or the buffer empty if that is asked for. */
  predicate WaitsForNothing(t: Tx, want: int) {
    if want < 0 then t.contents == [] else t.size - 1 - |t.contents| >= want
  }

  /** Waiting for space: no more than the buffer can hold is waited for, and nothing
      if it is there; otherwise the producer sleeps, until just that is there. */
  lemma {:induction false} WaitVerdict(t: Tx, want: int)
    requires Invariant(t) && Enabled(t, WaitForSpace(want))
    ensures var u := Apply(t, WaitForSpace(want));
            if want > t.size - 1 || WaitsForNothing(t, want) then u == t
            else
              && u == t.(wake := want, sleeper := u.sleeper)
              && u.sleeper.Asleep? && !u.sleeper.woken
              && forall v :: Met(v, u.sleeper.goal) <==> WaitsForNothing(v, want)
  {
  }

  /** The other steps: the UART gets ready for another octet; anything may end the
      sleep of a producer, who goes on if his goal is met and sleeps on if not. */
  lemma {:induction false} OtherVerdicts(t: Tx, step: Step)
    requires Invariant(t) && Enabled(t, step) && (step.UartDone? || step.OtherWakeup? || step.Resume?)
    ensures var u := Apply(t, step);
            && (step.UartDone? ==> u == t.(shifting := false, ifg := true))
            && (step.OtherWakeup? ==> u == t.(sleeper := Asleep(t.sleeper.goal, true)))
            && (step.Resume? ==>
                  && (Met(t, t.sleeper.goal) <==> u.sleeper.Awake?)
                  && u.queued == t.queued +
                       (if u.sleeper.Awake? && t.sleeper.goal.Room? then [t.sleeper.goal.octet] else [])
                  && (u.sleeper.Asleep? ==> u.sleeper == Asleep(t.sleeper.goal, false) && u.wake != 0))
  {
  }

  // ----- no lost wakeup -----

  /** How many more transmit interrupts until the goal is met. */
  function Missing(t: Tx, goal: Goal): int {
    match goal
    case Room(_) => 1 - Available(t)
    case Space(want) => want - Available(t)
    case Drained(_) => |t.contents|
  }

  function Interrupts(steps: seq<Step>): nat {
    if steps == [] then 0 else (if steps[0].TxIsr? then 1 else 0) + Interrupts(steps[1..])
  }

  /** A producer that sleeps has not been forgotten: there is something to send
      and the interrupt that sends it is on its way. */
  lemma {:induction false} SleeperIsServed(t: Tx)
    requires Invariant(t) && t.sleeper.Asleep? && !t.sleeper.woken && 2 <= t.size
    ensures !Met(t, t.sleeper.goal) && t.contents != [] && t.ie && (t.ifg || t.shifting)
    ensures 1 <= Missing(t, t.sleeper.goal) <= |t.contents|
  {
  }

  /** A sleeping producer is woken by exactly the transmit interrupt that meets
      its goal, however those interrupts and the UART's readiness interleave:
      after fewer it sleeps on.  That takes at most as many interrupts as there
      are octets in the buffer. */
  lemma {:induction false} WokenWhenGoalMet(t: Tx, steps: seq<Step>)
    requires Invariant(t) && t.sleeper.Asleep? && !t.sleeper.woken && 2 <= t.size
    requires Runs(t, steps) && (forall step | step in steps :: step.TxIsr? || step.UartDone?)
    requires Interrupts(steps) <= Missing(t, t.sleeper.goal)
    ensures var u := After(t, steps);
            && u.sleeper == t.sleeper.(woken := Interrupts(steps) == Missing(t, t.sleeper.goal))
            && (u.sleeper.woken <==> Met(u, t.sleeper.goal))
    ensures Missing(t, t.sleeper.goal) <= |t.contents|
  {
    SleeperIsServed(t);
    CountsDown(t, steps);
    RunInvariant(t, steps);
  }

  lemma {:induction false} CountsDown(t: Tx, steps: seq<Step>)
    requires Invariant(t) && t.sleeper.Asleep? && 2 <= t.size
    requires Runs(t, steps) && (forall step | step in steps :: step.TxIsr? || step.UartDone?)
    requires t.sleeper.woken <==> Missing(t, t.sleeper.goal) == 0
    requires Interrupts(steps) <= Missing(t, t.sleeper.goal)
    ensures var u := After(t, steps);
            && u.sleeper.Asleep? && u.sleeper.goal == t.sleeper.goal
            && Missing(u, t.sleeper.goal) == Missing(t, t.sleeper.goal) - Interrupts(steps)
            && (u.sleeper.woken <==> Missing(u, t.sleeper.goal) == 0)
    decreases |steps|
  {
    if steps != [] {
      StepInvariant(t, steps[0]);
      CountsDown(Apply(t, steps[0]), steps[1..]);
    }
  }

  /** The configuration check admits a buffer of one place, and then the first
      octet put sleeps for ever: nothing is sent in any run. */
  lemma {:induction false} OnePlaceSendsNothing(t: Tx, steps: seq<Step>)
    requires Runs(t, steps) && t.size == 1
    requires t.contents == [] && t.queued == [] && t.sent == [] && !t.ie
    ensures var u := After(t, steps); u.queued == [] && u.sent == [] && !u.ie && u.contents == []
    ensures t.sleeper.Asleep? && t.sleeper.goal.Room? ==> After(t, steps).sleeper.Asleep?
    decreases |steps|
  {
    if steps != [] {
      OnePlaceSendsNothing(Apply(t, steps[0]), steps[1..]);
    }
  }
}
