/** The console transmit code over its ring buffer (`src/utility/console.c`)
    and the UART transmit interrupt (`src/periph/eusci.c`). */
module ConsoleDriver {
  import opened Bits
  import opened Console

  /** The octets of a ring from `tail` up to `head`. */
  function RingContents(buffer: seq<Octet>, head: nat, tail: nat): (s: seq<Octet>)
    requires head < |buffer| && tail < |buffer|
    ensures |s| == if tail <= head then head - tail else |buffer| - tail + head
  {
    if tail <= head then buffer[tail..head] else buffer[tail..] + buffer[..head]
  }

  /** The index arithmetic of the ring. */
  lemma {:induction false} NextIndex(i: nat, size: nat)
    requires i < size
    ensures (i + 1) % size == if i + 1 == size then 0 else i + 1
  {
  }

  lemma {:induction false} RingPop(buffer: seq<Octet>, head: nat, tail: nat)
    requires head < |buffer| && tail < |buffer| && head != tail
    ensures RingContents(buffer, head, tail)[0] == buffer[tail]
    ensures RingContents(buffer, head, (tail + 1) % |buffer|) == RingContents(buffer, head, tail)[1..]
  {
    NextIndex(tail, |buffer|);
  }

  lemma {:induction false} RingPush(buffer: seq<Octet>, head: nat, tail: nat, c: Octet)
    requires head < |buffer| && tail < |buffer| && (head + 1) % |buffer| != tail
    ensures RingContents(buffer[head := c], (head + 1) % |buffer|, tail) ==
            RingContents(buffer, head, tail) + [c]
  {
    NextIndex(head, |buffer|);
  }

  lemma {:induction false} AttemptInvariant(t: Tx, goal: Goal)
    requires Invariant(t) && GoalOk(t, goal)
    requires t.sleeper.Awake? || (t.sleeper.woken && t.sleeper.goal == goal)
    ensures Invariant(Attempt(t, goal))
  {
  }

  /** The UART getting ready and its interrupt, as a sleeping producer sees them. */
  lemma {:induction false} OneRound(t: Tx)
    requires Invariant(t) && t.sleeper.Asleep? && 2 <= t.size
    requires Missing(t, t.sleeper.goal) > 0 && !t.sleeper.woken
    ensures var u := if t.shifting then t.(shifting := false, ifg := true) else t;
            var v := TxInterrupt(u);
            && Invariant(u) && u.ie && u.ifg && Invariant(v)
            && v.sleeper == t.sleeper.(woken := Missing(v, t.sleeper.goal) == 0)
            && Missing(v, t.sleeper.goal) == Missing(t, t.sleeper.goal) - 1
            && (Wakes(v.(wake := t.wake)) <==> v.sleeper.woken) && (v.sleeper.woken ==> v.wake == 0)
            && v.queued == t.queued && t.sent <= v.sent
  {
    var u := if t.shifting then t.(shifting := false, ifg := true) else t;
    InterruptInvariant(u);
  }

  /** `TX_BUFFER_AVAILABLE_`. */
  function TxBufferAvailable(size: nat, h: nat, t: nat): int {
    if h >= t then size + t - h - 1 else t - h - 1
  }

  /** `sConsoleTxBuffer` and the UART registers it works with. */
  class ConsoleTx {
    const buffer: array<Octet>
    var head: nat
    var tail: nat
    var wakeAvailable: int
    var ie: bool
    var ifg: bool
    var shifting: bool
    ghost var sleeper: Sleeper
    ghost var queued: seq<Octet>
    ghost var sent: seq<Octet>

    constructor (size: nat)
      requires 1 <= size <= 254
      ensures Valid() && Initial(State()) && buffer.Length == size && fresh(buffer)
    {
      buffer := new Octet[size](_ => 0);
      head, tail, wakeAvailable := 0, 0, 0;
      ie, ifg, shifting := false, true, false;
      sleeper, queued, sent := Awake, [], [];
    }

    ghost predicate Ring()
      reads this, buffer
    {
      head < buffer.Length && tail < buffer.Length
    }

    ghost function State(): Tx
      reads this, buffer
      requires Ring()
    {
      Tx(buffer.Length, RingContents(buffer[..], head, tail), wakeAvailable,
         ie, ifg, shifting, sleeper, queued, sent)
    }

    ghost predicate Valid()
      reads this, buffer
    {
      Ring() && Invariant(State())
    }

    /** Handing the oldest octet, if there is one, to the UART. */
    method Transmit() returns (didTx: bool)
      requires Ring()
      modifies this`tail, this`shifting, this`sent
      ensures Ring() && didTx == (old(State()).contents != [])
      ensures State() == if !didTx then old(State()) else
        old(State()).(contents := old(State()).contents[1..], sent := old(State()).sent + [old(State()).contents[0]],
                      shifting := true)
    {
      didTx := head != tail;
      if didTx {
        RingPop(buffer[..], head, tail);
        NextIndex(tail, buffer.Length);
        sent, shifting := sent + [buffer[tail]], true;
        tail := (tail + 1) % buffer.Length;
      }
    }

    /** `console_tx_isr_ni` inside `euscia_isr`. */
    method TxIsr() returns (exitLpm: bool)
      requires Valid() && ie && ifg
      modifies this
      ensures Valid() && State() == TxInterrupt(old(State()))
      ensures exitLpm <==> Wakes(State().(wake := old(wakeAvailable)))
    {
      hide Invariant, RingContents;
      InterruptInvariant(State());
      ifg, exitLpm := false, false;
      var disable := false;
      var didTx := Transmit();
      if head == tail {
        disable := true;
        if 0 != wakeAvailable {
          wakeAvailable, exitLpm := 0, true;
        }
      } else if 0 < wakeAvailable {
        if TxBufferAvailable(buffer.Length, head, tail) >= wakeAvailable {
          wakeAvailable, exitLpm := 0, true;
        }
      }
      if disable {
        ie := false;
        if !didTx {
          ifg := true;
        }
      }
      if exitLpm && sleeper.Asleep? {
        sleeper := sleeper.(woken := true);
      }
    }

    /** Low-power mode with nothing but the UART to end it. */
    method Sleep()
      requires Valid() && sleeper.Asleep? && !sleeper.woken && 2 <= buffer.Length
      modifies this
      ensures Valid() && sleeper == old(sleeper).(woken := true) && Met(State(), sleeper.goal)
      ensures wakeAvailable == 0 && queued == old(queued) && old(sent) <= sent
    {
      hide Invariant, RingContents, Attempt;
      SleeperIsServed(State());
      var woken := false;
      while !woken
        invariant Valid() && sleeper == old(sleeper).(woken := woken)
        invariant queued == old(queued) && old(sent) <= sent
        invariant woken <==> Missing(State(), sleeper.goal) == 0
        invariant woken ==> wakeAvailable == 0
        decreases Missing(State(), sleeper.goal)
      {
        ghost var t := State();
        SleeperIsServed(t);
        OneRound(t);
        if shifting {
          shifting, ifg := false, true;
        }
        woken := TxIsr();
      }
    }

    /** `console_tx_queue`: returns when the octet is in the buffer. */
    method Queue(c: Octet)
      requires Valid() && sleeper.Awake? && 2 <= buffer.Length
      modifies this, buffer
      ensures Valid() && sleeper.Awake?
      ensures queued == old(queued) + [c] && old(sent) <= sent
      ensures Met(old(State()), Room(c)) ==> sent == old(sent)
    {
      while true
        invariant Valid() && queued == old(queued) && old(sent) <= sent
        invariant sleeper.Awake? || (sleeper.woken && sleeper.goal == Room(c) && Met(State(), Room(c)))
        invariant if sleeper.Awake? then State() == old(State()) else !Met(old(State()), Room(c))
        decreases sleeper.Awake?
      {
        hide Invariant, RingContents;
        NextIndex(head, buffer.Length);
        var nextHead := (head + 1) % buffer.Length;
        if nextHead == tail {
          if 0 == wakeAvailable {
            wakeAvailable := 1;
          }
          sleeper := Asleep(Room(c), false);
          Sleep();
          continue;
        }
        Store(c, nextHead);
        break;
      }
    }

    /** The octet stored, and the transmitter started if the buffer was empty. */
    method Store(c: Octet, nextHead: nat)
      requires Valid() && nextHead == (head + 1) % buffer.Length && nextHead != tail
      requires sleeper.Awake? || (sleeper.woken && sleeper.goal == Room(c))
      modifies this`head, this`ie, this`queued, this`sleeper, buffer
      ensures Valid() && State() == Attempt(old(State()), Room(c)) && sleeper.Awake?
      ensures queued == old(queued) + [c] && sent == old(sent)
    {
      hide Invariant, RingContents;
      ghost var t := State();
      NextIndex(head, buffer.Length);
      RingPush(buffer[..], head, tail, c);
      AttemptInvariant(t, Room(c));
      buffer[head] := c;
      var wasEmpty := head == tail;
      head := nextHead;
      if wasEmpty {
        ie := true;
      }
      queued, sleeper := queued + [c], Awake;
    }

    /** `iBSP430consoleWaitForTxSpace_ni`: -1 if the buffer is too small, 0 if
        there was no need to wait, 1 after waiting. */
    method WaitForTxSpace(want: int) returns (rv: int)
      requires Valid() && sleeper.Awake?
      modifies this
      ensures Valid() && sleeper.Awake? && queued == old(queued) && old(sent) <= sent
      ensures rv == -1 <==> want > buffer.Length - 1
      ensures rv == 0 <==> want <= buffer.Length - 1 && WaitsForNothing(old(State()), want)
      ensures -1 <= rv <= 1
      ensures rv <= 0 ==> State() == old(State())
      ensures rv != -1 ==> WaitsForNothing(State(), want)
    {
      rv := 0;
      if buffer.Length - 1 < want {
        return -1;
      }
      ghost var goal := if want < 0 then Drained(want) else Space(want);
      while true
        invariant Valid() && queued == old(queued) && old(sent) <= sent
        invariant sleeper.Awake? || (sleeper.woken && sleeper.goal == goal && Met(State(), goal))
        invariant rv == (if sleeper.Awake? then 0 else 1) && (sleeper.Awake? ==> State() == old(State()))
        invariant rv == 1 ==> !WaitsForNothing(old(State()), want)
        decreases sleeper.Awake?
      {
        if 0 > want {
          if head == tail {
            break;
          }
        } else if TxBufferAvailable(buffer.Length, head, tail) >= want {
          break;
        }
        if 0 == wakeAvailable {
          wakeAvailable := want;
        }
        rv, sleeper := 1, Asleep(goal, false);
        Sleep();
      }
      sleeper := Awake;
    }
  }
}
