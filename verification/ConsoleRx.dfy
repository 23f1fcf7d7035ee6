/** Console input (`src/utility/console.c`): the receive interrupt steps its
    ring indices modulo the buffer size, but reading steps them with a mask. */
module ConsoleRx {
  import opened Arithmetic
  import opened Bits
  import opened Console
  import opened ConsoleDriver

  function KeepLast(s: seq<Octet>, n: nat): seq<Octet> {
    if |s| <= n then s else s[|s| - n..]
  }

  // ----- the ring as a value -----

  datatype Ring = Ring(buffer: seq<Octet>, head: nat, tail: nat)

  predicate InBounds(r: Ring) {
    r.head < |r.buffer| && r.tail < |r.buffer|
  }

  function Contents(r: Ring): seq<Octet>
    requires InBounds(r)
  {
    RingContents(r.buffer, r.head, r.tail)
  }

  function Empty(size: nat): Ring {
    Ring(seq(size, _ => 0), 0, 0)
  }

  /** `console_rx_isr_ni`. */
  function Receive(r: Ring, c: Octet): (s: Ring)
    requires InBounds(r)
    ensures InBounds(s) && |s.buffer| == |r.buffer|
  {
    var n, next := |r.buffer|, (r.head + 1) % |r.buffer|;
    Ring(r.buffer[r.head := c], next, if next == r.tail then (r.tail + 1) % n else r.tail)
  }

  /** `cgetchar`: -1 if there is nothing. */
  function Read(r: Ring): (s: (Ring, int))
    requires InBounds(r)
    ensures InBounds(s.0) && s.0.buffer == r.buffer
  {
    if r.head == r.tail then (r, -1)
    else (r.(tail := And(r.tail + 1, |r.buffer| - 1)), r.buffer[r.tail] as int)
  }

  /** `sConsoleRxBuffer`. */
  class RxBuffer {
    const buffer: array<Octet>
    var head: nat
    var tail: nat

    constructor (size: nat)
      requires 1 <= size <= 254
      ensures Valid() && State() == Empty(size) && fresh(buffer)
    {
      buffer := new Octet[size](_ => 0);
      head, tail := 0, 0;
      new;
      assert buffer[..] == seq(size, _ => 0);
    }

    ghost predicate Valid()
      reads this, buffer
    {
      InBounds(State())
    }

    ghost function State(): Ring
      reads this, buffer
    {
      Ring(buffer[..], head, tail)
    }

    /** `console_rx_isr_ni`: a full buffer loses its oldest octet. */
    method RxIsr(rxByte: Octet)
      requires Valid()
      modifies this, buffer
      ensures Valid() && State() == Receive(old(State()), rxByte)
      ensures Contents(State()) == KeepLast(Contents(old(State())) + [rxByte], buffer.Length - 1)
    {
      hide RingContents, Contents, KeepLast;
      ReceiveKeepsLast(State(), rxByte);
      buffer[head] := rxByte;
      var next := (head + 1) % buffer.Length;
      if next == tail {
        tail := (tail + 1) % buffer.Length;
      }
      head := next;
    }

    /** `cgetchar`: for any size, the oldest octet, or -1; what is left is the rest
        if the size is a power of two. */
    method GetChar() returns (rv: int)
      requires Valid()
      modifies this`tail
      ensures Valid() && (State(), rv) == Read(old(State()))
      ensures rv == if Contents(old(State())) == [] then -1 else Contents(old(State()))[0]
      ensures PowerOfTwo(buffer.Length) ==> Contents(State()) == Rest(Contents(old(State())))
    {
      hide RingContents, Contents, Rest;
      ReadTakesOldest(State());
      rv := -1;
      if head != tail {
        rv := buffer[tail];
        tail := And(tail + 1, buffer.Length - 1);
      }
    }
  }

  /** What is left of a queue when its first element is taken. */
  function Rest(q: seq<Octet>): seq<Octet> {
    if q == [] then q else q[1..]
  }

  /** A ring is full when the place after its head is the tail. */
  lemma {:induction false} RingFull(r: Ring)
    requires InBounds(r)
    ensures var n, next := |r.buffer|, (r.head + 1) % |r.buffer|;
            && 0 <= next < n
            && (if next == r.tail then |Contents(r)| == n - 1 else |Contents(r)| <= n - 2)
            && (next == r.head ==> n == 1)
  {
    NextIndex(r.head, |r.buffer|);
  }

  lemma {:induction false} ReceiveKeepsLast(r: Ring, c: Octet)
    requires InBounds(r)
    ensures Contents(Receive(r, c)) == KeepLast(Contents(r) + [c], |r.buffer| - 1)
  {
    var next, q := (r.head + 1) % |r.buffer|, Contents(r);
    RingFull(r);
    if next != r.tail {
      RingPush(r.buffer, r.head, r.tail, c);
      hide RingContents;
    } else if next != r.head {
      RingOverrun(r.buffer, r.head, r.tail, c);
      hide RingContents;
      assert (q + [c])[1..] == q[1..] + [c];
    } else {
      NextIndex(r.tail, |r.buffer|);
      assert Contents(Receive(r, c)) == [];
    }
  }

  lemma {:induction false} ReadTakesOldest(r: Ring)
    requires InBounds(r)
    ensures Read(r).1 == if Contents(r) == [] then -1 else Contents(r)[0]
    ensures PowerOfTwo(|r.buffer|) ==> Contents(Read(r).0) == Rest(Contents(r))
  {
    hide RingContents;
    if r.head != r.tail {
      RingPop(r.buffer, r.head, r.tail);
      if PowerOfTwo(|r.buffer|) {
        MaskIsModulo(r.tail + 1, |r.buffer|);
      }
    }
  }

  lemma {:induction false} RingOverrun(buffer: seq<Octet>, head: nat, tail: nat, c: Octet)
    requires head < |buffer| && tail < |buffer| && 2 <= |buffer|
    requires (head + 1) % |buffer| == tail
    ensures RingContents(buffer[head := c], tail, (tail + 1) % |buffer|) ==
            RingContents(buffer, head, tail)[1..] + [c]
  {
    NextIndex(head, |buffer|);
    NextIndex(tail, |buffer|);
  }

  /** Masking with one less than a power of two is the remainder. */
  lemma {:induction false} MaskIsModulo(x: nat, n: nat)
    requires PowerOfTwo(n)
    ensures And(x, n - 1) == x % n
    decreases n
  {
    if x == 0 || n == 1 {
      DivModUnique(x, x, 0, 1);
      DivModUnique(0, 0, 0, n);
    } else if n > 1 && x > 0 {
      var m := n / 2;
      assert n == 2 * m && (n - 1) / 2 == m - 1 && (n - 1) % 2 == 1;
      MaskIsModulo(x / 2, m);
      DoubleModulo(x, m);
      assert And(x, n - 1) == 2 * And(x / 2, m - 1) + x % 2;
    }
  }

  lemma {:induction false} DoubleModulo(x: nat, m: nat)
    requires m > 0
    ensures x % (2 * m) == 2 * (x / 2 % m) + x % 2
  {
    var q, r := x / 2 / m, x / 2 % m;
    assert x / 2 == q * m + r;
    assert x == q * (2 * m) + (2 * r + x % 2);
    DivModUnique(x, q, 2 * r + x % 2, 2 * m);
  }

  // ----- over whole runs -----

  datatype Access = Received(octet: Octet) | GetChar

  /** What reading returns in a run. */
  function Output(r: Ring, run: seq<Access>): seq<int>
    requires InBounds(r)
    decreases |run|
  {
    if run == [] then []
    else match run[0]
      case Received(c) => Output(Receive(r, c), run[1..])
      case GetChar => [Read(r).1] + Output(Read(r).0, run[1..])
  }

  /** What reading would return from a queue of at most `places` octets, which loses
      the oldest when there are more. */
  function QueueOutput(q: seq<Octet>, places: nat, run: seq<Access>): seq<int>
    decreases |run|
  {
    if run == [] then []
    else match run[0]
      case Received(c) => QueueOutput(KeepLast(q + [c], places), places, run[1..])
      case GetChar => [if q == [] then -1 else q[0]] + QueueOutput(Rest(q), places, run[1..])
  }

  lemma {:induction false} OutputOfQueue(r: Ring, run: seq<Access>)
    requires InBounds(r) && PowerOfTwo(|r.buffer|)
    ensures Output(r, run) == QueueOutput(Contents(r), |r.buffer| - 1, run)
    decreases |run|
  {
    hide Contents, KeepLast, Rest, Receive, Read;
    if run != [] {
      match run[0]
      case Received(c) =>
        ReceiveKeepsLast(r, c);
        OutputOfQueue(Receive(r, c), run[1..]);
      case GetChar =>
        ReadTakesOldest(r);
        OutputOfQueue(Read(r).0, run[1..]);
    }
  }

  /** The lowest bit of `n` that is set. */
  function LowBit(n: nat): (p: nat)
    requires 0 < n
    ensures 0 < p <= n
    ensures p == n ==> PowerOfTwo(n)
  {
    if n % 2 == 1 then 1 else 2 * LowBit(n / 2)
  }

  /** The mask for a ring of `n` places keeps what is below that bit, and loses it. */
  lemma {:induction false} MaskLosesLowBit(n: nat, t: nat)
    requires 0 < n && t <= LowBit(n)
    ensures And(t, n - 1) == if t < LowBit(n) then t else 0
    decreases n
  {
    if n % 2 == 0 {
      assert n == 2 * (n / 2) && (n - 1) / 2 == n / 2 - 1;
      MaskLosesLowBit(n / 2, t / 2);
    }
  }

  /** Octets received and read one at a time. */
  function OneByOne(octets: seq<Octet>): seq<Access> {
    if octets == [] then [] else [Received(octets[0]), GetChar] + OneByOne(octets[1..])
  }

  function AfterRun(r: Ring, run: seq<Access>): (s: Ring)
    requires InBounds(r)
    ensures InBounds(s) && |s.buffer| == |r.buffer|
    decreases |run|
  {
    if run == [] then r
    else match run[0]
      case Received(c) => AfterRun(Receive(r, c), run[1..])
      case GetChar => AfterRun(Read(r).0, run[1..])
  }

  /** One octet received and read, below the lowest bit of the size. */
  lemma {:induction false} OneRound(r: Ring, c: Octet)
    requires InBounds(r) && r.head == r.tail < LowBit(|r.buffer|) < |r.buffer|
    ensures var s := Read(Receive(r, c));
            && s.1 == c && s.0.buffer == r.buffer[r.head := c] && s.0.head == r.head + 1
            && s.0.tail == if r.head + 1 < LowBit(|r.buffer|) then r.head + 1 else 0
  {
    NextIndex(r.head, |r.buffer|);
    MaskLosesLowBit(|r.buffer|, r.head + 1);
  }

  lemma {:induction false} RoundFirst(r: Ring, octets: seq<Octet>)
    requires InBounds(r) && octets != []
    ensures var s, rest := Read(Receive(r, octets[0])), octets[1..];
            && AfterRun(r, OneByOne(octets)) == AfterRun(s.0, OneByOne(rest))
            && Output(r, OneByOne(octets) + [GetChar]) == [s.1] + Output(s.0, OneByOne(rest) + [GetChar])
            && Numbers(octets) == [octets[0]] + Numbers(rest)
  {
    hide Receive, Read;
    var run, rest := OneByOne(octets), OneByOne(octets[1..]);
    assert run[1..] == [GetChar] + rest && run[1..][1..] == rest;
    var more := run + [GetChar];
    assert more[1..] == [GetChar] + (rest + [GetChar]) && more[1..][1..] == rest + [GetChar];
  }

  lemma {:induction false} LastRead(s: Ring)
    requires InBounds(s) && s.head != s.tail
    ensures AfterRun(s, OneByOne([])) == s
    ensures Output(s, OneByOne([]) + [GetChar]) == [s.buffer[s.tail]] && Numbers([]) == []
  {
    assert OneByOne([]) + [GetChar] == [GetChar] && [GetChar][1..] == [];
  }

  /** As many octets as the lowest bit of the size, received and read one at a time
      from `r` on, leave the tail at 0. */
  lemma {:induction false} Rounds(r: Ring, octets: seq<Octet>)
    requires InBounds(r) && LowBit(|r.buffer|) < |r.buffer| && octets != []
    requires r.head == r.tail && r.head + |octets| == LowBit(|r.buffer|)
    ensures var s := AfterRun(r, OneByOne(octets));
            && s.head == LowBit(|r.buffer|) && s.tail == 0
            && s.buffer[..s.head] == r.buffer[..r.head] + octets
            && Output(r, OneByOne(octets) + [GetChar]) == Numbers(octets) + [s.buffer[0]]
    decreases |octets|
  {
    hide Receive, Read, LowBit, OneByOne, AfterRun, Output, Numbers;
    var c, rest := octets[0], octets[1..];
    var s := Read(Receive(r, c)).0;
    OneRound(r, c);
    RoundFirst(r, octets);
    assert s.buffer[..s.head] == r.buffer[..r.head] + [c];
    if rest == [] {
      LastRead(s);
      assert octets == [c];
    } else {
      Rounds(s, rest);
      var t := AfterRun(r, OneByOne(octets));
      assert [c] + rest == octets;
      assert r.buffer[..r.head] + [c] + rest == r.buffer[..r.head] + ([c] + rest);
      assert [c as int] + (Numbers(rest) + [t.buffer[0]]) == [c as int] + Numbers(rest) + [t.buffer[0]];
    }
  }

  function Numbers(octets: seq<Octet>): (n: seq<int>)
    ensures |n| == |octets| && forall i | 0 <= i < |n| :: n[i] == octets[i]
  {
    if octets == [] then [] else [octets[0]] + Numbers(octets[1..])
  }

  /** From an empty buffer whose size is no power of two: once so many octets have
      been received, each read at once, all of them are there to be read again. */
  lemma {:induction false} ReadAgain(size: nat, octets: seq<Octet>)
    requires 0 < size && !PowerOfTwo(size) && |octets| == LowBit(size)
    ensures Contents(AfterRun(Empty(size), OneByOne(octets))) == octets
    ensures Output(Empty(size), OneByOne(octets) + [GetChar]) == Numbers(octets) + [octets[0]]
  {
    hide OneByOne, AfterRun, Output;
    Rounds(Empty(size), octets);
    var s := AfterRun(Empty(size), OneByOne(octets));
    assert Empty(size).buffer[..0] + octets == octets;
    assert s.buffer[0] == s.buffer[..s.head][0];
  }

  /** A queue has nothing more to give then. */
  lemma {:induction false} QueueRounds(places: nat, octets: seq<Octet>)
    requires 0 < places
    ensures QueueOutput([], places, OneByOne(octets) + [GetChar]) == Numbers(octets) + [-1]
    decreases |octets|
  {
    if octets == [] {
      assert OneByOne(octets) + [GetChar] == [GetChar] && [GetChar][1..] == [];
    } else {
      QueueRound(places, octets);
      QueueRounds(places, octets[1..]);
      hide QueueOutput, OneByOne;
    }
  }

  lemma {:induction false} QueueRound(places: nat, octets: seq<Octet>)
    requires 0 < places && octets != []
    ensures QueueOutput([], places, OneByOne(octets) + [GetChar])
            == [octets[0] as int] + QueueOutput([], places, OneByOne(octets[1..]) + [GetChar])
  {
    var run, rest := OneByOne(octets) + [GetChar], OneByOne(octets[1..]) + [GetChar];
    assert run == [Received(octets[0])] + ([GetChar] + rest);
    assert [] + [octets[0]] == [octets[0]] && Rest([octets[0]]) == [];
    hide OneByOne;
    QueueReceives([], places, octets[0], [GetChar] + rest);
    QueueGives([octets[0]], places, rest);
  }

  lemma {:induction false} QueueReceives(q: seq<Octet>, places: nat, c: Octet, rest: seq<Access>)
    ensures QueueOutput(q, places, [Received(c)] + rest) == QueueOutput(KeepLast(q + [c], places), places, rest)
  {
    hide KeepLast;
    assert ([Received(c)] + rest)[1..] == rest;
  }

  lemma {:induction false} QueueGives(q: seq<Octet>, places: nat, rest: seq<Access>)
    requires q != []
    ensures QueueOutput(q, places, [GetChar] + rest) == [q[0] as int] + QueueOutput(Rest(q), places, rest)
  {
    hide Rest;
    assert ([GetChar] + rest)[1..] == rest;
  }

  /** Over all runs from an empty buffer, reading returns what a queue would. */
  ghost predicate InOrder(size: nat)
    requires 0 < size
  {
    forall run :: Output(Empty(size), run) == QueueOutput([], size - 1, run)
  }

  /** Only "most efficient" if the size is a power of two, says the header; in
      fact input is read in order exactly for those sizes. */
  lemma {:induction false} InOrderExactlyForPowersOfTwo(size: nat)
    requires 0 < size
    ensures InOrder(size) <==> PowerOfTwo(size)
  {
    hide Output, QueueOutput;
    if PowerOfTwo(size) {
      assert Contents(Empty(size)) == [];
      forall run ensures Output(Empty(size), run) == QueueOutput([], size - 1, run) {
        OutputOfQueue(Empty(size), run);
      }
    } else {
      var octets: seq<Octet> := seq(LowBit(size), _ => 0);
      var run := OneByOne(octets) + [GetChar];
      ReadAgain(size, octets);
      QueueRounds(size - 1, octets);
      assert Output(Empty(size), run)[|octets|] != QueueOutput([], size - 1, run)[|octets|];
    }
  }
}
