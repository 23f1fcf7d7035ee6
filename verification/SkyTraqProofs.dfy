/** What the SkyTraq framing promises. */
module SkyTraqProofs {
  import opened Bits
  import opened Options
  import opened SkyTraq

  function Checksum(from: Octet, data: seq<Octet>): Octet
    decreases |data|
  {
    if data == [] then from else Checksum(Xor(from, data[0]), data[1..])
  }

  /** How many of the octets have bit `i` set. */
  function Ones(data: seq<Octet>, i: nat): nat {
    if data == [] then 0 else (if Bit(data[0], i) then 1 else 0) + Ones(data[1..], i)
  }

  /** Each bit of a checksum is the parity of that bit over the octets. */
  lemma {:induction false} ChecksumIsParity(from: Octet, data: seq<Octet>, i: nat)
    requires i < 8
    ensures Bit(Checksum(from, data), i) <==> Bit(from, i) != (Ones(data, i) % 2 == 1)
    decreases |data|
  {
    hide Bit, Xor;
    if data != [] {
      XorBit(from, data[0], i);
      ChecksumIsParity(Xor(from, data[0]), data[1..], i);
    }
  }

  /** The digits of the checksum of a sentence, and what each is worth. */
  lemma {:induction false} HexDigits(c: Octet)
    ensures IsHexDigit(c) <==> exists v: nat | v < 16 :: "0123456789ABCDEF"[v] as int == c
    ensures IsHexDigit(c) ==> HexValue(c) < 16 && "0123456789ABCDEF"[HexValue(c)] as int == c
  {
    assert IsHexDigit(c) ==> "0123456789ABCDEF"[HexValue(c)] as int == c;
    var digits := "0123456789ABCDEF";
    assert forall v: nat | v < 16 :: digits[v] as int == if v < 10 then 0x30 + v else 0x41 + v - 10;
  }

  /** A binary frame as the SkyTraq protocol has it. */
  function Frame(msg: seq<Octet>): seq<Octet>
    requires |msg| < 0x1_0000
  {
    [0xA0, 0xA1, |msg| / 256, |msg| % 256] + msg + [Checksum(0, msg), 0x0D, 0x0A]
  }

  // ----- robustness -----

  lemma {:induction false} StepOwns(r: Rx, c: Octet, grant: Option<nat>)
    requires Owns(r)
    ensures Owns(RxStep(r, c, grant))
  {
  }

  /** What an event does to the number of fragments held. */
  function Worth(event: Event): int {
    match event
    case Allocated(_) => 1
    case Delivered(_) => -1
    case Dropped(_) => -1
    case _ => 0
  }

  /** Fragments got from the pool less those handed over or released. */
  function Balance(log: seq<Event>): int {
    if log == [] then 0 else Balance(log[..|log| - 1]) + Worth(log[|log| - 1])
  }

  ghost predicate Books(log: seq<Event>) {
    forall i | 0 <= i <= |log| :: 0 <= Balance(log[..i]) <= 1
  }

  /** At any time in the past at most one fragment was held, and none that had
      gone: every fragment is handed over or released once, except the one that
      is still owned. */
  ghost predicate Ledger(r: Rx) {
    Owns(r) && Books(r.log) && Balance(r.log) == if r.message.Some? then 1 else 0
  }

  lemma {:induction false} Book(log: seq<Event>, event: Event)
    requires Books(log) && 0 <= Balance(log) + Worth(event) <= 1
    ensures Books(log + [event]) && Balance(log + [event]) == Balance(log) + Worth(event)
  {
    var l := log + [event];
    assert l[..|log|] == log && l[..|l|] == l;
    forall i | 0 <= i <= |log| ensures l[..i] == log[..i] {
    }
  }

  lemma {:induction false} BookRefusal(r: Rx, log: seq<Event>, length: nat)
    requires Books(log) && 0 <= Balance(log) <= 1
    ensures Books(log + Refusal(r, length)) && Balance(log + Refusal(r, length)) == Balance(log)
  {
    if r.listening {
      Book(log, Refused(length));
    } else {
      assert log + [] == log;
    }
  }

  lemma {:induction false} ReleaseLedger(r: Rx)
    requires Ledger(r) && r.state.Unsync?
    ensures Ledger(Release(r))
  {
    hide Balance, Books;
    if r.message.Some? {
      var stored := r.message.value.stored;
      BookRefusal(r, r.log, |stored|);
      Book(r.log + Refusal(r, |stored|), Dropped(stored));
    }
  }

  lemma {:induction false} StepLedger(r: Rx, c: Octet, grant: Option<nat>)
    requires Ledger(r)
    ensures Ledger(RxStep(r, c, grant))
  {
    hide Balance, Books, Xor, Release;
    var s := RxStep(r, c, grant);
    StepOwns(r, c, grant);
    if r.state.Unsync? {
      var q := Release(r);
      ReleaseLedger(r);
      ReleaseEmpties(r);
      if s.state.Unsync? && s.log != q.log {
        Book(q.log, NoMemory);
        BookRefusal(q, q.log + [NoMemory], 0);
      } else if !s.state.Unsync? {
        Book(q.log, Allocated(grant.value));
      }
    } else if s.log != r.log {
      Book(r.log, s.log[|r.log|]);
    }
  }

  lemma {:induction false} ReleaseEmpties(r: Rx)
    ensures Release(r).message.None? && Release(r).state == r.state && Release(r).listening == r.listening
  {
  }

  lemma {:induction false} FeedLedger(r: Rx, input: seq<Input>)
    requires Ledger(r)
    ensures Ledger(Feed(r, input))
    decreases |input|
  {
    if input != [] {
      StepLedger(r, input[0].c, input[0].grant);
      FeedLedger(RxStep(r, input[0].c, input[0].grant), input[1..]);
    }
  }

  /** How many octets the machine may take before it is back in Unsync. */
  function Patience(r: Rx): nat
    requires Owns(r)
  {
    match r.state
    case Unsync => 0
    case StartBinary => Room(r) + 4
    case ReadLen => Room(r) + 3
    case ReadLen2 => Room(r) + 2
    case StoreBinary => Room(r) + 1
    case StoreNmea => Room(r) + 2
    case ReadCsumNmea => 2
    case ReadCsumNmea2 => 1
    case ReadCsumBinary => 1
  }

  function Room(r: Rx): nat
    requires Owns(r)
  {
    if r.message.None? then 0 else r.message.value.capacity - |r.message.value.stored|
  }

  lemma {:induction false} StepCosts(r: Rx, c: Octet, grant: Option<nat>)
    requires Owns(r) && !r.state.Unsync?
    ensures var s := RxStep(r, c, grant); Owns(s) && Patience(s) < Patience(r)
  {
    hide Xor;
  }

  /** From any state the machine is back in Unsync after at most the capacity of
      its fragment and four more octets, whatever they are. */
  lemma {:induction false} Resynchronizes(r: Rx, input: seq<Input>) returns (k: nat)
    requires Owns(r) && |input| >= Patience(r)
    ensures k <= Patience(r) <= (if r.message.Some? then r.message.value.capacity + 4 else 0)
    ensures k <= |input| && Feed(r, input[..k]).state.Unsync?
    decreases |input|
  {
    k := 0;
    FeedNothing(r);
    if !r.state.Unsync? {
      hide RxStep, Feed;
      var s := RxStep(r, input[0].c, input[0].grant);
      StepCosts(r, input[0].c, input[0].grant);
      k := Resynchronizes(s, input[1..]);
      k := k + 1;
      assert input[..k][1..] == input[1..][..k - 1];
      FeedFirst(r, input[..k]);
    } else {
      assert input[..0] == [];
    }
  }

  // ----- delivery -----

  function Octets(input: seq<Input>): (o: seq<Octet>)
    ensures |o| == |input| && forall i | 0 <= i < |o| :: o[i] == input[i].c
  {
    if input == [] then [] else [input[0].c] + Octets(input[1..])
  }

  lemma {:induction false} FeedConcat(r: Rx, a: seq<Input>, b: seq<Input>)
    requires Owns(r)
    ensures Owns(Feed(r, a)) && Feed(r, a + b) == Feed(Feed(r, a), b)
    decreases |a|
  {
    hide RxStep;
    if a == [] {
      assert a + b == b;
    } else {
      StepOwns(r, a[0].c, a[0].grant);
      FeedConcat(RxStep(r, a[0].c, a[0].grant), a[1..], b);
      assert (a + b)[1..] == a[1..] + b;
    }
  }

  lemma {:induction false} FeedFirst(r: Rx, input: seq<Input>)
    requires Owns(r) && input != []
    ensures var s := RxStep(r, input[0].c, input[0].grant); Owns(s) && Feed(r, input) == Feed(s, input[1..])
    ensures Octets(input) == [input[0].c] + Octets(input[1..])
  {
  }

  lemma {:induction false} FeedNothing(r: Rx)
    requires Owns(r)
    ensures Feed(r, []) == r && Octets([]) == []
  {
  }

  /** Storing one octet that fits. */
  lemma {:induction false} StoresOne(r: Rx, c: Octet, grant: Option<nat>)
    requires Owns(r) && (r.state.StoreBinary? || (r.state.StoreNmea? && c != STAR))
    requires |r.message.value.stored| < r.message.value.capacity
    ensures var f := r.message.value;
            RxStep(r, c, grant) ==
            r.(csumCalc := Xor(r.csumCalc, c), message := Some(f.(stored := f.stored + [c])),
               state := if r.state.StoreBinary? && |f.stored| + 1 == r.length then ReadCsumBinary else r.state)
  {
  }

  /** Storing a payload that fits, up to its announced length. */
  lemma {:induction false} StoresPayload(r: Rx, data: seq<Input>)
    requires Owns(r) && r.state.StoreBinary? && data != []
    requires r.length == |r.message.value.stored| + |data| <= r.message.value.capacity
    ensures var f := r.message.value;
            Feed(r, data) == r.(state := ReadCsumBinary, csumCalc := Checksum(r.csumCalc, Octets(data)),
                                message := Some(f.(stored := f.stored + Octets(data))))
    decreases |data|
  {
    hide RxStep, Feed, Octets, Checksum, Xor;
    var stored, c, rest := r.message.value.stored, data[0].c, data[1..];
    FeedFirst(r, data);
    StoresOne(r, c, data[0].grant);
    ChecksumStep(r.csumCalc, c, Octets(rest));
    assert stored + [c] + Octets(rest) == stored + ([c] + Octets(rest));
    if rest == [] {
      FeedNothing(RxStep(r, c, data[0].grant));
      ChecksumStep(Xor(r.csumCalc, c), 0, []);
      assert stored + ([c] + []) == stored + [c];
    } else {
      StoresPayload(RxStep(r, c, data[0].grant), rest);
    }
  }

  /** Storing a sentence body that fits. */
  lemma {:induction false} StoresSentence(r: Rx, data: seq<Input>)
    requires Owns(r) && r.state.StoreNmea? && STAR !in Octets(data)
    requires |r.message.value.stored| + |data| <= r.message.value.capacity
    ensures var f := r.message.value;
            Feed(r, data) == r.(csumCalc := Checksum(r.csumCalc, Octets(data)),
                                message := Some(f.(stored := f.stored + Octets(data))))
    decreases |data|
  {
    hide RxStep, Feed, Octets, Checksum, Xor;
    var stored := r.message.value.stored;
    if data == [] {
      FeedNothing(r);
      ChecksumStep(r.csumCalc, 0, []);
      assert stored + [] == stored;
    } else {
      var c, rest := data[0].c, data[1..];
      FeedFirst(r, data);
      assert Octets(data)[0] == c && forall x | x in Octets(rest) :: x in Octets(data);
      StoresOne(r, c, data[0].grant);
      ChecksumStep(r.csumCalc, c, Octets(rest));
      StoresSentence(RxStep(r, c, data[0].grant), rest);
      assert stored + [c] + Octets(rest) == stored + ([c] + Octets(rest));
    }
  }

  /** A machine between messages, with an application listening. */
  predicate Ready(r: Rx) {
    r.state.Unsync? && r.message.None? && r.listening
  }

  /** A binary frame whose length is right is delivered iff its checksum is. */
  lemma {:induction false} FrameDelivered(r: Rx, head: seq<Input>, data: seq<Input>, last: Input, capacity: nat)
    requires Ready(r) && |head| == 4 && Octets(head) == [0xA0, 0xA1, |data| / 256, |data| % 256]
    requires head[0].grant == Some(capacity) && 1 <= |data| <= capacity && |data| < 0x1_0000
    ensures var s := Feed(r, head + data + [last]);
            && s.state.Unsync?
            && (last.c == Checksum(0, Octets(data)) ==>
                  Ready(s) && s.log == r.log + [Allocated(capacity), Delivered(Octets(data))])
            && (last.c != Checksum(0, Octets(data)) ==>
                  s.message == Some(Fragment(capacity, Octets(data))) && s.log == r.log + [Allocated(capacity)])
  {
    hide Xor;
    FeedConcat(r, head, data);
    FeedConcat(r, head + data, [last]);
    var h := Feed(r, head);
    assert h == Feed(RxStep(r, head[0].c, head[0].grant), head[1..]);
    FeedsHeader(r, head, capacity, |data|);
    StoresPayload(h, data);
    assert [] + Octets(data) == Octets(data);
    var p := Feed(h, data);
    assert Feed(p, [last]) == RxStep(p, last.c, last.grant) by { assert [last][1..] == []; }
    assert r.log + [Allocated(capacity)] + [Delivered(Octets(data))] ==
           r.log + [Allocated(capacity), Delivered(Octets(data))];
  }

  lemma {:induction false} FeedsHeader(r: Rx, head: seq<Input>, capacity: nat, n: nat)
    requires Ready(r) && |head| == 4 && Octets(head) == [0xA0, 0xA1, n / 256, n % 256]
    requires head[0].grant == Some(capacity) && n < 0x1_0000
    ensures Feed(r, head) == r.(state := StoreBinary, csumCalc := 0, length := n,
                                message := Some(Fragment(capacity, [])), log := r.log + [Allocated(capacity)])
  {
    assert head[0].c == Octets(head)[0] && head[1].c == Octets(head)[1];
    assert head[2].c == Octets(head)[2] && head[3].c == Octets(head)[3];
    var r1 := RxStep(r, head[0].c, head[0].grant);
    var r2 := RxStep(r1, head[1].c, head[1].grant);
    var r3 := RxStep(r2, head[2].c, head[2].grant);
    var r4 := RxStep(r3, head[3].c, head[3].grant);
    assert r4.length == n && r4.state.StoreBinary?;
    assert head == [head[0], head[1], head[2], head[3]];
    assert Feed(r3, [head[3]]) == r4;
    assert Feed(r2, [head[2], head[3]]) == r4;
    assert Feed(r1, [head[1], head[2], head[3]]) == r4;
  }

  /** An NMEA sentence between `$` and `*hh` is delivered with a terminating NUL
      iff the two digits are its checksum. */
  lemma {:induction false} SentenceDelivered(
      r: Rx, dollar: Input, body: seq<Input>, star: Input, hi: Input, lo: Input, capacity: nat)
    requires Ready(r) && dollar == Input(DOLLAR, Some(capacity)) && star.c == STAR
    requires STAR !in Octets(body) && |body| < capacity && IsHexDigit(hi.c) && IsHexDigit(lo.c)
    ensures var s := Feed(r, [dollar] + body + [star, hi, lo]);
            var text := Octets(body) + [0];
            && s.state.Unsync?
            && (HexValue(hi.c) * 16 + HexValue(lo.c) == Checksum(0, Octets(body)) ==>
                  Ready(s) && s.log == r.log + [Allocated(capacity), Delivered(text)])
            && (HexValue(hi.c) * 16 + HexValue(lo.c) != Checksum(0, Octets(body)) ==>
                  s.message == Some(Fragment(capacity, text)) && s.log == r.log + [Allocated(capacity)])
  {
    hide Xor;
    var tail := [star, hi, lo];
    FeedConcat(r, [dollar], body);
    FeedConcat(r, [dollar] + body, tail);
    var h := RxStep(r, DOLLAR, Some(capacity));
    assert Feed(r, [dollar]) == h by { assert [dollar][1..] == []; }
    StoresSentence(h, body);
    assert [] + Octets(body) == Octets(body);
    FeedTrailer(Feed(h, body), star, hi, lo);
    assert r.log + [Allocated(capacity)] + [Delivered(Octets(body) + [0])] ==
           r.log + [Allocated(capacity), Delivered(Octets(body) + [0])];
  }

  /** The end of a sentence: the digits make up the received checksum, whatever
      it was before. */
  lemma {:induction false} FeedTrailer(p: Rx, star: Input, hi: Input, lo: Input)
    requires Owns(p) && p.state.StoreNmea? && |p.message.value.stored| < p.message.value.capacity
    requires star.c == STAR && IsHexDigit(hi.c) && IsHexDigit(lo.c)
    ensures var f, sum := p.message.value, HexValue(hi.c) * 16 + HexValue(lo.c);
            Feed(p, [star, hi, lo]) ==
            Validate(p.(csumRx := sum, message := Some(f.(stored := f.stored + [0]))))
  {
    hide Feed, Xor;
    FeedThree(p, star, hi, lo);
    var f := p.message.value;
    var p1 := p.(message := Some(f.(stored := f.stored + [0])), state := ReadCsumNmea);
    var p2 := p1.(csumRx := p.csumRx * 16 % 256 + HexValue(hi.c), state := ReadCsumNmea2);
    assert RxStep(p, star.c, star.grant) == p1;
    assert RxStep(p1, hi.c, hi.grant) == p2;
    ShiftedOut(p.csumRx, HexValue(hi.c));
    assert RxStep(p2, lo.c, lo.grant) == Validate(p2.(csumRx := HexValue(hi.c) * 16 + HexValue(lo.c)));
  }

  lemma {:induction false} ShiftedOut(sum: int, digit: int)
    requires 0 <= digit < 16
    ensures (sum * 16 % 256 + digit) * 16 % 256 == digit * 16
  {
    var k := sum * 16 / 256;
    assert (sum * 16 % 256 + digit) * 16 == 256 * (sum - 16 * k) + digit * 16;
  }

  lemma {:induction false} FeedThree(p: Rx, a: Input, b: Input, c: Input)
    requires Owns(p)
    ensures var p1 := RxStep(p, a.c, a.grant);
            Owns(p1) &&
            var p2 := RxStep(p1, b.c, b.grant);
            Owns(p2) && Feed(p, [a, b, c]) == RxStep(p2, c.c, c.grant)
  {
    hide RxStep;
    StepOwns(p, a.c, a.grant);
    var p1 := RxStep(p, a.c, a.grant);
    StepOwns(p1, b.c, b.grant);
    var p2 := RxStep(p1, b.c, b.grant);
    StepOwns(p2, c.c, c.grant);
    assert [a, b, c][1..] == [b, c] && [b, c][1..] == [c] && [c][1..] == [];
    assert Feed(p2, [c]) == Feed(RxStep(p2, c.c, c.grant), []);
    assert Feed(p1, [b, c]) == Feed(p2, [c]);
  }

  // ----- sending -----

  /** Transmit interrupts in the middle of a message. */
  lemma {:induction false} EmitsRest(t: Tx)
    requires Sendable(t) && t.state.Message?
    ensures var rest := t.msg[t.idx..Sends(t.len)];
            && Emitted(t, |rest| + 3) == rest + [Checksum(t.csum, rest), 0x0D, 0x0A]
            && IdleAfter(t, |rest| + 3)
    decreases Sends(t.len) - t.idx
  {
    hide Xor, Checksum, TxStep, Emitted, IdleAfter;
    var u, n := TxStep(t).0, Sends(t.len);
    var c, rest := t.msg[t.idx], t.msg[t.idx + 1..n];
    assert t.msg[t.idx..n] == [c] + rest;
    ChecksumStep(t.csum, c, rest);
    SendsOctet(t);
    EmitsOne(t, |rest| + 3);
    if t.idx + 1 == n {
      ChecksumStep(u.csum, 0, []);
      EmitsTrailer(u);
    } else {
      EmitsRest(u);
    }
  }

  lemma {:induction false} ChecksumStep(from: Octet, c: Octet, rest: seq<Octet>)
    ensures Checksum(from, [c] + rest) == Checksum(Xor(from, c), rest)
    ensures Checksum(from, []) == from
  {
  }

  lemma {:induction false} SendsOctet(t: Tx)
    requires Sendable(t) && t.state.Message?
    ensures var u := TxStep(t).0;
            && TxStep(t).1 == Some(t.msg[t.idx])
            && Sendable(u) && u.msg == t.msg && u.len == t.len && u.csum == Xor(t.csum, t.msg[t.idx])
            && (if t.idx + 1 == Sends(t.len) then u.state.Csum? else u.state.Message? && u.idx == t.idx + 1)
  {
    hide Xor;
  }

  lemma {:induction false} EmitsTrailer(u: Tx)
    requires Sendable(u) && u.state.Csum?
    ensures Emitted(u, 3) == [u.csum, 0x0D, 0x0A] && IdleAfter(u, 3)
  {
  }

  /** The transmitter is idle after exactly `n` interrupts. */
  predicate IdleAfter(t: Tx, n: nat)
    requires Sendable(t)
    decreases n
  {
    if n == 0 then t.state.Idle? else !t.state.Idle? && IdleAfter(TxStep(t).0, n - 1)
  }

  lemma {:induction false} OneInterrupt(t: Tx, left: nat)
    requires Sendable(t) && !t.state.Idle? && IdleAfter(t, left)
    ensures var (u, c) := TxStep(t);
            && 0 < left && c.Some? && Sendable(u) && IdleAfter(u, left - 1)
            && Emitted(t, left) == [c.value] + Emitted(u, left - 1)
            && TxAfter(t, left) == TxAfter(u, left - 1)
  {
  }

  lemma {:induction false} BusyStep(t: Tx)
    requires Sendable(t) && !t.state.Idle?
    ensures var (u, c) := TxStep(t);
            && c.Some? && Sendable(u)
            && u.callback == t.callback
            && u.completed == (if u.state.Idle? && t.callback then t.completed + [0] else t.completed)
            && (u.state.Idle? ==> u.msg == [])
  {
  }

  lemma {:induction false} NoInterrupt(t: Tx, left: nat)
    requires Sendable(t) && t.state.Idle? && IdleAfter(t, left)
    ensures left == 0 && Emitted(t, left) == [] && TxAfter(t, left) == t
  {
  }

  /** What the interrupts put on the line for a message of the given length, after
      which the transmitter is idle.  For length 0 that is the 65536 octets in
      memory from the message pointer on. */
  lemma {:induction false} TransmitsOctets(t: Tx, msg: seq<Octet>, len: nat, callback: bool)
    requires t.state.Idle? && len < 0x1_0000 && Sends(len) <= |msg|
    ensures var u, body := Transmit(t, msg, len, callback), msg[..Sends(len)];
            && Sendable(u)
            && Emitted(u, |body| + 7) == [0xA0, 0xA1, len / 256, len % 256] + body + [Checksum(0, body), 0x0D, 0x0A]
            && IdleAfter(u, |body| + 7)
  {
    hide Xor, Checksum, Emitted, IdleAfter;
    var n := Sends(len);
    var u0 := Transmit(t, msg, len, callback);
    var u1 := TxStep(u0).0;
    var u2 := TxStep(u1).0;
    var u3 := TxStep(u2).0;
    var u4 := TxStep(u3).0;
    EmitsRest(u4);
    assert u4.msg[u4.idx..n] == msg[..n];
    EmitsOne(u3, n + 3);
    EmitsOne(u2, n + 4);
    EmitsOne(u1, n + 5);
    EmitsOne(u0, n + 6);
  }

  /** A transmission puts the frame of its message on the line exactly if that
      message is not empty. */
  lemma {:induction false} TransmitsFrameIffNotEmpty(t: Tx, msg: seq<Octet>, len: nat, callback: bool)
    requires t.state.Idle? && len < 0x1_0000 && Sends(len) <= |msg|
    ensures var u, n := Transmit(t, msg, len, callback), Sends(len) + 7;
            && Sendable(u) && IdleAfter(u, n)
            && (Emitted(u, n) == Frame(msg[..len]) <==> 1 <= len)
  {
    hide Emitted, IdleAfter, Checksum;
    TransmitsOctets(t, msg, len, callback);
  }

  /** The completion callback is called once for a transmission, with 0 whatever
      the length, where its documentation promises the number of octets sent, and the
      message is let go. */
  lemma {:induction false} CompletionSaysZero(t: Tx, n: nat)
    requires Sendable(t) && !t.state.Idle? && IdleAfter(t, n)
    ensures TxAfter(t, n).completed == if t.callback then t.completed + [0] else t.completed
    ensures TxAfter(t, n).msg == []
    decreases n
  {
    hide TxStep;
    BusyStep(t);
    OneInterrupt(t, n);
    var u := TxStep(t).0;
    if u.state.Idle? {
      NoInterrupt(u, n - 1);
    } else {
      CompletionSaysZero(u, n - 1);
    }
  }

  /** An interrupt without a transmission sends nothing and completes nothing. */
  lemma {:induction false} IdleInterrupt(t: Tx)
    requires t.state.Idle?
    ensures var (u, c) := TxStep(t); c.None? && u.state.Idle? && u.msg == [] && u.completed == t.completed
  {
  }

  lemma {:induction false} EmitsOne(t: Tx, n: nat)
    requires Sendable(t) && !t.state.Idle?
    ensures var (u, c) := TxStep(t);
            && c.Some? && Sendable(u)
            && Emitted(t, n + 1) == [c.value] + Emitted(u, n)
            && (IdleAfter(u, n) ==> IdleAfter(t, n + 1))
  {
  }

  /** Receiving what was sent for a message that fits the fragment delivers that
      message, once, and the line end leaves the machine between messages. */
  lemma {:induction false} RoundTrip(t: Tx, memory: seq<Octet>, len: nat, callback: bool,
                                     r: Rx, input: seq<Input>, capacity: nat)
    requires t.state.Idle? && 1 <= len <= capacity && len < 0x1_0000 && len <= |memory|
    requires Ready(r) && Octets(input) == Emitted(Transmit(t, memory, len, callback), len + 7)
    requires input[0].grant == Some(capacity)
    ensures var s := Feed(r, input);
            Ready(s) && s.log == r.log + [Allocated(capacity), Delivered(memory[..len])]
  {
    hide Emitted, Frame, Feed, Octets;
    FrameParts(memory[..len]);
    TransmitsFrameIffNotEmpty(t, memory, len, callback);
    FrameReceived(r, memory[..len], input, capacity);
  }

  lemma {:induction false} FrameReceived(r: Rx, msg: seq<Octet>, input: seq<Input>, capacity: nat)
    requires Ready(r) && 1 <= |msg| <= capacity && |msg| < 0x1_0000
    requires Octets(input) == Frame(msg) && input != [] && input[0].grant == Some(capacity)
    ensures var s := Feed(r, input); Ready(s) && s.log == r.log + [Allocated(capacity), Delivered(msg)]
  {
    hide Xor, Frame, Feed, Octets, RxStep;
    var n := |msg|;
    FrameParts(msg);
    var head, data, last, end := input[..4], input[4..4 + n], input[4 + n], input[5 + n..];
    assert input == head + data + [last] + end;
    OctetsSlice(input, 0, 4);
    OctetsSlice(input, 4, 4 + n);
    FrameDelivered(r, head, data, last, capacity);
    FeedConcat(r, head + data + [last], end);
    FeedLineEnd(Feed(r, head + data + [last]), end);
  }

  lemma {:induction false} FrameParts(msg: seq<Octet>)
    requires |msg| < 0x1_0000
    ensures var f, n := Frame(msg), |msg|;
            && |f| == n + 7
            && f[0..4] == [0xA0, 0xA1, n / 256, n % 256]
            && f[4..4 + n] == msg
            && f[4 + n] == Checksum(0, msg) && f[5 + n] == 0x0D && f[6 + n] == 0x0A
  {
  }

  lemma {:induction false} FeedLineEnd(s: Rx, end: seq<Input>)
    requires Ready(s) && |end| == 2 && end[0].c == 0x0D && end[1].c == 0x0A
    ensures Feed(s, end) == s
  {
    assert RxStep(s, end[0].c, end[0].grant) == s && RxStep(s, end[1].c, end[1].grant) == s;
    var last := end[1..];
    assert last[0] == end[1] && last[1..] == [];
    assert Feed(s, last) == Feed(s, last[1..]);
  }

  lemma {:induction false} OctetsSlice(input: seq<Input>, i: nat, j: nat)
    requires i <= j <= |input|
    ensures Octets(input[i..j]) == Octets(input)[i..j]
  {
  }

  // ----- what cannot be delivered -----

  /** Fragments are no larger than the pool gives, a message is not empty once its
      checksum is awaited, and nothing else was ever delivered. */
  ghost predicate Bounded(r: Rx, capacity: nat, from: nat) {
    && Owns(r)
    && (r.message.Some? ==> r.message.value.capacity <= capacity)
    && (r.state.ReadCsumNmea? || r.state.ReadCsumNmea2? || r.state.ReadCsumBinary? ==>
          r.message.value.stored != [])
    && from <= |r.log|
    && (forall i | from <= i < |r.log| && r.log[i].Delivered? :: 1 <= |r.log[i].message| <= capacity)
  }

  lemma {:induction false} StepBounded(r: Rx, c: Octet, grant: Option<nat>, capacity: nat, from: nat)
    requires Bounded(r, capacity, from) && (grant.Some? ==> grant.value <= capacity)
    ensures Bounded(RxStep(r, c, grant), capacity, from)
  {
    hide Xor;
  }

  lemma {:induction false} FeedBounded(r: Rx, input: seq<Input>, capacity: nat, from: nat)
    requires Bounded(r, capacity, from)
    requires forall i | 0 <= i < |input| && input[i].grant.Some? :: input[i].grant.value <= capacity
    ensures Bounded(Feed(r, input), capacity, from)
    decreases |input|
  {
    hide RxStep;
    if input != [] {
      StepBounded(r, input[0].c, input[0].grant, capacity, from);
      FeedBounded(RxStep(r, input[0].c, input[0].grant), input[1..], capacity, from);
    }
  }

  ghost predicate DeliveredSince(log: seq<Event>, from: nat, msg: seq<Octet>) {
    exists i :: from <= i < |log| && log[i] == Delivered(msg)
  }

  /** A frame's message is delivered exactly if it is not empty and fits. */
  lemma {:induction false} FrameDeliveredIffFits(r: Rx, msg: seq<Octet>, input: seq<Input>, capacity: nat)
    requires Ready(r) && |msg| < 0x1_0000 && Octets(input) == Frame(msg)
    requires input[0].grant == Some(capacity)
    requires forall i | 0 <= i < |input| && input[i].grant.Some? :: input[i].grant.value <= capacity
    ensures DeliveredSince(Feed(r, input).log, |r.log|, msg) <==> 1 <= |msg| <= capacity
  {
    hide RxStep, Frame;
    FeedBounded(r, input, capacity, |r.log|);
    if 1 <= |msg| <= capacity {
      FrameParts(msg);
      FrameReceived(r, msg, input, capacity);
      assert Feed(r, input).log[|r.log| + 1] == Delivered(msg);
    }
  }

  // ----- streams and recovery -----

  type Sent = m: seq<Octet> | 1 <= |m| < 0x1_0000 witness [0]

  /** What the transmitter sends for one message after the other. */
  function Frames(msgs: seq<Sent>): seq<Octet> {
    if msgs == [] then [] else Frame(msgs[0]) + Frames(msgs[1..])
  }

  function Deliveries(msgs: seq<Sent>, capacity: nat): seq<Event> {
    if msgs == [] then [] else [Allocated(capacity), Delivered(msgs[0])] + Deliveries(msgs[1..], capacity)
  }

  /** The input that carries a frame and what follows it. */
  lemma {:induction false} FrameOfStream(msg: seq<Octet>, more: seq<Octet>, input: seq<Input>) returns (n: nat)
    requires |msg| < 0x1_0000 && Octets(input) == Frame(msg) + more
    ensures 0 < n <= |input| && input == input[..n] + input[n..]
    ensures Octets(input[..n]) == Frame(msg) && Octets(input[n..]) == more
  {
    hide *;
    FrameLength(msg);
    n := |msg| + 7;
    Parts(Frame(msg), more);
    OctetsSlice(input, 0, n);
    OctetsSlice(input, n, |input|);
    assert input[..n] == input[0..n] && input[n..] == input[n..|input|];
    assert input == input[..n] + input[n..];
  }

  lemma {:induction false} FrameLength(msg: seq<Octet>)
    requires |msg| < 0x1_0000
    ensures |Frame(msg)| == |msg| + 7
  {
  }

  lemma {:induction false} Parts<T>(a: seq<T>, b: seq<T>)
    ensures (a + b)[0..|a|] == a && (a + b)[|a|..|a + b|] == b
  {
  }

  /** A stream of messages arrives as sent: each once, in order, nothing else. */
  lemma {:induction false} StreamDelivered(r: Rx, msgs: seq<Sent>, input: seq<Input>, capacity: nat)
    requires Ready(r) && (forall i | 0 <= i < |msgs| :: |msgs[i]| <= capacity)
    requires Octets(input) == Frames(msgs) && forall i | 0 <= i < |input| :: input[i].grant == Some(capacity)
    ensures var s := Feed(r, input); Ready(s) && s.log == r.log + Deliveries(msgs, capacity)
    decreases |msgs|
  {
    if msgs == [] {
      assert input == [];
    } else {
      hide RxStep, Frame, Feed, Octets;
      var n := FrameOfStream(msgs[0], Frames(msgs[1..]), input);
      var s := Feed(r, input[..n]);
      FrameReceived(r, msgs[0], input[..n], capacity);
      FeedConcat(r, input[..n], input[n..]);
      StreamDelivered(s, msgs[1..], input[n..], capacity);
      Regroup(r.log, [Allocated(capacity), Delivered(msgs[0])], Deliveries(msgs[1..], capacity));
    }
  }

  lemma {:induction false} Regroup<T>(a: seq<T>, b: seq<T>, c: seq<T>)
    ensures a + b + c == a + (b + c)
  {
  }

  lemma {:induction false} StepListens(r: Rx, c: Octet, grant: Option<nat>)
    requires Owns(r)
    ensures RxStep(r, c, grant).listening == r.listening && r.log <= RxStep(r, c, grant).log
  {
    hide Xor;
  }

  lemma {:induction false} FeedListens(r: Rx, input: seq<Input>)
    requires Owns(r)
    ensures Feed(r, input).listening == r.listening && Owns(Feed(r, input)) && r.log <= Feed(r, input).log
    decreases |input|
  {
    hide RxStep;
    if input != [] {
      StepOwns(r, input[0].c, input[0].grant);
      StepListens(r, input[0].c, input[0].grant);
      FeedListens(RxStep(r, input[0].c, input[0].grant), input[1..]);
    }
  }

  /** In Unsync the first octet releases what was left, then counts as if nothing
      had been left. */
  lemma {:induction false} LeftoverReleased(r: Rx, input: seq<Input>)
    requires Owns(r) && r.state.Unsync? && r.message.Some? && input != []
    ensures Feed(r, input) == Feed(Release(r), input)
  {
  }

  /** Recovery: whatever state noise left the receiver in, after it has seen at most
      as many octets as `Resynchronizes` says the next frame is delivered. */
  lemma {:induction false} FrameAfterNoiseDelivered(
      r: Rx, noise: seq<Input>, msg: seq<Octet>, frame: seq<Input>, capacity: nat)
      returns (k: nat)
    requires Owns(r) && r.listening && |noise| >= Patience(r)
    requires 1 <= |msg| <= capacity && |msg| < 0x1_0000
    requires Octets(frame) == Frame(msg) && frame[0].grant == Some(capacity)
    ensures k <= Patience(r) && k <= |noise|
    ensures var s := Feed(r, noise[..k] + frame); Ready(s) && DeliveredSince(s.log, |r.log|, msg)
  {
    hide RxStep, Frame, Feed, Patience;
    k := Resynchronizes(r, noise);
    FeedConcat(r, noise[..k], frame);
    FeedListens(r, noise[..k]);
    var u := Feed(r, noise[..k]);
    var v := Release(u);
    FrameParts(msg);
    if u.message.Some? {
      LeftoverReleased(u, frame);
    }
    FrameReceived(v, msg, frame, capacity);
    var s := Feed(v, frame);
    assert s.log[|v.log| + 1] == Delivered(msg);
  }

  // ----- refusals -----

  /** From `from` on the application is called back only if it listens: without a
      message right before a fragment is released, with its length, and right after
      there was no memory for one, with length 0; and with each that is delivered. */
  ghost predicate Told(log: seq<Event>, from: nat, listening: bool) {
    && from <= |log|
    && (forall i | from <= i < |log| && log[i].Dropped? && listening ::
          from < i && log[i - 1] == Refused(|log[i].stored|))
    && (forall i | from <= i < |log| && log[i].NoMemory? && listening ::
          i + 1 < |log| && log[i + 1] == Refused(0))
    && (forall i | from <= i < |log| && log[i].Refused? :: RefusalMeant(log, from, i))
    && (forall i | from <= i < |log| && (log[i].Refused? || log[i].Delivered?) :: listening)
  }

  ghost predicate RefusalMeant(log: seq<Event>, from: nat, i: int)
    requires 0 <= i < |log| && log[i].Refused?
  {
    || (i + 1 < |log| && log[i + 1].Dropped? && |log[i + 1].stored| == log[i].length)
    || (from < i && log[i - 1].NoMemory? && log[i].length == 0)
  }

  ghost predicate Announced(r: Rx, from: nat) {
    Told(r.log, from, r.listening)
  }

  lemma {:induction false} ToldMore(log: seq<Event>, event: Event, from: nat, listening: bool)
    requires Told(log, from, listening)
    requires event.Allocated? || (if listening then event.Delivered? else event.NoMemory? || event.Dropped?)
    ensures Told(log + [event], from, listening)
  {
    var l := log + [event];
    assert l[|log|] == event && forall i | 0 <= i < |log| :: l[i] == log[i];
    forall i | from <= i < |log| && log[i].Refused? ensures RefusalMeant(l, from, i) {
      RefusalStays(log, [event], from, i);
    }
  }

  lemma {:induction false} RefusalStays(log: seq<Event>, more: seq<Event>, from: nat, i: int)
    requires 0 <= i < |log| && log[i].Refused? && RefusalMeant(log, from, i)
    ensures (log + more)[i].Refused? && RefusalMeant(log + more, from, i)
  {
  }

  /** A callback without a message, and what it belongs to. */
  lemma {:induction false} ToldRefusal(log: seq<Event>, x: Event, y: Event, from: nat)
    requires Told(log, from, true)
    requires (y.Dropped? && x == Refused(|y.stored|)) || (x.NoMemory? && y == Refused(0))
    ensures Told(log + [x] + [y], from, true)
  {
    var l, n := log + [x] + [y], |log|;
    assert l == log + [x, y];
    assert l[n] == x && l[n + 1] == y && forall i | 0 <= i < n :: l[i] == log[i];
    forall i | from <= i < n && log[i].Refused? ensures RefusalMeant(l, from, i) {
      RefusalStays(log, [x, y], from, i);
    }
  }

  lemma {:induction false} ReleaseAnnounced(r: Rx, from: nat)
    requires Announced(r, from)
    ensures Announced(Release(r), from)
  {
    hide Told;
    if r.message.Some? {
      var stored := r.message.value.stored;
      if r.listening {
        ToldRefusal(r.log, Refused(|stored|), Dropped(stored), from);
      } else {
        assert r.log + [] == r.log;
        ToldMore(r.log, Dropped(stored), from, false);
      }
    }
  }

  lemma {:induction false} StepAnnounced(r: Rx, c: Octet, grant: Option<nat>, from: nat)
    requires Owns(r) && Announced(r, from)
    ensures Announced(RxStep(r, c, grant), from)
  {
    hide Told, Xor, Release;
    var s := RxStep(r, c, grant);
    if r.state.Unsync? {
      var q := Release(r);
      ReleaseAnnounced(r, from);
      ReleaseEmpties(r);
      if s.log == q.log {
      } else if !s.state.Unsync? {
        ToldMore(q.log, Allocated(grant.value), from, q.listening);
      } else if q.listening {
        ToldRefusal(q.log, NoMemory, Refused(0), from);
      } else {
        ToldMore(q.log, NoMemory, from, false);
        assert q.log + [NoMemory] + [] == q.log + [NoMemory];
      }
    } else if s.log != r.log {
      ToldMore(r.log, s.log[|r.log|], from, r.listening);
    }
  }

  /** No message is dropped without a callback, over any input, although the
      documentation says that there is no notification of dropped messages. */
  lemma {:induction false} DropsAnnounced(r: Rx, input: seq<Input>, from: nat)
    requires Owns(r) && Announced(r, from)
    ensures Announced(Feed(r, input), from)
    decreases |input|
  {
    hide RxStep, Announced;
    if input != [] {
      StepOwns(r, input[0].c, input[0].grant);
      StepAnnounced(r, input[0].c, input[0].grant, from);
      DropsAnnounced(RxStep(r, input[0].c, input[0].grant), input[1..], from);
    }
  }

  /** So the octet after a corrupt frame, whichever it is, brings a callback. */
  lemma {:induction false} CorruptFrameAnnounced(
      r: Rx, head: seq<Input>, data: seq<Input>, last: Input, next: Input, capacity: nat)
    requires Ready(r) && |head| == 4 && Octets(head) == [0xA0, 0xA1, |data| / 256, |data| % 256]
    requires head[0].grant == Some(capacity) && 1 <= |data| <= capacity && |data| < 0x1_0000
    requires last.c != Checksum(0, Octets(data))
    ensures r.log + [Allocated(capacity), Refused(|data|), Dropped(Octets(data))]
            <= Feed(r, head + data + [last] + [next]).log
  {
    hide Feed, Octets, Checksum, Xor;
    FrameDelivered(r, head, data, last, capacity);
    FeedConcat(r, head + data + [last], [next]);
    var s := Feed(r, head + data + [last]);
    FeedListens(r, head + data + [last]);
    FeedOne(s, next);
    var log := r.log + [Allocated(capacity)];
    assert log + [Refused(|data|)] + [Dropped(Octets(data))] ==
           r.log + [Allocated(capacity), Refused(|data|), Dropped(Octets(data))];
  }

  lemma {:induction false} FeedOne(s: Rx, next: Input)
    requires Owns(s)
    ensures Feed(s, [next]) == RxStep(s, next.c, next.grant)
  {
  }

  // ----- nothing else is delivered -----

  /** The octets on the line for a message: a binary frame up to its checksum, or an
      NMEA sentence, which is delivered with a NUL instead of its end. */
  ghost predicate OnLine(wire: seq<Octet>, msg: seq<Octet>) {
    || (|msg| < 0x1_0000 && wire == [0xA0, 0xA1, |msg| / 256, |msg| % 256] + msg + [Checksum(0, msg)])
    || (exists body, hi, lo :: IsSentence(wire, msg, body, hi, lo))
  }

  ghost predicate IsSentence(wire: seq<Octet>, msg: seq<Octet>, body: seq<Octet>, hi: Octet, lo: Octet) {
    && msg == body + [0] && STAR !in body && IsHexDigit(hi) && IsHexDigit(lo)
    && wire == [DOLLAR] + body + [STAR, hi, lo]
    && HexValue(hi) * 16 + HexValue(lo) == Checksum(0, body)
  }

  ghost predicate EndsWith(past: seq<Octet>, end: seq<Octet>) {
    |end| <= |past| && past[|past| - |end|..] == end
  }

  /** Somewhere in what was received, the message was on the line. */
  ghost predicate WasReceived(past: seq<Octet>, msg: seq<Octet>) {
    exists n: nat, wire :: n <= |past| && EndsWith(past[..n], wire) && OnLine(wire, msg)
  }

  /** What the state says about the octets received last. */
  ghost predicate Reads(r: Rx, past: seq<Octet>)
    requires Owns(r)
  {
    match r.state
    case Unsync => true
    case StartBinary => r.csumCalc == 0 && r.message.value.stored == [] && EndsWith(past, [0xA0])
    case ReadLen => r.csumCalc == 0 && r.message.value.stored == [] && EndsWith(past, [0xA0, 0xA1])
    case ReadLen2 =>
      && r.csumCalc == 0 && r.message.value.stored == []
      && r.length < 256 && EndsWith(past, [0xA0, 0xA1, r.length])
    case StoreBinary => ReadsBinary(r, past)
    case ReadCsumBinary => ReadsBinary(r, past) && |r.message.value.stored| == r.length
    case StoreNmea =>
      var body := r.message.value.stored;
      STAR !in body && r.csumCalc == Checksum(0, body) && EndsWith(past, [DOLLAR] + body)
    case ReadCsumNmea => exists body :: ReadsTrailer(r, body) && EndsWith(past, [DOLLAR] + body + [STAR])
    case ReadCsumNmea2 =>
      exists body, hi ::
        && ReadsTrailer(r, body) && EndsWith(past, [DOLLAR] + body + [STAR, hi])
        && IsHexDigit(hi) && r.csumRx % 16 == HexValue(hi)
  }

  ghost predicate ReadsBinary(r: Rx, past: seq<Octet>)
    requires r.message.Some?
  {
    && r.length < 0x1_0000 && r.csumCalc == Checksum(0, r.message.value.stored)
    && EndsWith(past, [0xA0, 0xA1, r.length / 256, r.length % 256] + r.message.value.stored)
  }

  ghost predicate ReadsTrailer(r: Rx, body: seq<Octet>)
    requires r.message.Some?
  {
    r.message.value.stored == body + [0] && STAR !in body && r.csumCalc == Checksum(0, body)
  }

  ghost predicate Genuine(r: Rx, past: seq<Octet>, from: nat) {
    && from <= |r.log|
    && forall i | from <= i < |r.log| && r.log[i].Delivered? :: WasReceived(past, r.log[i].message)
  }

  lemma {:induction false} EndsWithMore(past: seq<Octet>, end: seq<Octet>, c: Octet)
    requires EndsWith(past, end)
    ensures EndsWith(past + [c], end + [c])
  {
  }

  lemma {:induction false} ChecksumMore(from: Octet, data: seq<Octet>, c: Octet)
    ensures Checksum(from, data + [c]) == Xor(Checksum(from, data), c)
    decreases |data|
  {
    hide Xor;
    if data == [] {
      assert [] + [c] == [c] && [c][1..] == [];
    } else {
      assert (data + [c])[1..] == data[1..] + [c];
      ChecksumMore(Xor(from, data[0]), data[1..], c);
    }
  }

  lemma {:induction false} ReceivedStays(past: seq<Octet>, c: Octet, msg: seq<Octet>)
    requires WasReceived(past, msg)
    ensures WasReceived(past + [c], msg)
  {
    hide OnLine, EndsWith;
    var n: nat, wire :| n <= |past| && EndsWith(past[..n], wire) && OnLine(wire, msg);
    assert (past + [c])[..n] == past[..n];
  }

  lemma {:induction false} ReceivedNow(past: seq<Octet>, wire: seq<Octet>, msg: seq<Octet>)
    requires EndsWith(past, wire) && OnLine(wire, msg)
    ensures WasReceived(past, msg)
  {
    hide OnLine, EndsWith;
    assert past[..|past|] == past;
  }

  /** Starting on a marker, or not. */
  lemma {:induction false} StartReads(r: Rx, past: seq<Octet>, c: Octet, grant: Option<nat>)
    requires Owns(r) && r.state.Unsync?
    ensures Owns(RxStep(r, c, grant)) && Reads(RxStep(r, c, grant), past + [c])
  {
    hide Xor, Release;
    ReleaseEmpties(r);
    assert EndsWith(past + [c], [c]) && [DOLLAR] + [] == [DOLLAR];
  }

  lemma {:induction false} MarkerReads(r: Rx, past: seq<Octet>, c: Octet, grant: Option<nat>)
    requires Owns(r) && Reads(r, past) && r.state.StartBinary?
    ensures Reads(RxStep(r, c, grant), past + [c]) && RxStep(r, c, grant).log == r.log
  {
    hide Xor, EndsWith, Checksum, Release, Store, Validate, HexValue, ReadsBinary, ReadsTrailer;
    EndsWithMore(past, [0xA0], c);
    assert [0xA0] + [c] == [0xA0, c];
  }

  lemma {:induction false} LengthReads(r: Rx, past: seq<Octet>, c: Octet, grant: Option<nat>)
    requires Owns(r) && Reads(r, past) && r.state.ReadLen?
    ensures Reads(RxStep(r, c, grant), past + [c]) && RxStep(r, c, grant).log == r.log
  {
    hide Xor, EndsWith, Checksum, Release, Store, Validate, HexValue, ReadsBinary, ReadsTrailer;
    EndsWithMore(past, [0xA0, 0xA1], c);
    assert [0xA0, 0xA1] + [c] == [0xA0, 0xA1, c];
  }

  lemma {:induction false} Length2Reads(r: Rx, past: seq<Octet>, c: Octet, grant: Option<nat>)
    requires Owns(r) && Reads(r, past) && r.state.ReadLen2?
    ensures Reads(RxStep(r, c, grant), past + [c]) && RxStep(r, c, grant).log == r.log
  {
    hide Xor, EndsWith, Release, Store, Validate, HexValue, ReadsTrailer;
    EndsWithMore(past, [0xA0, 0xA1, r.length], c);
    assert [0xA0, 0xA1, r.length] + [c] == [0xA0, 0xA1, r.length, c] + [];
    assert (r.length * 256 + c) / 256 == r.length && (r.length * 256 + c) % 256 == c;
  }

  lemma {:induction false} StoreReads(r: Rx, past: seq<Octet>, c: Octet, grant: Option<nat>)
    requires Owns(r) && Reads(r, past) && (r.state.StoreBinary? || r.state.StoreNmea?)
    ensures Reads(RxStep(r, c, grant), past + [c]) && RxStep(r, c, grant).log == r.log
  {
    hide Xor, EndsWith, Checksum;
    var f := r.message.value;
    if |f.stored| < f.capacity {
      ChecksumMore(0, f.stored, c);
      var start := if r.state.StoreNmea? then [DOLLAR] else [0xA0, 0xA1, r.length / 256, r.length % 256];
      EndsWithMore(past, start + f.stored, c);
      assert start + f.stored + [c] == start + (f.stored + [c]);
      if r.state.StoreNmea? && c == STAR {
        var s := RxStep(r, c, grant);
        assert ReadsTrailer(s, f.stored) && EndsWith(past + [c], [DOLLAR] + f.stored + [STAR]);
      } else {
        StoresOne(r, c, grant);
      }
    }
  }

  /** The first digit of a sentence's checksum. */
  lemma {:induction false} DigitStored(r: Rx, c: Octet, grant: Option<nat>)
    requires Owns(r) && r.state.ReadCsumNmea?
    ensures var s := RxStep(r, c, grant);
            && s.log == r.log && s.message == r.message && s.csumCalc == r.csumCalc
            && if IsHexDigit(c) then s.state.ReadCsumNmea2? && s.csumRx % 16 == HexValue(c) else s.state.Unsync?
  {
    if IsHexDigit(c) {
      assert (r.csumRx * 16 % 256 + HexValue(c)) % 16 == HexValue(c);
    }
  }

  lemma {:induction false} DigitReads(r: Rx, past: seq<Octet>, c: Octet, grant: Option<nat>)
    requires Owns(r) && Reads(r, past) && r.state.ReadCsumNmea?
    ensures Owns(RxStep(r, c, grant))
    ensures Reads(RxStep(r, c, grant), past + [c]) && RxStep(r, c, grant).log == r.log
  {
    hide RxStep, EndsWith, Checksum, HexValue, IsHexDigit;
    StepOwns(r, c, grant);
    DigitStored(r, c, grant);
    if IsHexDigit(c) {
      var body :| ReadsTrailer(r, body) && EndsWith(past, [DOLLAR] + body + [STAR]);
      EndsWithMore(past, [DOLLAR] + body + [STAR], c);
      assert [DOLLAR] + body + [STAR] + [c] == [DOLLAR] + body + [STAR, c];
      assert ReadsTrailer(RxStep(r, c, grant), body);
    }
  }

  /** The last octet of a message delivers it only if the checksums agree. */
  lemma {:induction false} EndDelivers(r: Rx, c: Octet, grant: Option<nat>)
    requires Owns(r) && (r.state.ReadCsumNmea2? || r.state.ReadCsumBinary?)
    ensures var s := RxStep(r, c, grant);
            && s.state.Unsync?
            && (s.log != r.log ==>
                  && s.log == r.log + [Delivered(r.message.value.stored)]
                  && (r.state.ReadCsumBinary? ==> c == r.csumCalc)
                  && (r.state.ReadCsumNmea2? ==>
                        IsHexDigit(c) && r.csumRx % 16 * 16 + HexValue(c) == r.csumCalc))
  {
    assert r.csumRx * 16 % 256 == r.csumRx % 16 * 16;
    hide HexValue;
  }

  lemma {:induction false} BinaryEnds(r: Rx, past: seq<Octet>)
    requires r.message.Some? && ReadsBinary(r, past) && |r.message.value.stored| == r.length
    ensures WasReceived(past + [r.csumCalc], r.message.value.stored)
  {
    hide Xor, EndsWith, Checksum, WasReceived;
    var msg := r.message.value.stored;
    var wire := [0xA0, 0xA1, r.length / 256, r.length % 256] + msg;
    EndsWithMore(past, wire, r.csumCalc);
    assert OnLine(wire + [r.csumCalc], msg);
    ReceivedNow(past + [r.csumCalc], wire + [r.csumCalc], msg);
  }

  lemma {:induction false} SentenceEnds(past: seq<Octet>, body: seq<Octet>, hi: Octet, lo: Octet)
    requires STAR !in body && IsHexDigit(hi) && IsHexDigit(lo)
    requires HexValue(hi) * 16 + HexValue(lo) == Checksum(0, body)
    requires EndsWith(past, [DOLLAR] + body + [STAR, hi])
    ensures WasReceived(past + [lo], body + [0])
  {
    hide Xor, EndsWith, Checksum, WasReceived;
    var wire := [DOLLAR] + body + [STAR, hi];
    EndsWithMore(past, wire, lo);
    assert wire + [lo] == [DOLLAR] + body + [STAR, hi, lo];
    assert IsSentence(wire + [lo], body + [0], body, hi, lo);
    ReceivedNow(past + [lo], wire + [lo], body + [0]);
  }

  /** What the last octet of a message delivers was on the line. */
  lemma {:induction false} EndReads(r: Rx, past: seq<Octet>, c: Octet, grant: Option<nat>)
    requires Owns(r) && Reads(r, past) && (r.state.ReadCsumNmea2? || r.state.ReadCsumBinary?)
    ensures var s, msg := RxStep(r, c, grant), r.message.value.stored;
            && s.state.Unsync?
            && (s.log == r.log || (s.log == r.log + [Delivered(msg)] && WasReceived(past + [c], msg)))
  {
    hide RxStep, EndsWith, Checksum, WasReceived;
    EndDelivers(r, c, grant);
    if RxStep(r, c, grant).log != r.log {
      if r.state.ReadCsumBinary? {
        assert ReadsBinary(r, past) && |r.message.value.stored| == r.length;
        BinaryEnds(r, past);
      } else {
        var body, hi :| && ReadsTrailer(r, body) && EndsWith(past, [DOLLAR] + body + [STAR, hi])
                        && IsHexDigit(hi) && r.csumRx % 16 == HexValue(hi);
        SentenceEnds(past, body, hi, c);
      }
    }
  }

  lemma {:induction false} StepReads(r: Rx, past: seq<Octet>, c: Octet, grant: Option<nat>, from: nat)
    requires Owns(r) && Reads(r, past) && Genuine(r, past, from)
    ensures var s := RxStep(r, c, grant); Owns(s) && Reads(s, past + [c]) && Genuine(s, past + [c], from)
  {
    hide RxStep, WasReceived, EndsWith, Checksum;
    StepOwns(r, c, grant);
    forall i | from <= i < |r.log| && r.log[i].Delivered? ensures WasReceived(past + [c], r.log[i].message) {
      ReceivedStays(past, c, r.log[i].message);
    }
    match r.state
    case Unsync =>
      StartReads(r, past, c, grant);
      StartDeliversNothing(r, c, grant);
    case ReadCsumNmea => DigitReads(r, past, c, grant);
    case ReadCsumNmea2 => EndReads(r, past, c, grant);
    case ReadCsumBinary => EndReads(r, past, c, grant);
    case StoreNmea => StoreReads(r, past, c, grant);
    case StoreBinary => StoreReads(r, past, c, grant);
    case StartBinary => MarkerReads(r, past, c, grant);
    case ReadLen => LengthReads(r, past, c, grant);
    case ReadLen2 => Length2Reads(r, past, c, grant);
  }

  lemma {:induction false} StartDeliversNothing(r: Rx, c: Octet, grant: Option<nat>)
    requires Owns(r) && r.state.Unsync?
    ensures var s := RxStep(r, c, grant);
            r.log <= s.log && forall i | |r.log| <= i < |s.log| :: !s.log[i].Delivered?
  {
    hide Xor;
  }

  /** Whatever is received, all that is delivered was received as a whole frame or
      sentence with the right checksum. */
  lemma {:induction false} OnlyReceivedDelivered(r: Rx, past: seq<Octet>, input: seq<Input>, from: nat)
    requires Owns(r) && Reads(r, past) && Genuine(r, past, from)
    ensures Genuine(Feed(r, input), past + Octets(input), from)
    decreases |input|
  {
    hide RxStep, Reads, Genuine;
    if input == [] {
      assert past + Octets(input) == past;
    } else {
      var c, rest := input[0].c, input[1..];
      StepReads(r, past, c, input[0].grant, from);
      OnlyReceivedDelivered(RxStep(r, c, input[0].grant), past + [c], rest, from);
      assert past + [c] + Octets(rest) == past + Octets(input);
    }
  }
}
