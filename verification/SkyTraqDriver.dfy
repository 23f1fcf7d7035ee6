/** The SkyTraq interrupt handlers over fragments of memory (`src/sensors/skytraq.c`). */
module SkyTraqDriver {
  import opened Bits
  import opened Options
  import opened SkyTraq
  import opened SkyTraqProofs

  ghost function Grant(fragment: array?<Octet>): Option<nat> {
    if fragment == null then None else Some(fragment.Length)
  }

  /** `sRxState`. */
  class Receiver {
    var state: RxState
    var csumCalc: Octet
    var csumRx: Octet
    var length: nat
    var message: array?<Octet>
    var idx: nat
    const listening: bool
    ghost var log: seq<Event>

    constructor (listening: bool)
      ensures Valid() && State() == Rx(Unsync, 0, 0, 0, None, listening, [])
    {
      this.listening := listening;
      state, csumCalc, csumRx, length := Unsync, 0, 0, 0;
      message, idx, log := null, 0, [];
    }

    ghost predicate Valid()
      reads this
    {
      && (state != Unsync ==> message != null)
      && (message != null ==> idx <= message.Length)
    }

    ghost function Held(): Option<Fragment>
      reads this, message
      requires Valid()
    {
      if message == null then None else Some(Fragment(message.Length, message[..idx]))
    }

    ghost function State(): Rx
      reads this, message
      requires Valid()
    {
      Rx(state, csumCalc, csumRx, length, Held(), listening, log)
    }

    /** `nmea_rx_isr_ni`; `fragment` is what the pool would give for a request. */
    method RxIsr(rxByte: Octet, fragment: array?<Octet>)
      requires Valid()
      modifies this, message
      ensures Valid() && State() == RxStep(old(State()), rxByte, Grant(fragment))
      ensures message == null || message == old(message) || message == fragment
    {
      hide Xor;
      match state
      case Unsync =>
        Start(rxByte, fragment);
      case StoreNmea =>
        if rxByte == STAR {
          if idx == message.Length {
            state := Unsync;
          } else {
            message[idx] := 0;
            idx, state := idx + 1, ReadCsumNmea;
            assert message[..idx] == old(message[..idx]) + [0];
          }
        } else {
          StoreOctet(rxByte);
        }
      case StoreBinary =>
        StoreOctet(rxByte);
      case StartBinary =>
        length := 0;
        state := if rxByte == 0xA1 then ReadLen else Unsync;
      case ReadCsumNmea =>
        if !IsHexDigit(rxByte) {
          state := Unsync;
        } else {
          csumRx, state := csumRx * 16 % 256 + HexValue(rxByte), ReadCsumNmea2;
        }
      case ReadCsumNmea2 =>
        if !IsHexDigit(rxByte) {
          state := Unsync;
        } else {
          csumRx := csumRx * 16 % 256 + HexValue(rxByte);
          Finish();
        }
      case ReadCsumBinary =>
        csumRx := rxByte;
        Finish();
      case ReadLen =>
        length, state := rxByte, ReadLen2;
      case ReadLen2 =>
        length, state := length * 256 % 0x1_0000 + rxByte, StoreBinary;
    }

    /** Between messages: release what was left, and start on a marker. */
    method Start(rxByte: Octet, fragment: array?<Octet>)
      requires Valid() && state == Unsync
      modifies this
      ensures Valid() && State() == RxStep(old(State()), rxByte, Grant(fragment))
      ensures message == null || message == fragment
    {
      if message != null {
        if listening {
          log := log + [Refused(idx)];
        }
        log := log + [Dropped(message[..idx])];
        message := null;
      }
      if rxByte == DOLLAR {
        state := StoreNmea;
      } else if rxByte == 0xA0 {
        state := StartBinary;
      } else {
        return;
      }
      idx, csumCalc := 0, 0;
      message := fragment;
      if message == null {
        state, log := Unsync, log + [NoMemory];
        if listening {
          log := log + [Refused(0)];
        }
      } else {
        log := log + [Allocated(message.Length)];
      }
    }

    method StoreOctet(rxByte: Octet)
      requires Valid() && message != null && (state == StoreNmea || state == StoreBinary)
      modifies this, message
      ensures Valid() && State() == Store(old(State()), rxByte) && message == old(message)
    {
      if idx == message.Length {
        state := Unsync;
        return;
      }
      hide Xor;
      csumCalc := Xor(csumCalc, rxByte);
      message[idx] := rxByte;
      idx := idx + 1;
      assert message[..idx] == old(message[..idx]) + [rxByte];
      if state == StoreBinary && idx == length {
        state := ReadCsumBinary;
      }
    }

    /** The `validate` label. */
    method Finish()
      requires Valid() && message != null
      modifies this
      ensures Valid() && State() == Validate(old(State()))
      ensures message == null || message == old(message)
    {
      if csumRx == csumCalc && listening {
        log := log + [Delivered(message[..idx])];
        message := null;
      }
      state := Unsync;
    }
  }

  /** `sTxState`.  `msg` is the memory from the message pointer on. */
  class Transmitter {
    var state: TxState
    var msg: seq<Octet>
    var len: nat
    var idx: nat
    var csum: Octet
    var callback: bool
    ghost var completed: seq<int>

    constructor ()
      ensures State() == Tx(Idle, [], 0, 0, 0, false, [])
    {
      state, msg, len, idx, csum := Idle, [], 0, 0, 0;
      callback, completed := false, [];
    }

    ghost function State(): Tx
      reads this
    {
      Tx(state, msg, len, idx, csum, callback, completed)
    }

    /** `iBSP430gpsTransmit_ni`. */
    method Start(message: seq<Octet>, length: nat, completeCb: bool) returns (rv: int)
      modifies this
      ensures old(state) != Idle ==> rv == -1 && State() == old(State())
      ensures old(state) == Idle ==> rv == 0 && State() == Transmit(old(State()), message, length, completeCb)
    {
      if state != Idle {
        return -1;
      }
      msg, len, idx, state, callback := message, length, 0, Sos1, completeCb;
      return 0;
    }

    /** `nmea_tx_isr_ni`: the octet to send, and whether the interrupt is to be
        disabled. */
    method TxIsr() returns (txByte: Option<Octet>, disable: bool)
      requires Sendable(State())
      modifies this
      ensures (State(), txByte) == TxStep(old(State())) && Sendable(State())
      ensures disable == State().state.Idle?
    {
      hide Xor;
      disable := false;
      match state
      case Sos1 => txByte, state := Some(0xA0), Sos2;
      case Sos2 => txByte, state := Some(0xA1), Len1;
      case Len1 => txByte, state := Some(len / 256 % 256), Len2;
      case Len2 =>
        txByte, state := Some(len % 256), Message;
        idx, csum := 0, 0;
      case Message =>
        txByte := Some(msg[idx]);
        csum := Xor(csum, msg[idx]);
        idx := (idx + 1) % 0x1_0000;
        if idx == len {
          state := Csum;
        }
      case Csum => txByte, state := Some(csum), Cr;
      case Cr => txByte, state := Some(0x0D), Lf;
      case Lf =>
        txByte := Some(0x0A);
        if callback {
          completed := completed + [0];
        }
        disable, msg, state := true, [], Idle;
      case Idle =>
        txByte := None;
        disable, msg, state := true, [], Idle;
    }

    /** The UART sending one message: an interrupt whenever it is ready, until the
        handler disables it. */
    method SendAll(message: seq<Octet>, length: nat, completeCb: bool) returns (line: seq<Octet>)
      requires state == Idle && length < 0x1_0000 && Sends(length) <= |message|
      modifies this
      ensures state == Idle
      ensures line == Frame(message[..length]) <==> 1 <= length
      ensures completed == if completeCb then old(completed) + [0] else old(completed)
    {
      hide Xor, TxStep, Emitted, IdleAfter, TxAfter;
      TransmitsFrameIffNotEmpty(State(), message, length, completeCb);
      var rc := Start(message, length, completeCb);
      ghost var t := State();
      ghost var left: nat := Sends(length) + 7;
      CompletionSaysZero(t, left);
      line := [];
      var disabled := false;
      while !disabled
        invariant Sendable(State()) && disabled == (state == Idle)
        invariant IdleAfter(State(), left) && TxAfter(State(), left) == TxAfter(t, Sends(length) + 7)
        invariant line + Emitted(State(), left) == Emitted(t, Sends(length) + 7)
        decreases left
      {
        OneInterrupt(State(), left);
        var txByte;
        txByte, disabled := TxIsr();
        line := line + [txByte.value];
        left := left - 1;
      }
      NoInterrupt(State(), left);
    }
  }
}
