/** The serial framing of the SkyTraq GPS driver (`src/sensors/skytraq.c`): the
    receive and transmit interrupt handlers as step functions on their state. */
module SkyTraq {

  import opened Bits
  import opened Options

  const DOLLAR: Octet := '$' as int
  const STAR: Octet := '*' as int

  predicate IsHexDigit(c: Octet) {
    0x30 <= c <= 0x39 || 0x41 <= c <= 0x46
  }

  function HexValue(c: Octet): Octet
    requires IsHexDigit(c)
  {
    if c <= 0x39 then c - 0x30 else 10 + c - 0x41
  }

  // ----- receiving -----

  datatype RxState =
    | Unsync
    | StartBinary
    | StoreNmea
    | StoreBinary
    | ReadCsumNmea
    | ReadCsumNmea2
    | ReadLen
    | ReadLen2
    | ReadCsumBinary

  /** A fragment of the pool: its capacity, and the octets stored so far, whose
      number is the driver's index. */
  datatype Fragment = Fragment(capacity: nat, stored: seq<Octet>)

  /** What happens to fragments, and what the application is told: Delivered with
      a message, Refused without one. */
  datatype Event =
    | Allocated(capacity: nat)
    | NoMemory
    | Delivered(message: seq<Octet>)
    | Refused(length: nat)
    | Dropped(stored: seq<Octet>)

  /** `sRxState`; `listening` says whether a serial callback is registered. */
  datatype Rx = Rx(
    state: RxState,
    csumCalc: Octet,
    csumRx: Octet,
    length: nat,
    message: Option<Fragment>,
    listening: bool,
    log: seq<Event>)

  /** The end of a message: it is handed over if its checksum matches and anybody
      listens, and is otherwise left for the next octet to release. */
  function Validate(r: Rx): Rx
    requires r.message.Some?
  {
    if r.csumRx == r.csumCalc && r.listening then
      r.(state := Unsync, message := None, log := r.log + [Delivered(r.message.value.stored)])
    else r.(state := Unsync)
  }

  /** Storing an octet, or giving the message up if the fragment is full. */
  function Store(r: Rx, c: Octet): Rx
    requires r.message.Some?
  {
    var f := r.message.value;
    if |f.stored| >= f.capacity then r.(state := Unsync)
    else
      var g := f.(stored := f.stored + [c]);
      r.(csumCalc := Xor(r.csumCalc, c), message := Some(g),
         state := if r.state.StoreBinary? && |g.stored| == r.length then ReadCsumBinary else r.state)
  }

  /** The callback without a message, to whoever listens. */
  function Refusal(r: Rx, length: nat): seq<Event> {
    if r.listening then [Refused(length)] else []
  }

  /** What was left of a message that was not delivered is announced and released. */
  function Release(r: Rx): Rx {
    if r.message.None? then r
    else
      var stored := r.message.value.stored;
      r.(message := None, log := r.log + Refusal(r, |stored|) + [Dropped(stored)])
  }

  /** `nmea_rx_isr_ni`; `grant` is the capacity of the fragment that the pool
      would give if asked, or none. */
  function RxStep(r: Rx, c: Octet, grant: Option<nat>): Rx
    requires !r.state.Unsync? ==> r.message.Some?
  {
    match r.state
    case Unsync =>
      var q := Release(r);
      if c != DOLLAR && c != 0xA0 then q
      else if grant.None? then q.(csumCalc := 0, log := q.log + [NoMemory] + Refusal(q, 0))
      else q.(state := if c == DOLLAR then StoreNmea else StartBinary, csumCalc := 0,
              message := Some(Fragment(grant.value, [])), log := q.log + [Allocated(grant.value)])
    case StoreNmea =>
      if c == STAR then
        var f := r.message.value;
        if |f.stored| >= f.capacity then r.(state := Unsync)
        else r.(message := Some(f.(stored := f.stored + [0])), state := ReadCsumNmea)
      else Store(r, c)
    case StoreBinary => Store(r, c)
    case StartBinary => r.(length := 0, state := if c == 0xA1 then ReadLen else Unsync)
    case ReadCsumNmea =>
      if !IsHexDigit(c) then r.(state := Unsync)
      else r.(csumRx := r.csumRx * 16 % 256 + HexValue(c), state := ReadCsumNmea2)
    case ReadCsumNmea2 =>
      if !IsHexDigit(c) then r.(state := Unsync)
      else Validate(r.(csumRx := r.csumRx * 16 % 256 + HexValue(c)))
    case ReadCsumBinary => Validate(r.(csumRx := c))
    case ReadLen => r.(length := c, state := ReadLen2)
    case ReadLen2 => r.(length := r.length * 256 % 0x1_0000 + c, state := StoreBinary)
  }

  /** One octet received, and what the pool would have given for it. */
  datatype Input = Input(c: Octet, grant: Option<nat>)

  function Feed(r: Rx, input: seq<Input>): Rx
    requires Owns(r)
    decreases |input|
  {
    if input == [] then r else Feed(RxStep(r, input[0].c, input[0].grant), input[1..])
  }

  /** Outside Unsync a fragment is owned and the index is within it. */
  predicate Owns(r: Rx) {
    && (!r.state.Unsync? ==> r.message.Some?)
    && (r.message.Some? ==> |r.message.value.stored| <= r.message.value.capacity)
  }

  // ----- sending -----

  datatype TxState = Idle | Sos1 | Sos2 | Len1 | Len2 | Message | Csum | Cr | Lf

  /** `sTxState`.  `msg` is the memory from the message pointer on, `len` the length
      given for it; `completed` are the values that the completion callback, if
      there is one, was called with. */
  datatype Tx = Tx(
    state: TxState,
    msg: seq<Octet>,
    len: nat,
    idx: nat,
    csum: Octet,
    callback: bool,
    completed: seq<int>)

  /** How many octets go by before the 16-bit index, stepped first, is the length. */
  function Sends(len: nat): nat {
    if len == 0 then 0x1_0000 else len
  }

  /** The length fits its type, and there is memory to read. */
  predicate Sendable(t: Tx) {
    && (!t.state.Idle? ==> t.len < 0x1_0000 && Sends(t.len) <= |t.msg|)
    && (t.state.Message? ==> t.idx < Sends(t.len))
  }

  /** An octet of the message was sent. */
  function NextOctet(t: Tx): (u: Tx)
    requires Sendable(t) && t.state.Message?
    ensures Sendable(u) && !u.state.Idle?
  {
    var next := (t.idx + 1) % 0x1_0000;
    t.(csum := Xor(t.csum, t.msg[t.idx]), idx := next, state := if next == t.len then Csum else Message)
  }

  /** `nmea_tx_isr_ni`: the octet to send, if it sets one. */
  function TxStep(t: Tx): (r: (Tx, Option<Octet>))
    requires Sendable(t)
    ensures Sendable(r.0) && (r.1.Some? <==> !t.state.Idle?)
  {
    match t.state
    case Sos1 => (t.(state := Sos2), Some(0xA0))
    case Sos2 => (t.(state := Len1), Some(0xA1))
    case Len1 => (t.(state := Len2), Some(t.len / 256 % 256))
    case Len2 => (t.(state := Message, idx := 0, csum := 0), Some(t.len % 256))
    case Message => (NextOctet(t), Some(t.msg[t.idx]))
    case Csum => (t.(state := Cr), Some(t.csum))
    case Cr => (t.(state := Lf), Some(0x0D))
    case Lf =>
      (t.(state := Idle, msg := [], completed := if t.callback then t.completed + [0] else t.completed), Some(0x0A))
    case Idle => (t.(msg := []), None)
  }

  /** `iBSP430gpsTransmit_ni` on an idle transmitter. */
  function Transmit(t: Tx, msg: seq<Octet>, len: nat, callback: bool): Tx {
    t.(msg := msg, len := len, idx := 0, state := Sos1, callback := callback)
  }

  /** The octets of the next `n` transmit interrupts of a busy transmitter. */
  function Emitted(t: Tx, n: nat): seq<Octet>
    requires Sendable(t)
    decreases n
  {
    if n == 0 || t.state.Idle? then [] else
      var (u, c) := TxStep(t);
      [c.value] + Emitted(u, n - 1)
  }

  function TxAfter(t: Tx, n: nat): Tx
    requires Sendable(t)
    decreases n
  {
    if n == 0 then t else TxAfter(TxStep(t).0, n - 1)
  }
}
