/** Multiplexed alarms (`src/periph/timer.c:670-797`): many alarms share one
    dedicated alarm through a list sorted by time.  An entry is one adding of
    one alarm record; records may be added again once they are off the list. */
module MuxAlarm {

  datatype Entry<Id> = Entry(id: Id, due: int)

  datatype Event<Id> =
    | Added(entry: Entry<Id>)
    | Removed(entry: Entry<Id>)
    | Notified(entry: Entry<Id>, at: int)

  /** `pending` is the shared list; `firing` is what the running callback of the
      dedicated alarm has taken off that list and not yet notified. */
  datatype Mux<Id> = Mux(
    now: int,
    pending: seq<Entry<Id>>,
    firing: seq<Entry<Id>>,
    log: seq<Event<Id>>)

  function Ids<Id>(q: seq<Entry<Id>>): seq<Id> {
    seq(|q|, i requires 0 <= i < |q| => q[i].id)
  }

  /** `entry` goes after every entry that is due no later. */
  function Insert<Id>(q: seq<Entry<Id>>, entry: Entry<Id>): seq<Entry<Id>> {
    if q == [] || entry.due < q[0].due then [entry] + q
    else [q[0]] + Insert(q[1..], entry)
  }

  /** The position of record `id`, or the length if it is not in the list. */
  function Find<Id(==)>(q: seq<Entry<Id>>, id: Id): (k: nat)
    ensures k <= |q| && (k < |q| ==> q[k].id == id)
    ensures forall i | 0 <= i < k :: q[i].id != id
  {
    if q == [] || q[0].id == id then 0 else 1 + Find(q[1..], id)
  }

  /** The list with its first entry for `id` unlinked. */
  function Without<Id(==)>(q: seq<Entry<Id>>, id: Id): seq<Entry<Id>> {
    var k := Find(q, id);
    if k < |q| then q[..k] + q[k + 1..] else q
  }

  /** How many leading entries are due at `now`. */
  function DueCount<Id>(q: seq<Entry<Id>>, now: int): (k: nat)
    ensures k <= |q|
  {
    if q == [] || now < q[0].due then 0 else 1 + DueCount(q[1..], now)
  }

  // ----- steps -----

  /** Adding and removing happen in application code or in a notified callback;
      collecting and notifying are the dedicated alarm's callback, which the
      dedicated alarm may call early. */
  datatype Step<Id> =
    | Advance(ticks: nat)
    | Add(entry: Entry<Id>)
    | Remove(id: Id)
    | Collect
    | Notify

  /** A record on a list must not be added; the callback does not nest. */
  predicate Enabled<Id(==)>(m: Mux<Id>, step: Step<Id>) {
    match step
    case Add(entry) => entry.id !in Ids(m.firing + m.pending)
    case Collect => m.firing == []
    case Notify => m.firing != []
    case _ => true
  }

  function Apply<Id(==)>(m: Mux<Id>, step: Step<Id>): Mux<Id>
    requires Enabled(m, step)
  {
    match step
    case Advance(ticks) => m.(now := m.now + ticks)
    case Add(entry) => m.(pending := Insert(m.pending, entry), log := m.log + [Added(entry)])
    case Remove(id) =>
      var k := Find(m.pending, id);
      m.(pending := Without(m.pending, id),
         log := if k < |m.pending| then m.log + [Removed(m.pending[k])] else m.log)
    case Collect =>
      var k := DueCount(m.pending, m.now);
      m.(firing := m.pending[..k], pending := m.pending[k..])
    case Notify =>
      m.(firing := m.firing[1..], log := m.log + [Notified(m.firing[0], m.now)])
  }

  predicate Runs<Id(==)>(m: Mux<Id>, steps: seq<Step<Id>>)
    decreases |steps|
  {
    steps == [] || (Enabled(m, steps[0]) && Runs(Apply(m, steps[0]), steps[1..]))
  }

  function After<Id(==)>(m: Mux<Id>, steps: seq<Step<Id>>): Mux<Id>
    requires Runs(m, steps)
    decreases |steps|
  {
    if steps == [] then m else After(Apply(m, steps[0]), steps[1..])
  }
}
