/** Interrupt callback chains (`include/bsp430/periph.h:461-568`) and which alarms
    are on them (`src/periph/timer.c:536-575`). */
module Chains {
  import opened Lists

  // ----- chains of nodes -----

  /** Return values of callbacks are sets of bits. */
  type Flags = set<nat>

  const BREAK_CHAIN := 0

  /** A chain node; its callback always answers `result`. */
  class Node {
    const result: Flags
    var next: Node?

    constructor (result: Flags)
      ensures this.result == result && next == null
    {
      this.result, this.next := result, null;
    }
  }

  ghost function Nth(q: seq<Node>, i: nat): Node? {
    if i < |q| then q[i] else null
  }

  ghost predicate Linked(head: Node?, q: seq<Node>)
    reads q
  {
    && head == Nth(q, 0)
    && (forall i {:trigger q[i].next} | 0 <= i < |q| :: q[i].next == Nth(q, i + 1))
    && Distinct(q)
  }

  /** What the nodes answer, in order. */
  function Results(q: seq<Node>): (r: seq<Flags>)
    ensures |r| == |q| && forall i | 0 <= i < |r| :: r[i] == q[i].result
  {
    seq(|q|, i requires 0 <= i < |q| => q[i].result)
  }

  /** How many callbacks are called, given the flags so far. */
  function Called(results: seq<Flags>, basis: Flags): (k: nat)
    ensures k <= |results|
    decreases |results|
  {
    if results == [] || BREAK_CHAIN in basis then 0 else 1 + Called(results[1..], basis + results[0])
  }

  function Union(results: seq<Flags>): Flags
    decreases |results|
  {
    if results == [] then {} else results[0] + Union(results[1..])
  }

  class Chain {
    var root: Node?
    ghost var nodes: seq<Node>

    constructor ()
      ensures Valid() && nodes == []
    {
      root, nodes := null, [];
    }

    ghost predicate Valid()
      reads this, nodes
    {
      Linked(root, nodes)
    }

    /** BSP430_HAL_ISR_CALLBACK_LINK_NI. */
    method Link(node: Node)
      requires Valid() && node !in nodes
      modifies this, node
      ensures Valid() && nodes == [node] + old(nodes)
    {
      node.next := root;
      root := node;
      nodes := [node] + nodes;
      assert forall i | 0 < i < |nodes| :: nodes[i] == old(nodes)[i - 1] && nodes[i].next == old(nodes[i - 1].next);
    }

    /** BSP430_HAL_ISR_CALLBACK_UNLINK_NI. */
    method Unlink(node: Node)
      requires Valid()
      modifies this, nodes
      ensures Valid() && nodes == Remove(old(nodes), node)
      ensures node in old(nodes) ==> node.next == null
    {
      hide Remove;
      ghost var q := nodes;
      var prev: Node?, cur := null, root;
      ghost var k := 0;
      while cur != null && node != cur
        invariant k <= |q| && cur == Nth(q, k)
        invariant prev == if k == 0 then null else q[k - 1]
        invariant forall i | 0 <= i < k :: q[i] != node
        decreases |q| - k
      {
        assert cur.next == q[k].next;
        prev, cur, k := cur, cur.next, k + 1;
      }
      ghost var j := RemoveSplits(q, node);
      assert k == j;
      if node == cur {
        assert node.next == q[k].next;
        if prev == null {
          root := node.next;
        } else {
          prev.next := node.next;
        }
        node.next := null;
        nodes := q[..k] + q[k + 1..];
        RemoveDistinct(q, node);
        forall i | 0 <= i < |nodes| ensures nodes[i].next == Nth(nodes, i + 1) {
          assert nodes[i] == if i < k then q[i] else q[i + 1];
          assert Nth(nodes, i + 1) == if i + 1 < k then Nth(q, i + 1) else Nth(q, i + 2);
        }
      }
    }

    lemma {:induction false} NodesDistinct()
      requires Valid()
      ensures Distinct(nodes)
    {
    }

    /** `iBSP430callbackInvokeISRVoid_ni`. */
    method Invoke(basis0: Flags) returns (basis: Flags, ghost called: seq<Node>)
      requires Valid()
      ensures called == nodes[..Called(Results(nodes), basis0)]
      ensures basis == basis0 + Union(Results(called))
    {
      basis := basis0;
      var cb := root;
      ghost var k := 0;
      called := [];
      while cb != null && BREAK_CHAIN !in basis
        invariant k <= |nodes| && cb == Nth(nodes, k) && called == nodes[..k]
        invariant k + Called(Results(nodes)[k..], basis) == Called(Results(nodes), basis0)
        invariant basis == basis0 + Union(Results(called))
        decreases |nodes| - k
      {
        assert cb.next == nodes[k].next;
        assert Results(nodes)[k..][1..] == Results(nodes)[k + 1..];
        UnionGrows(Results(called), cb.result);
        assert Results(called + [cb]) == Results(called) + [cb.result];
        basis := basis + cb.result;
        called := called + [cb];
        cb := cb.next;
        k := k + 1;
      }
    }
  }

  lemma {:induction false} UnionGrows(r: seq<Flags>, f: Flags)
    ensures Union(r + [f]) == Union(r) + f
    decreases |r|
  {
    if r == [] {
      assert r + [f] == [f] && [f][1..] == [];
    } else {
      assert (r + [f])[1..] == r[1..] + [f];
      UnionGrows(r[1..], f);
    }
  }

  /** Exactly the prefix up to and including the first break is called: no callback
      before the last one called asks to break, and if any is not called, the one
      before it did, or the flags were broken from the start. */
  lemma {:induction false} CalledUpToFirstBreak(results: seq<Flags>, basis: Flags)
    ensures var k := Called(results, basis);
            && (k > 0 ==> BREAK_CHAIN !in basis)
            && (forall i | 0 <= i < k - 1 :: BREAK_CHAIN !in results[i])
            && (k < |results| ==> if k == 0 then BREAK_CHAIN in basis else BREAK_CHAIN in results[k - 1])
    decreases |results|
  {
    if results != [] && BREAK_CHAIN !in basis {
      var rest := results[1..];
      CalledUpToFirstBreak(rest, basis + results[0]);
      var k := Called(rest, basis + results[0]);
      assert Called(results, basis) == k + 1;
      forall i | 0 <= i < k ensures BREAK_CHAIN !in results[i] {
        if i > 0 {
          assert results[i] == rest[i - 1];
        }
      }
      assert k > 0 ==> results[k] == rest[k - 1];
    }
  }

  // ----- alarms on their chains -----

  /** The overflow chain of a timer, its capture/compare chains, and the alarms
      whose ENABLED flag is set; `ccidx` is the block of each alarm. */
  datatype Timer<!Id> = Timer(overflow: seq<Id>, cc: nat -> seq<Id>, enabled: set<Id>)

  /** `iBSP430timerAlarmSetEnabled_ni` as far as the chains go. */
  function SetEnabled<Id(==)>(t: Timer<Id>, ccidx: Id -> nat, alarm: Id, enable: bool): Timer<Id> {
    var c := ccidx(alarm);
    if enable && alarm !in t.enabled then
      Timer([alarm] + t.overflow, (i: nat) => if i == c then [alarm] + t.cc(c) else t.cc(i), t.enabled + {alarm})
    else if !enable && alarm in t.enabled then
      Timer(Remove(t.overflow, alarm), (i: nat) => if i == c then Remove(t.cc(c), alarm) else t.cc(i),
            t.enabled - {alarm})
    else t
  }

  /** Every alarm is on both its chains, once, iff its flag is set. */
  ghost predicate OnChainsIffEnabled<Id(!new)>(t: Timer<Id>, ccidx: Id -> nat) {
    && Distinct(t.overflow)
    && (forall a :: a in t.overflow <==> a in t.enabled)
    && (forall i: nat :: Distinct(t.cc(i)))
    && (forall a, i: nat :: a in t.cc(i) <==> a in t.enabled && ccidx(a) == i)
  }

  function SetAll<Id(==)>(t: Timer<Id>, ccidx: Id -> nat, calls: seq<(Id, bool)>): Timer<Id>
    decreases |calls|
  {
    if calls == [] then t else SetAll(SetEnabled(t, ccidx, calls[0].0, calls[0].1), ccidx, calls[1..])
  }

  lemma {:induction false} SetEnabledKeepsMembership<Id(!new)>(t: Timer<Id>, ccidx: Id -> nat, alarm: Id, enable: bool)
    requires OnChainsIffEnabled(t, ccidx)
    ensures OnChainsIffEnabled(SetEnabled(t, ccidx, alarm, enable), ccidx)
  {
    hide Remove;
    var c := ccidx(alarm);
    RemoveDistinct(t.overflow, alarm);
    RemoveDistinct(t.cc(c), alarm);
    if enable && alarm !in t.enabled {
      assert alarm !in t.overflow && alarm !in t.cc(c);
    }
  }

  /** The two chain nodes and the ENABLED flag of an alarm. */
  class AlarmNodes {
    const overflowCb: Node
    const ccCb: Node
    var enabled: bool

    constructor (overflowCb: Node, ccCb: Node)
      ensures this.overflowCb == overflowCb && this.ccCb == ccCb && !enabled
    {
      this.overflowCb, this.ccCb, enabled := overflowCb, ccCb, false;
    }
  }

  /** What enabling or disabling makes of one of the chains of an alarm. */
  function Relinked<Id(==)>(q: seq<Id>, node: Id, was: bool, enable: bool): seq<Id> {
    if enable && !was then [node] + q else if !enable && was then Remove(q, node) else q
  }

  /** `iBSP430timerAlarmSetEnabled_ni` on the chains of the alarm's timer. */
  method SetAlarmEnabled(overflow: Chain, cc: Chain, alarm: AlarmNodes, enablep: bool)
    requires overflow != cc && overflow.Valid() && cc.Valid()
    requires alarm.overflowCb != alarm.ccCb && alarm.ccCb !in overflow.nodes && alarm.overflowCb !in cc.nodes
    requires forall n | n in overflow.nodes :: n !in cc.nodes
    requires alarm.enabled <==> alarm.overflowCb in overflow.nodes
    requires alarm.enabled <==> alarm.ccCb in cc.nodes
    modifies overflow, cc, alarm, overflow.nodes, cc.nodes, alarm.overflowCb, alarm.ccCb
    ensures overflow.Valid() && cc.Valid() && alarm.enabled == enablep
    ensures overflow.nodes == Relinked(old(overflow.nodes), alarm.overflowCb, old(alarm.enabled), enablep)
    ensures cc.nodes == Relinked(old(cc.nodes), alarm.ccCb, old(alarm.enabled), enablep)
    ensures alarm.enabled <==> alarm.overflowCb in overflow.nodes
    ensures alarm.enabled <==> alarm.ccCb in cc.nodes
  {
    hide Remove;
    if enablep {
      if !alarm.enabled {
        overflow.Link(alarm.overflowCb);
        assert forall n | n in overflow.nodes :: n != alarm.ccCb && n !in cc.nodes;
        cc.Link(alarm.ccCb);
        label Linking: alarm.enabled := true;
        assert forall n: Node | n in overflow.nodes || n in cc.nodes :: n.next == old@Linking(n.next);
      }
    } else if alarm.enabled {
      RemoveDistinct(overflow.nodes, alarm.overflowCb) by { overflow.NodesDistinct(); }
      RemoveDistinct(cc.nodes, alarm.ccCb) by { cc.NodesDistinct(); }
      overflow.Unlink(alarm.overflowCb);
      assert forall n: Node | n in cc.nodes :: n.next == old(n.next);
      label Unlinking: cc.Unlink(alarm.ccCb);
      assert forall n: Node | n in overflow.nodes :: n.next == old@Unlinking(n.next);
      alarm.enabled := false;
    }
  }

  /** The value model above is what the code does to each chain. */
  lemma {:induction false} SetEnabledRelinks<Id(!new)>(t: Timer<Id>, ccidx: Id -> nat, alarm: Id, enable: bool)
    ensures var u, was := SetEnabled(t, ccidx, alarm, enable), alarm in t.enabled;
            && u.overflow == Relinked(t.overflow, alarm, was, enable)
            && u.cc(ccidx(alarm)) == Relinked(t.cc(ccidx(alarm)), alarm, was, enable)
            && (forall i: nat | i != ccidx(alarm) :: u.cc(i) == t.cc(i))
            && (alarm in u.enabled <==> enable)
            && (forall a | a != alarm :: a in u.enabled <==> a in t.enabled)
  {
  }

  /** Over any sequence of enabling and disabling, of any alarms, from empty chains. */
  lemma {:induction false} ChainMembership<Id(!new)>(t: Timer<Id>, ccidx: Id -> nat, calls: seq<(Id, bool)>)
    requires OnChainsIffEnabled(t, ccidx)
    ensures OnChainsIffEnabled(SetAll(t, ccidx, calls), ccidx)
    decreases |calls|
  {
    if calls != [] {
      SetEnabledKeepsMembership(t, ccidx, calls[0].0, calls[0].1);
      ChainMembership(SetEnabled(t, ccidx, calls[0].0, calls[0].1), ccidx, calls[1..]);
    }
  }
}
