/** Taking one node out of a singly linked list, on the sequence of its nodes. */
module Lists {

  ghost predicate Distinct<Id>(q: seq<Id>) {
    forall i, j | 0 <= i < j < |q| :: q[i] != q[j]
  }

  lemma {:induction false} DistinctFirst<Id>(x: Id, q: seq<Id>)
    requires Distinct(q) && x !in q
    ensures Distinct([x] + q)
  {
  }

  /** The list without its first `x`. */
  function Remove<Id(==)>(q: seq<Id>, x: Id): seq<Id> {
    if q == [] then [] else if q[0] == x then q[1..] else [q[0]] + Remove(q[1..], x)
  }

  lemma {:induction false} RemoveOne<Id>(q: seq<Id>, x: Id)
    requires q != []
    ensures Remove(q, x) == if q[0] == x then q[1..] else [q[0]] + Remove(q[1..], x)
  {
  }

  /** Dropping an element of the tail is dropping the one after it of the whole. */
  lemma {:induction false} CutInTail<Id>(q: seq<Id>, j: nat)
    requires j + 1 < |q|
    ensures [q[0]] + (q[1..][..j] + q[1..][j + 1..]) == q[..j + 1] + q[j + 2..]
  {
  }

  /** Removing takes out just the one x, and nothing else moves. */
  lemma {:induction false} RemoveSplits<Id>(q: seq<Id>, x: Id) returns (k: nat)
    ensures k <= |q| && (k < |q| <==> x in q) && (k < |q| ==> q[k] == x)
    ensures forall i | 0 <= i < k :: q[i] != x
    ensures Remove(q, x) == if k < |q| then q[..k] + q[k + 1..] else q
  {
    if q == [] {
      k := 0;
    } else {
      hide Remove;
      RemoveOne(q, x);
      if q[0] == x {
        k := 0;
      } else {
        var p := q[1..];
        var j := RemoveSplits(p, x);
        k := j + 1;
        assert forall i | 0 < i < |q| :: q[i] == p[i - 1];
        if j < |p| {
          CutInTail(q, j);
        } else {
          assert q == [q[0]] + p;
        }
      }
    }
  }

  lemma {:induction false} RemoveMiddle<Id>(a: seq<Id>, x: Id, b: seq<Id>)
    requires x !in a
    ensures Remove(a + [x] + b, x) == a + b
  {
    hide Remove;
    var q := a + [x] + b;
    var k := RemoveSplits(q, x);
    assert q[|a|] == x;
    assert forall i | 0 <= i < |a| :: q[i] == a[i] && a[i] in a;
  }

  lemma {:induction false} RemoveAbsent<Id>(q: seq<Id>, x: Id)
    requires x !in q
    ensures Remove(q, x) == q
  {
    hide Remove;
    var k := RemoveSplits(q, x);
  }

  lemma {:induction false} RemoveDistinct<Id>(q: seq<Id>, x: Id)
    requires Distinct(q)
    ensures Distinct(Remove(q, x)) && x !in Remove(q, x)
    ensures forall w :: w in Remove(q, x) <==> w in q && w != x
  {
    hide Remove;
    var k := RemoveSplits(q, x);
    if k < |q| {
      assert q == q[..k] + [x] + q[k + 1..];
      var r := Remove(q, x);
      forall i, j | 0 <= i < j < |r| ensures r[i] != r[j] {
        assert r[i] == (if i < k then q[i] else q[i + 1]) && r[j] == if j < k then q[j] else q[j + 1];
      }
    }
  }
}
