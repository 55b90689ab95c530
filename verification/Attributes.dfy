/**
  A persistent list of values keyed by their type.  Newer values shadow older
  ones of the same type; lists share their tails.
 */
module Attributes {
  import opened Bytes

  /** Type identifiers are ordered; nothing else is known of them. */
  type TypeId = nat

  datatype Value<P> = Value(typeId: TypeId, payload: P)

  class Node<P> {
    const value: Value<P>
    const next: Node?<P>
    ghost const age: nat

    ghost predicate Valid()
      decreases age
    {
      next != null ==> next.age < age && next.Valid()
    }

    constructor (value: Value<P>, next: Node?<P>)
      requires next != null ==> next.Valid()
      ensures Valid() && this.value == value && this.next == next
    {
      this.value, this.next := value, next;
      age := if next == null then 0 else next.age + 1;
    }
  }

  datatype Attributes<P> = Attributes(head: Node?<P>) {
    ghost predicate Valid() { head != null ==> head.Valid() }
  }

  /** The nodes of a list, newest first. */
  ghost function Chain<P>(n: Node?<P>): (c: seq<Node<P>>)
    requires n != null ==> n.Valid()
    decreases if n == null then 0 else n.age + 1
  {
    if n == null then [] else [n] + Chain(n.next)
  }

  ghost function Values<P>(n: Node?<P>): (vs: seq<Value<P>>)
    requires n != null ==> n.Valid()
    ensures |vs| == |Chain(n)| && forall i :: 0 <= i < |vs| ==> vs[i] == Chain(n)[i].value
    decreases if n == null then 0 else n.age + 1
  {
    if n == null then [] else [n.value] + Values(n.next)
  }

  // ----- What a list means -----

  /** The newest value of each type. */
  function AsMap<P>(vs: seq<Value<P>>): (m: map<TypeId, Value<P>>) {
    if vs == [] then map[] else AsMap(vs[1..])[vs[0].typeId := vs[0]]
  }

  function Lookup<P>(m: map<TypeId, Value<P>>, t: TypeId): (r: Option<Value<P>>) {
    if t in m then Some(m[t]) else None
  }

  /** The list without the values of type `t`. */
  function Without<P>(vs: seq<Value<P>>, t: TypeId): (r: seq<Value<P>>)
    ensures |r| <= |vs|
    ensures forall i :: 0 <= i < |r| ==> r[i] in vs && r[i].typeId != t
  {
    if vs == [] then []
    else if vs[0].typeId == t then Without(vs[1..], t)
    else [vs[0]] + Without(vs[1..], t)
  }

  /** The values of types outside `seen` that no newer value shadows, newest first. */
  function Live<P>(vs: seq<Value<P>>, seen: set<TypeId>): (r: seq<Value<P>>) {
    if vs == [] then []
    else if vs[0].typeId in seen then Live(vs[1..], seen)
    else [vs[0]] + Live(vs[1..], seen + {vs[0].typeId})
  }

  lemma {:induction false} WithoutConcat<P>(a: seq<Value<P>>, b: seq<Value<P>>, t: TypeId)
    ensures Without(a + b, t) == Without(a, t) + Without(b, t)
  {
    if a == [] {
      assert a + b == b;
    } else {
      WithoutConcat(a[1..], b, t);
      TailOfConcat(a, b);
    }
  }

  lemma {:induction false} WithoutAbsent<P>(vs: seq<Value<P>>, t: TypeId)
    requires forall i :: 0 <= i < |vs| ==> vs[i].typeId != t
    ensures Without(vs, t) == vs
  {
    if vs != [] {
      WithoutAbsent(vs[1..], t);
    }
  }

  lemma {:induction false} AsMapWithout<P>(vs: seq<Value<P>>, t: TypeId)
    ensures AsMap(Without(vs, t)) == AsMap(vs) - {t}
  {
    if vs != [] {
      AsMapWithout(vs[1..], t);
      if vs[0].typeId != t {
        assert Without(vs, t)[1..] == Without(vs[1..], t);
      }
    }
  }

  // ----- Operations -----

  method New<P>() returns (r: Attributes<P>)
    ensures r.Valid() && Values(r.head) == []
  {
    r := Attributes(null);
  }

  /** A new head in front of the whole old list. */
  method Add<P>(a: Attributes<P>, value: Value<P>) returns (r: Attributes<P>)
    requires a.Valid()
    ensures r.Valid() && r.head != null && fresh(r.head) && r.head.next == a.head
    ensures Values(r.head) == [value] + Values(a.head)
    ensures AsMap(Values(r.head)) == AsMap(Values(a.head))[value.typeId := value]
  {
    var node := new Node(value, a.head);
    r := Attributes(node);
    assert Values(r.head)[1..] == Values(a.head);
  }

  method Get<P>(a: Attributes<P>, t: TypeId) returns (r: Option<Value<P>>)
    requires a.Valid()
    ensures r == Lookup(AsMap(Values(a.head)), t)
  {
    var current := a.head;
    while current != null
      invariant current != null ==> current.Valid()
      invariant Lookup(AsMap(Values(a.head)), t) == Lookup(AsMap(Values(current)), t)
      decreases if current == null then 0 else current.age + 1
    {
      assert Values(current)[1..] == Values(current.next);
      if current.value.typeId == t {
        return Some(current.value);
      }
      current := current.next;
    }
    return None;
  }

  method Collect<P>(head: Node?<P>) returns (nodes: seq<Node<P>>)
    requires head != null ==> head.Valid()
    ensures nodes == Chain(head)
  {
    nodes := [];
    var current := head;
    while current != null
      invariant current != null ==> current.Valid()
      invariant Chain(head) == nodes + Chain(current)
      decreases if current == null then 0 else current.age + 1
    {
      Regroup(nodes, [current], Chain(current.next));
      nodes := nodes + [current];
      current := current.next;
    }
  }

  /** Every node of a list is itself the head of the rest of that list. */
  lemma {:induction false} ChainFrom<P>(n: Node?<P>, k: nat)
    requires (n != null ==> n.Valid()) && k < |Chain(n)|
    ensures Chain(n)[k].Valid() && Chain(Chain(n)[k].next) == Chain(n)[k + 1..]
    ensures Values(Chain(n)[k].next) == Values(n)[k + 1..]
    decreases k
  {
    if k > 0 {
      ChainFrom(n.next, k - 1);
      assert Chain(n)[1..] == Chain(n.next) && Values(n)[1..] == Values(n.next);
    }
  }

  /** Where the values older than every value of type `t` start. */
  function AfterOldest<P>(vs: seq<Value<P>>, t: TypeId): (n: nat)
    ensures n <= |vs|
    ensures forall j :: n <= j < |vs| ==> vs[j].typeId != t
    ensures n > 0 ==> vs[n - 1].typeId == t
  {
    if vs == [] then 0
    else
      var n := AfterOldest(vs[1..], t);
      if n > 0 then n + 1 else if vs[0].typeId == t then 1 else 0
  }

  /** The last nodes of `c` are the very nodes `tail`. */
  ghost predicate EndsWith<P>(c: seq<Node<P>>, tail: seq<Node<P>>) {
    |tail| <= |c| && c[|c| - |tail|..] == tail
  }

  lemma EndsWithMore<P>(x: Node<P>, c: seq<Node<P>>, tail: seq<Node<P>>)
    ensures EndsWith(tail, tail)
    ensures EndsWith(c, tail) ==> EndsWith([x] + c, tail)
  {
    if EndsWith(c, tail) {
      assert ([x] + c)[|c| + 1 - |tail|..] == c[|c| - |tail|..];
    }
  }

  method FindOldest<P>(nodes: seq<Node<P>>, ghost vs: seq<Value<P>>, t: TypeId) returns (r: Option<nat>)
    requires |vs| == |nodes| && forall i :: 0 <= i < |vs| ==> vs[i] == nodes[i].value
    ensures AfterOldest(vs, t) == if r.None? then 0 else r.value + 1
  {
    var k := |nodes|;
    while k > 0
      invariant 0 <= k <= |nodes| && forall j :: k <= j < |vs| ==> vs[j].typeId != t
    {
      k := k - 1;
      if nodes[k].value.typeId == t {
        return Some(k);
      }
    }
    return None;
  }

  lemma WithoutStep<P>(vs: seq<Value<P>>, i: nat, t: TypeId)
    requires i < |vs|
    ensures Without(vs[i..], t) == (if vs[i].typeId == t then [] else [vs[i]]) + Without(vs[i + 1..], t)
  {
    assert vs[i..][1..] == vs[i + 1..];
  }

  /** Rebuilds the nodes in front of `tail`, newest last, leaving out those of type `t`. */
  method Rebuild<P>(nodes: seq<Node<P>>, ghost vs: seq<Value<P>>, tail: Node?<P>, t: TypeId) returns (head: Node?<P>)
    requires |vs| == |nodes| && forall i :: 0 <= i < |vs| ==> vs[i] == nodes[i].value
    requires tail != null ==> tail.Valid()
    ensures head != null ==> head.Valid()
    ensures Values(head) == Without(vs, t) + Values(tail)
    ensures EndsWith(Chain(head), Chain(tail))
    ensures forall i :: 0 <= i < |Chain(head)| - |Chain(tail)| ==> fresh(Chain(head)[i])
  {
    head := tail;
    var i := |nodes|;
    assert Without(vs[|vs|..], t) + Values(tail) == Values(tail);
    hide Without;
    while i > 0
      invariant 0 <= i <= |nodes|
      invariant head != null ==> head.Valid()
      invariant Values(head) == Without(vs[i..], t) + Values(tail)
      invariant EndsWith(Chain(head), Chain(tail))
      invariant forall j :: 0 <= j < |Chain(head)| - |Chain(tail)| ==> fresh(Chain(head)[j])
    {
      i := i - 1;
      WithoutStep(vs, i, t);
      if nodes[i].value.typeId != t {
        Regroup([vs[i]], Without(vs[i + 1..], t), Values(tail));
        ghost var c := Chain(head);
        head := new Node(nodes[i].value, head);
        assert Chain(head) == [head] + c;
        EndsWithMore(head, c, Chain(tail));
      }
    }
    assert vs[0..] == vs;
  }

  lemma WithoutOldest<P>(vs: seq<Value<P>>, t: TypeId, k: nat)
    requires AfterOldest(vs, t) == k + 1
    ensures Without(vs, t) == Without(vs[..k], t) + vs[k + 1..]
  {
    var back := vs[k + 1..];
    assert vs == vs[..k] + ([vs[k]] + back);
    WithoutConcat(vs[..k], [vs[k]] + back, t);
    WithoutConcat([vs[k]], back, t);
    WithoutAbsent(back, t);
    assert Without([vs[k]], t) == [];
  }

  /**
    The tail-sharing removal is the plain filter: every value of the type is
    gone and the others keep their order.  The nodes older than the oldest such
    value are the same objects, the others are new, and with nothing to remove
    the list itself is returned.
   */
  method Remove<P>(a: Attributes<P>, t: TypeId) returns (r: Attributes<P>)
    requires a.Valid()
    ensures r.Valid() && Values(r.head) == Without(Values(a.head), t)
    ensures AsMap(Values(r.head)) == AsMap(Values(a.head)) - {t}
    ensures AfterOldest(Values(a.head), t) == 0 ==> r == a
    ensures var shared := Chain(a.head)[AfterOldest(Values(a.head), t)..];
            && EndsWith(Chain(r.head), shared)
            && forall i :: 0 <= i < |Chain(r.head)| - |shared| ==> fresh(Chain(r.head)[i])
  {
    var originals := Collect(a.head);
    ghost var vs := Values(a.head);
    AsMapWithout(vs, t);
    var oldest := FindOldest(originals, vs, t);
    if oldest.None? {
      WithoutAbsent(vs, t);
      return a;
    }
    var k := oldest.value;
    ChainFrom(a.head, k);
    WithoutOldest(vs, t, k);
    var head := Rebuild(originals[..k], vs[..k], originals[k].next, t);
    return Attributes(head);
  }
}
