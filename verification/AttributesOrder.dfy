/** Iteration over, equality of and histories of attribute lists. */
module AttributesOrder {
  import opened Bytes
  import opened Attributes

  // ----- Iteration -----

  /** The iterator: where it is, and the types it has already yielded or skipped. */
  class Iter<P> {
    var current: Node?<P>
    var seen: set<TypeId>

    ghost predicate Valid()
      reads this
    {
      current != null ==> current.Valid()
    }

    /** The values that are still to come. */
    ghost function Rest(): (r: seq<Value<P>>)
      requires Valid()
      reads this
    {
      Live(Values(current), seen)
    }

    constructor (a: Attributes<P>)
      requires a.Valid()
      ensures Valid() && Rest() == Live(Values(a.head), {})
    {
      current, seen := a.head, {};
    }

    method Next() returns (r: Option<Value<P>>)
      requires Valid()
      modifies this
      ensures Valid()
      ensures old(Rest()) == [] ==> r.None? && Rest() == []
      ensures old(Rest()) != [] ==> r == Some(old(Rest())[0]) && Rest() == old(Rest())[1..]
    {
      while current != null
        invariant Valid() && Rest() == old(Rest())
        decreases if current == null then 0 else current.age + 1
      {
        var node := current;
        assert Values(node)[1..] == Values(node.next);
        current := node.next;
        if node.value.typeId !in seen {
          seen := seen + {node.value.typeId};
          return Some(node.value);
        }
      }
      return None;
    }
  }

  /** Position of the newest value of type `t`; the length when there is none. */
  function FirstIndex<P>(vs: seq<Value<P>>, t: TypeId): (i: nat) {
    if vs == [] || vs[0].typeId == t then 0 else 1 + FirstIndex(vs[1..], t)
  }

  /** A type is among the live values exactly when it is in the list and not yet seen. */
  lemma {:induction false} LiveTypes<P>(vs: seq<Value<P>>, seen: set<TypeId>, t: TypeId)
    ensures t in AsMap(Live(vs, seen)) <==> t in AsMap(vs) && t !in seen
    ensures t in AsMap(vs) && t !in seen ==> AsMap(Live(vs, seen))[t] == AsMap(vs)[t]
    decreases |vs|
  {
    if vs != [] {
      if vs[0].typeId in seen {
        LiveTypes(vs[1..], seen, t);
      } else {
        LiveTypes(vs[1..], seen + {vs[0].typeId}, t);
        assert Live(vs, seen)[1..] == Live(vs[1..], seen + {vs[0].typeId});
      }
    }
  }

  predicate Distinct<P>(vs: seq<Value<P>>) {
    forall i, j :: 0 <= i < j < |vs| ==> vs[i].typeId != vs[j].typeId
  }

  lemma {:induction false} InMap<P>(vs: seq<Value<P>>, i: nat)
    requires i < |vs|
    ensures vs[i].typeId in AsMap(vs)
    ensures (forall j :: 0 <= j < i ==> vs[j].typeId != vs[i].typeId) ==> AsMap(vs)[vs[i].typeId] == vs[i]
  {
    if i > 0 {
      InMap(vs[1..], i - 1);
    }
  }

  lemma {:induction false} LiveDistinct<P>(vs: seq<Value<P>>, seen: set<TypeId>)
    ensures Distinct(Live(vs, seen))
    ensures forall i :: 0 <= i < |Live(vs, seen)| ==> Live(vs, seen)[i].typeId !in seen
    decreases |vs|
  {
    if vs != [] {
      if vs[0].typeId in seen {
        LiveDistinct(vs[1..], seen);
      } else {
        LiveDistinct(vs[1..], seen + {vs[0].typeId});
      }
    }
  }

  /** Live values come in the order of the list: newest first. */
  lemma {:induction false} LiveInOrder<P>(vs: seq<Value<P>>, seen: set<TypeId>, i: nat, j: nat)
    requires i < j < |Live(vs, seen)|
    ensures FirstIndex(vs, Live(vs, seen)[i].typeId) < FirstIndex(vs, Live(vs, seen)[j].typeId)
    decreases |vs|
  {
    var live := Live(vs, seen);
    LiveDistinct(vs, seen);
    if vs[0].typeId in seen {
      LiveInOrder(vs[1..], seen, i, j);
      assert live[i].typeId !in seen && live[j].typeId !in seen;
    } else {
      assert live[1..] == Live(vs[1..], seen + {vs[0].typeId});
      assert live[0] == vs[0] && live[j].typeId != live[0].typeId;
      if i > 0 {
        assert live[i].typeId != live[0].typeId;
        LiveInOrder(vs[1..], seen + {vs[0].typeId}, i - 1, j - 1);
      }
    }
  }

  /** Iteration yields each type of the map once, newest first, with the value that a lookup finds. */
  lemma IterationMeaning<P>(vs: seq<Value<P>>)
    ensures var live := Live(vs, {});
            && Distinct(live)
            && AsMap(live) == AsMap(vs)
            && (forall i :: 0 <= i < |live| ==> Lookup(AsMap(vs), live[i].typeId) == Some(live[i]))
            && (forall i, j :: 0 <= i < j < |live| ==> FirstIndex(vs, live[i].typeId) < FirstIndex(vs, live[j].typeId))
  {
    var live := Live(vs, {});
    LiveDistinct(vs, {});
    forall t ensures (t in AsMap(live) <==> t in AsMap(vs)) && (t in AsMap(vs) ==> AsMap(live)[t] == AsMap(vs)[t]) {
      LiveTypes(vs, {}, t);
    }
    assert AsMap(live) == AsMap(vs);
    forall i | 0 <= i < |live| ensures Lookup(AsMap(vs), live[i].typeId) == Some(live[i]) {
      InMap(live, i);
    }
    forall i, j | 0 <= i < j < |live| ensures FirstIndex(vs, live[i].typeId) < FirstIndex(vs, live[j].typeId) {
      LiveInOrder(vs, {}, i, j);
    }
  }

  // ----- Equality -----

  /** Each stored type brings its own equality. */
  type Equality<!P> = (TypeId, P, P) -> bool

  /** Stands for the library's stable sort by key. */
  function Insert<P>(v: Value<P>, s: seq<Value<P>>): (r: seq<Value<P>>) {
    if s == [] || v.typeId <= s[0].typeId then [v] + s else [s[0]] + Insert(v, s[1..])
  }

  function SortById<P>(vs: seq<Value<P>>): (r: seq<Value<P>>) {
    if vs == [] then [] else Insert(vs[0], SortById(vs[1..]))
  }

  predicate Increasing<P>(s: seq<Value<P>>) {
    forall i, j :: 0 <= i < j < |s| ==> s[i].typeId < s[j].typeId
  }

  lemma {:induction false} InsertMeaning<P>(v: Value<P>, s: seq<Value<P>>)
    requires Increasing(s) && v.typeId !in AsMap(s)
    ensures Increasing(Insert(v, s)) && AsMap(Insert(v, s)) == AsMap(s)[v.typeId := v]
    ensures |Insert(v, s)| == |s| + 1
  {
    if s == [] {
    } else if v.typeId <= s[0].typeId {
      assert ([v] + s)[1..] == s;
    } else {
      var rest := Insert(v, s[1..]);
      InsertMeaning(v, s[1..]);
      assert ([s[0]] + rest)[1..] == rest;
      forall i | 0 <= i < |rest| ensures s[0].typeId < rest[i].typeId {
        InMap(rest, i);
        KeysAbove(s[1..], s[0].typeId, rest[i].typeId);
      }
    }
  }

  lemma {:induction false} KeysAbove<P>(s: seq<Value<P>>, low: TypeId, t: TypeId)
    requires forall i :: 0 <= i < |s| ==> low < s[i].typeId
    ensures t in AsMap(s) ==> low < t
  {
    if s != [] {
      KeysAbove(s[1..], low, t);
    }
  }

  lemma {:induction false} NotInMap<P>(vs: seq<Value<P>>, t: TypeId)
    requires forall i :: 0 <= i < |vs| ==> vs[i].typeId != t
    ensures t !in AsMap(vs)
  {
    if vs != [] {
      NotInMap(vs[1..], t);
    }
  }

  lemma {:induction false} SortMeaning<P>(vs: seq<Value<P>>)
    requires Distinct(vs)
    ensures Increasing(SortById(vs)) && AsMap(SortById(vs)) == AsMap(vs)
    ensures |SortById(vs)| == |vs|
  {
    if vs != [] {
      SortMeaning(vs[1..]);
      NotInMap(vs[1..], vs[0].typeId);
      InsertMeaning(vs[0], SortById(vs[1..]));
    }
  }

  predicate ZipAll<P>(s: seq<Value<P>>, t: seq<Value<P>>, eq: Equality<P>)
    requires |s| == |t|
  {
    forall i :: 0 <= i < |s| ==> s[i].typeId == t[i].typeId && eq(s[i].typeId, s[i].payload, t[i].payload)
  }

  function Sorted<P>(vs: seq<Value<P>>): (r: seq<Value<P>>) { SortById(Live(vs, {})) }

  /** The comparison by sorting and zipping. */
  predicate ZipEqual<P>(s: seq<Value<P>>, t: seq<Value<P>>, eq: Equality<P>) {
    |s| == |t| && ZipAll(s, t, eq)
  }

  /** Two maps with the same types and equal values. */
  ghost predicate SameMap<P>(m: map<TypeId, Value<P>>, n: map<TypeId, Value<P>>, eq: Equality<P>) {
    m.Keys == n.Keys && forall t :: t in m ==> eq(t, m[t].payload, n[t].payload)
  }

  /** The value kept under a type has that type. */
  lemma {:induction false} MapTyped<P>(vs: seq<Value<P>>, t: TypeId)
    requires t in AsMap(vs)
    ensures AsMap(vs)[t].typeId == t
  {
    if vs[0].typeId != t {
      MapTyped(vs[1..], t);
    }
  }

  lemma TailMap<P>(s: seq<Value<P>>)
    requires s != [] && Increasing(s)
    ensures AsMap(s[1..]) == AsMap(s) - {s[0].typeId} && Increasing(s[1..])
  {
    NotInMap(s[1..], s[0].typeId);
  }

  /** The smallest type of a sorted list is its first. */
  lemma LeastFirst<P>(s: seq<Value<P>>, t: TypeId)
    requires s != [] && Increasing(s) && t in AsMap(s)
    ensures s[0].typeId <= t
  {
    if s[0].typeId != t {
      KeysAbove(s[1..], s[0].typeId, t);
    }
  }

  lemma {:induction false} ZipIsSameMap<P>(s: seq<Value<P>>, t: seq<Value<P>>, eq: Equality<P>)
    requires Increasing(s) && Increasing(t)
    ensures ZipEqual(s, t, eq) <==> SameMap(AsMap(s), AsMap(t), eq)
  {
    if s == [] || t == [] {
      if s != [] {
        assert s[0].typeId in AsMap(s);
      }
      if t != [] {
        assert t[0].typeId in AsMap(t);
      }
    } else {
      TailMap(s);
      TailMap(t);
      ZipIsSameMap(s[1..], t[1..], eq);
      ZipHead(s, t, eq);
      if SameMap(AsMap(s), AsMap(t), eq) {
        assert s[0].typeId in AsMap(t) && t[0].typeId in AsMap(s);
        LeastFirst(s, t[0].typeId);
        LeastFirst(t, s[0].typeId);
      }
    }
  }

  lemma ZipHead<P>(s: seq<Value<P>>, t: seq<Value<P>>, eq: Equality<P>)
    requires s != [] && t != []
    ensures ZipEqual(s, t, eq) <==>
            && s[0].typeId == t[0].typeId
            && eq(s[0].typeId, s[0].payload, t[0].payload)
            && ZipEqual(s[1..], t[1..], eq)
  {
    if ZipEqual(s[1..], t[1..], eq) && s[0].typeId == t[0].typeId && eq(s[0].typeId, s[0].payload, t[0].payload) {
      forall i | 0 <= i < |s|
        ensures s[i].typeId == t[i].typeId && eq(s[i].typeId, s[i].payload, t[i].payload)
      {
        if i > 0 {
          assert s[1..][i - 1] == s[i] && t[1..][i - 1] == t[i];
        }
      }
    }
    if ZipEqual(s, t, eq) {
      forall i | 0 <= i < |s[1..]|
        ensures s[1..][i].typeId == t[1..][i].typeId && eq(s[1..][i].typeId, s[1..][i].payload, t[1..][i].payload)
      {
        assert s[1..][i] == s[i + 1] && t[1..][i] == t[i + 1];
      }
    }
  }

  method CollectSorted<P>(a: Attributes<P>) returns (v: seq<Value<P>>)
    requires a.Valid()
    ensures v == Sorted(Values(a.head))
  {
    var iter := new Iter(a);
    ghost var all := iter.Rest();
    v := [];
    var item := iter.Next();
    while item.Some?
      invariant iter.Valid()
      invariant item.Some? ==> all == v + [item.value] + iter.Rest()
      invariant item.None? ==> all == v
      decreases |all| - |v|
    {
      v := v + [item.value];
      item := iter.Next();
    }
    v := SortById(v);
  }

  /**
    Sort-and-zip equality is equality of the maps: insertion order and shadowed
    values play no part.
   */
  method Equal<P>(a: Attributes<P>, b: Attributes<P>, eq: Equality<P>) returns (r: bool)
    requires a.Valid() && b.Valid()
    ensures r <==> SameMap(AsMap(Values(a.head)), AsMap(Values(b.head)), eq)
  {
    var v1 := CollectSorted(a);
    var v2 := CollectSorted(b);
    EqualityExtensional(Values(a.head), Values(b.head), eq);
    if |v1| != |v2| {
      return false;
    }
    r := true;
    for i := 0 to |v1|
      invariant r <==> forall j :: 0 <= j < i ==> v1[j].typeId == v2[j].typeId && eq(v1[j].typeId, v1[j].payload, v2[j].payload)
    {
      r := r && v1[i].typeId == v2[i].typeId && eq(v1[i].typeId, v1[i].payload, v2[i].payload);
    }
  }

  lemma EqualityExtensional<P>(vs: seq<Value<P>>, ws: seq<Value<P>>, eq: Equality<P>)
    ensures ZipEqual(Sorted(vs), Sorted(ws), eq) <==> SameMap(AsMap(vs), AsMap(ws), eq)
  {
    IterationMeaning(vs);
    IterationMeaning(ws);
    SortMeaning(Live(vs, {}));
    SortMeaning(Live(ws, {}));
    ZipIsSameMap(Sorted(vs), Sorted(ws), eq);
  }

  ghost predicate IsEquivalence<P(!new)>(eq: Equality<P>) {
    && (forall t, x :: eq(t, x, x))
    && (forall t, x, y :: eq(t, x, y) ==> eq(t, y, x))
    && (forall t, x, y, z :: eq(t, x, y) && eq(t, y, z) ==> eq(t, x, z))
  }

  /** When each type's equality is an equivalence, so is the equality of attribute lists. */
  lemma EqualityIsEquivalence<P(!new)>(u: seq<Value<P>>, v: seq<Value<P>>, w: seq<Value<P>>, eq: Equality<P>)
    requires IsEquivalence(eq)
    ensures ZipEqual(Sorted(u), Sorted(u), eq)
    ensures ZipEqual(Sorted(u), Sorted(v), eq) ==> ZipEqual(Sorted(v), Sorted(u), eq)
    ensures ZipEqual(Sorted(u), Sorted(v), eq) && ZipEqual(Sorted(v), Sorted(w), eq) ==> ZipEqual(Sorted(u), Sorted(w), eq)
  {
    EqualityExtensional(u, u, eq);
    EqualityExtensional(u, v, eq);
    EqualityExtensional(v, u, eq);
    EqualityExtensional(v, w, eq);
    EqualityExtensional(u, w, eq);
    hide ZipEqual, Sorted;
  }

  // ----- Histories -----

  datatype Op<P> = AddOp(value: Value<P>) | RemoveOp(typeId: TypeId)

  /** The list that a history of operations builds, the last operation first in `ops`. */
  function Built<P>(ops: seq<Op<P>>): (vs: seq<Value<P>>) {
    if ops == [] then []
    else
      match ops[0]
      case AddOp(v) => [v] + Built(ops[1..])
      case RemoveOp(t) => Without(Built(ops[1..]), t)
  }

  /** The latest operation on a type decides what a plain map holds for it. */
  function Latest<P>(ops: seq<Op<P>>, t: TypeId): (r: Option<Value<P>>) {
    if ops == [] then None
    else
      match ops[0]
      case AddOp(v) => if v.typeId == t then Some(v) else Latest(ops[1..], t)
      case RemoveOp(u) => if u == t then None else Latest(ops[1..], t)
  }

  /** After every history, a lookup finds the value that the latest operation on the type left. */
  lemma {:induction false} HistoryMeaning<P>(ops: seq<Op<P>>, t: TypeId)
    ensures Lookup(AsMap(Built(ops)), t) == Latest(ops, t)
  {
    if ops != [] {
      HistoryMeaning(ops[1..], t);
      match ops[0]
      case AddOp(v) => assert Built(ops)[1..] == Built(ops[1..]);
      case RemoveOp(u) => AsMapWithout(Built(ops[1..]), u);
    }
  }
}
