/** HTTP header maps: lower-case names, each with one or more values. */
module Headers {
  import opened Bytes

  type Name = seq<byte>
  type Value = seq<byte>

  /** The values of each name, oldest first. */
  type HeaderMap = map<Name, seq<Value>>

  predicate IsUpper(b: byte) { 'A' as int <= b <= 'Z' as int }

  /** Token bytes of RFC 9110, section 5.6.2. */
  predicate IsTokenByte(b: byte) {
    || '0' as int <= b <= '9' as int
    || IsUpper(b)
    || 'a' as int <= b <= 'z' as int
    || b == '!' as int || b == '#' as int || b == '$' as int || b == '%' as int || b == '&' as int
    || b == '\'' as int || b == '*' as int || b == '+' as int || b == '-' as int || b == '.' as int
    || b == '^' as int || b == '_' as int || b == '`' as int || b == '|' as int || b == '~' as int
  }

  predicate IsNameByte(b: byte) { IsTokenByte(b) && !IsUpper(b) }

  predicate IsName(n: Name) {
    1 <= |n| <= 65535 && forall i :: 0 <= i < |n| ==> IsNameByte(n[i])
  }

  predicate IsValueByte(b: byte) { b == 9 || (32 <= b && b != 127) }

  predicate IsValue(v: Value) { forall i :: 0 <= i < |v| ==> IsValueByte(v[i]) }

  predicate IsHeaderMap(m: HeaderMap) {
    forall k :: k in m ==> IsName(k) && m[k] != [] && forall v :: v in m[k] ==> IsValue(v)
  }

  function Lower(b: byte): (r: byte) { if IsUpper(b) then b + 32 else b }

  /** Parses a header name; upper-case letters are folded to lower case. */
  function ParseName(k: seq<byte>): (r: Option<Name>)
    ensures r.Some? ==> IsName(r.value) && |r.value| == |k|
    ensures IsName(k) ==> r == Some(k)
  {
    if 1 <= |k| <= 65535 && forall i :: 0 <= i < |k| ==> IsTokenByte(k[i])
    then
      var n: seq<byte> := seq(|k|, i requires 0 <= i < |k| => Lower(k[i]));
      assert IsName(k) ==> n == k;
      Some(n)
    else None
  }

  function Get(m: HeaderMap, k: Name): (r: Option<Value>) {
    if k in m && m[k] != [] then Some(m[k][0]) else None
  }

  /** Replaces every value of `k` by the single value `v`. */
  function Insert(m: HeaderMap, k: Name, v: Value): (r: HeaderMap) { m[k := [v]] }

  function FieldValue(item: (Name, Value), k: Name): (r: seq<Value>) {
    if item.0 == k then [item.1] else []
  }

  /** The values that a list of header fields gives to `k`, in order. */
  function ValuesOf(items: seq<(Name, Value)>, k: Name): (r: seq<Value>) {
    if items == [] then [] else FieldValue(items[0], k) + ValuesOf(items[1..], k)
  }

  /** `items` is one order in which the fields of `m` can be visited. */
  predicate IsIteration(items: seq<(Name, Value)>, m: HeaderMap) {
    && (forall i :: 0 <= i < |items| ==> items[i].0 in m)
    && (forall k :: k in m ==> ValuesOf(items, k) == m[k])
  }

  lemma {:induction false} ValuesOfConcat(a: seq<(Name, Value)>, b: seq<(Name, Value)>, k: Name)
    ensures ValuesOf(a + b, k) == ValuesOf(a, k) + ValuesOf(b, k)
  {
    if a == [] {
      assert a + b == b;
    } else {
      ValuesOfConcat(a[1..], b, k);
      TailOfConcat(a, b);
      Regroup(FieldValue(a[0], k), ValuesOf(a[1..], k), ValuesOf(b, k));
    }
  }

  lemma {:induction false} ValuesOfMember(items: seq<(Name, Value)>, i: nat)
    requires i < |items|
    ensures items[i].1 in ValuesOf(items, items[i].0)
  {
    if i > 0 {
      ValuesOfMember(items[1..], i - 1);
    }
  }

  /** Every field of a valid map has a valid name and a valid value. */
  lemma IterationValid(items: seq<(Name, Value)>, m: HeaderMap)
    requires IsHeaderMap(m) && IsIteration(items, m)
    ensures forall i :: 0 <= i < |items| ==> IsName(items[i].0) && IsValue(items[i].1)
  {
    forall i | 0 <= i < |items| ensures IsName(items[i].0) && IsValue(items[i].1) {
      ValuesOfMember(items, i);
    }
  }
}
