/** Bytes, big-endian words and byte-string concatenation. */
module Bytes {

  datatype Option<+T> = None | Some(value: T)

  datatype Result<+T, +E> = Ok(value: T) | Err(error: E)

  type byte = b: int | 0 <= b < 256

  /** The big-endian 32-bit word in the first four bytes of `s`. */
  function ReadU32(s: seq<byte>): (n: nat)
    requires |s| >= 4
    ensures n < 0x1_0000_0000
  {
    s[0] as int * 0x100_0000 + s[1] as int * 0x1_0000 + s[2] as int * 0x100 + s[3] as int
  }

  function PutU32(n: nat): (s: seq<byte>)
    requires n < 0x1_0000_0000
    ensures |s| == 4 && ReadU32(s) == n
  {
    var a := n / 0x100;
    var b := a / 0x100;
    [b / 0x100, b % 0x100, a % 0x100, n % 0x100]
  }

  /** The word is big-endian: the first byte that differs decides. */
  lemma WordOrder(a: seq<byte>, b: seq<byte>, i: nat)
    requires |a| >= 4 && |b| >= 4 && i < 4
    requires (forall j :: 0 <= j < i ==> a[j] == b[j]) && a[i] != b[i]
    ensures ReadU32(a) < ReadU32(b) <==> a[i] < b[i]
  {
    assert i > 0 ==> a[0] == b[0];
    assert i > 1 ==> a[1] == b[1];
    assert i > 2 ==> a[2] == b[2];
  }

  /** The bytes of an ASCII text. */
  function Ascii(text: string): (b: seq<byte>)
    ensures |b| == |text|
  {
    seq(|text|, i requires 0 <= i < |text| => if text[i] < 128 as char then text[i] as int else 63)
  }

  lemma Regroup<T>(a: seq<T>, b: seq<T>, c: seq<T>)
    ensures a + (b + c) == a + b + c
  {
  }

  lemma TailOfConcat<T>(a: seq<T>, b: seq<T>)
    requires a != []
    ensures (a + b)[0] == a[0] && (a + b)[1..] == a[1..] + b
  {
  }

  lemma CutOfConcat<T>(a: seq<T>, b: seq<T>, n: nat)
    requires n <= |b|
    ensures (a + b)[..|a| + n] == a + b[..n] && (a + b)[|a| + n..] == b[n..]
  {
  }

  function Flatten(ss: seq<seq<byte>>): (s: seq<byte>) {
    if ss == [] then [] else ss[0] + Flatten(ss[1..])
  }

  lemma FlattenFirst(s: seq<byte>, ss: seq<seq<byte>>)
    ensures Flatten([s] + ss) == s + Flatten(ss)
  {
    assert ([s] + ss)[1..] == ss;
  }

  lemma {:induction false} FlattenConcat(a: seq<seq<byte>>, b: seq<seq<byte>>)
    ensures Flatten(a + b) == Flatten(a) + Flatten(b)
  {
    if a == [] {
      assert a + b == b;
    } else {
      FlattenConcat(a[1..], b);
      TailOfConcat(a, b);
      Regroup(a[0], Flatten(a[1..]), Flatten(b));
    }
  }
}
