/**
  Length-prefixed frames inside a gRPC-Web body: one flag byte, a big-endian
  32-bit payload length, the payload.  Flags 0 and 1 mark messages, 0x80 marks
  the trailers frame.
 */
module WebFrame {
  import opened Bytes

  const HEADER_SIZE := 5
  const TRAILERS_BIT: byte := 0x80

  predicate IsMessageFlag(b: byte) { b == 0 || b == 1 }

  /** Total length (header and payload) announced by the first frame header. */
  function FrameTotalLen(buf: seq<byte>): (r: Option<nat>)
    ensures r.None? <==> |buf| < HEADER_SIZE
    ensures r.Some? ==> r.value >= HEADER_SIZE
  {
    if |buf| < HEADER_SIZE then None else Some(HEADER_SIZE + ReadU32(buf[1..5]))
  }

  /** `f` is exactly one message frame. */
  predicate IsMessage(f: seq<byte>) {
    |f| >= HEADER_SIZE && IsMessageFlag(f[0]) && FrameTotalLen(f) == Some(|f|)
  }

  /** `f` is exactly one trailers frame. */
  predicate IsTrailersFrame(f: seq<byte>) {
    |f| >= HEADER_SIZE && f[0] == TRAILERS_BIT && FrameTotalLen(f) == Some(|f|)
  }

  /** `s` starts with a complete message frame. */
  predicate StartsWithMessage(s: seq<byte>) {
    |s| >= HEADER_SIZE && IsMessageFlag(s[0]) && FrameTotalLen(s).value <= |s|
  }

  /** `s` is a concatenation of complete message frames. */
  predicate IsMessages(s: seq<byte>)
    decreases |s|
  {
    s == [] || (StartsWithMessage(s) && IsMessages(s[FrameTotalLen(s).value..]))
  }

  /** Length of the longest prefix of `s` made of complete message frames. */
  function MessagesLen(s: seq<byte>): (n: nat)
    ensures n <= |s|
    decreases |s|
  {
    if StartsWithMessage(s)
    then FrameTotalLen(s).value + MessagesLen(s[FrameTotalLen(s).value..])
    else 0
  }

  lemma FrameHeadOfConcat(a: seq<byte>, b: seq<byte>)
    requires |a| >= HEADER_SIZE
    ensures FrameTotalLen(a + b) == FrameTotalLen(a)
    ensures (a + b)[0] == a[0]
  {
    assert (a + b)[1..5] == a[1..5];
  }

  /** Appending bytes after whole messages: the scan goes on where they end. */
  lemma {:induction false} MessagesThen(a: seq<byte>, b: seq<byte>)
    requires IsMessages(a)
    ensures MessagesLen(a + b) == |a| + MessagesLen(b)
    ensures IsMessages(b) ==> IsMessages(a + b)
    decreases |a|
  {
    if a == [] {
      assert a + b == b;
    } else {
      var n := FrameTotalLen(a).value;
      FrameHeadOfConcat(a, b);
      assert (a + b)[n..] == a[n..] + b;
      MessagesThen(a[n..], b);
    }
  }

  /** The prefix that `MessagesLen` measures is whole messages, and none follows it. */
  lemma {:induction false} MessagesPrefix(s: seq<byte>)
    ensures IsMessages(s[..MessagesLen(s)])
    ensures MessagesLen(s[MessagesLen(s)..]) == 0
    decreases |s|
  {
    if StartsWithMessage(s) {
      var n := FrameTotalLen(s).value;
      var t := s[n..];
      MessagesPrefix(t);
      var p := s[..MessagesLen(s)];
      assert p[1..5] == s[1..5];
      assert p[n..] == t[..MessagesLen(t)];
      assert s[MessagesLen(s)..] == t[MessagesLen(t)..];
    }
  }

  /** It is the longest such prefix. */
  lemma MessagesLongest(s: seq<byte>, k: nat)
    requires k <= |s| && IsMessages(s[..k])
    ensures k <= MessagesLen(s)
  {
    assert s == s[..k] + s[k..];
    MessagesThen(s[..k], s[k..]);
  }

  /** Splitting a buffer at the end of its whole messages. */
  lemma MessagesSplit(d: seq<byte>, rest: seq<byte>)
    ensures var m := MessagesLen(d);
            && MessagesLen(d + rest) == m + MessagesLen(d[m..] + rest)
            && d + rest == d[..m] + (d[m..] + rest)
  {
    var m := MessagesLen(d);
    MessagesPrefix(d);
    assert d + rest == d[..m] + (d[m..] + rest);
    MessagesThen(d[..m], d[m..] + rest);
  }

  datatype Find = Trailer(len: nat) | IncompleteBuf | Done(len: nat) | InvalidFlag(flag: byte)

  /** What follows the whole messages at the head of `buf`, and where. */
  function FindSpec(buf: seq<byte>): (r: Find) {
    var m := MessagesLen(buf);
    var after := buf[m..];
    if |after| < HEADER_SIZE then Done(m)
    else if after[0] == TRAILERS_BIT then Trailer(m)
    else if !IsMessageFlag(after[0]) then InvalidFlag(after[0])
    else IncompleteBuf
  }

  /**
    Walks over the complete message frames at the head of `buf`; every turn
    advances by at least the five header bytes.
   */
  method FindTrailers(buf: seq<byte>) returns (r: Find)
    ensures r == FindSpec(buf)
    ensures r.Trailer? || r.Done? ==> r.len <= |buf| && IsMessages(buf[..r.len])
  {
    MessagesPrefix(buf);
    var len := 0;
    var temp := buf;
    while true
      invariant len <= |buf| && temp == buf[len..]
      invariant MessagesLen(buf) == len + MessagesLen(temp)
      decreases |buf| - len
    {
      if temp == [] || |temp| < HEADER_SIZE {
        assert buf[len..] == temp;
        return Done(len);
      }
      var header := temp[0];
      if header == TRAILERS_BIT {
        return Trailer(len);
      }
      if !(header == 0 || header == 1) {
        return InvalidFlag(header);
      }
      var msgLen := ReadU32(temp[1..]);
      assert temp[1..][..4] == temp[1..5];
      ghost var before := len;
      len := len + msgLen + 4 + 1;
      if len > |buf| {
        assert buf[before..] == temp;
        return IncompleteBuf;
      }
      assert temp[len - before..] == buf[len..];
      temp := buf[len..];
    }
  }
}
