/** A body that breaks off inside a frame, under every chunking. */
module WebTruncation {
  import opened Bytes
  import opened WebFrame
  import opened WebCall
  import opened WebDecode
  import opened WebChunking
  import Codes

  predicate IsFrame(f: seq<byte>) { IsMessage(f) || IsTrailersFrame(f) }

  /** A frame that breaks off is not a message, and what is there of it decides how the run ends. */
  lemma CutFrame(f: seq<byte>, k: nat)
    requires IsFrame(f) && k < |f|
    ensures MessagesLen(f[..k]) == 0
    ensures Classify(f[..k]) == if k < HEADER_SIZE then Clean else if IsMessage(f) then CutMessage else CutTrailers
  {
    if k >= HEADER_SIZE {
      assert f[..k] + f[k..] == f;
      FrameHeadOfConcat(f[..k], f[k..]);
      assert FrameTotalLen(f[..k]) == Some(|f|) && !StartsWithMessage(f[..k]);
    }
    assert f[..k][0..] == f[..k];
  }

  lemma CutBody(x: seq<byte>, f: seq<byte>, k: nat)
    requires IsMessages(x) && IsFrame(f) && k < |f|
    ensures var b := x + f[..k];
            && MessagesLen(b) == |x|
            && Classify(b) == if k < HEADER_SIZE then Clean else if IsMessage(f) then CutMessage else CutTrailers
  {
    CutFrame(f, k);
    hide IsMessages, IsFrame, Classify, MessagesLen, IsMessage;
    ClassifyAfterMessages(x, f[..k]);
  }

  /** The error that reports a cut frame. */
  function CutError(f: seq<byte>): (e: WebError)
    ensures e.Code() == Codes.DataLoss
  {
    if IsMessage(f) then IncompleteMessage else IncompleteTrailers
  }

  /**
    Messages and then the first `k` bytes of another frame, in any chunking.
    With fewer than its five header bytes on the wire, all the messages arrive
    and the end is clean.  With them, the run ends in data loss and never in a
    clean end: after all the messages if the frame holds trailers, and after the
    messages up to the last settled point if it is a message itself.
   */
  lemma TruncationDetected(x: seq<byte>, f: seq<byte>, k: nat, cs: seq<seq<byte>>)
    requires IsMessages(x) && IsFrame(f) && k < |f|
    requires Flatten(cs) == x + f[..k]
    ensures var outs, shown := Run(Start(Chunks(cs))), MessagesLen(Flatten(cs[..LastSettled(cs)]));
            && shown <= |x|
            && (k < HEADER_SIZE ==> Delivers(outs, x, |x|, [End]))
            && (k >= HEADER_SIZE ==> Delivers(outs, x, if IsMessage(f) then shown else |x|, [Fail(CutError(f))]))
  {
    hide IsMessages, IsFrame, Classify, MessagesLen, IsMessage, Run, Delivers, Flatten, Chunks, LastSettled;
    CutBody(x, f, k);
    ClientDecodesAnyChunking(cs);
    DeliversPrefix(Run(Start(Chunks(cs))), x, f[..k], MessagesLen(Flatten(cs[..LastSettled(cs)])), Final(Classify(x + f[..k])));
  }
}
