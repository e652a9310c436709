/**
  What a reader loop of the proxy (readClient and readServer, server/proxy.go:71-112) does to a
  whole stream, as functions on values: SplitFrames cuts the stream into the frames the loop
  publishes, Numbered gives them their ids. The lemmas say that what a loop forwards is the
  stream itself, and that a stream of encoded messages is split back into exactly those
  messages.
*/
module Stream {
  import opened Ber

  /** One message as a reader publishes it (server/proxy.go:26-30): its number within its
      direction, the direction, and its wire bytes. */
  datatype Message = Message(id: int, source: string, bytes: seq<byte>)

  /** What a reader loop does with a whole stream: the frames it publishes, in order, the error
      that ends it, and how many bytes it consumed in all. */
  datatype Split = Split(frames: seq<seq<byte>>, stop: ReadError, consumed: nat)

  /** Repeated readLdapMessageBytes on a stream until the first error. */
  function SplitFrames(s: seq<byte>): (r: Split)
    ensures r.consumed <= |s|
    decreases |s|
  {
    match ParseFrame(s)
    case FrameError(e, c) => Split([], e, c)
    case Frame(_, bytes, c) =>
      var rest := SplitFrames(s[c..]);
      Split([bytes] + rest.frames, rest.stop, c + rest.consumed)
  }

  /** The messages a reader publishes for `frames`, the counter stepping by one per message. */
  function Numbered(first: int, source: string, frames: seq<seq<byte>>): (ms: seq<Message>)
    ensures |ms| == |frames|
    decreases |frames|
  {
    if frames == [] then []
    else [Message(first, source, frames[0])] + Numbered(first + 1, source, frames[1..])
  }

  /** Message `i` carries frame `i` and the number `first + i`. */
  lemma {:induction false} NumberedAt(first: int, source: string, frames: seq<seq<byte>>, i: nat)
    requires i < |frames|
    ensures Numbered(first, source, frames)[i] == Message(first + i, source, frames[i])
    decreases i
  {
    if i > 0 {
      NumberedAt(first + 1, source, frames[1..], i - 1);
      assert frames[1..][i - 1] == frames[i];
    }
  }

  /** The i-th message published carries the i-th frame and the number `first + i`: ids are
      consecutive, in the order the frames were read. */
  lemma NumberedIds(first: int, source: string, frames: seq<seq<byte>>)
    ensures forall i :: 0 <= i < |frames| ==>
      Numbered(first, source, frames)[i] == Message(first + i, source, frames[i])
  {
    forall i | 0 <= i < |frames| {
      NumberedAt(first, source, frames, i);
    }
  }

  /** The bytes a sequence of frames puts on the wire, one frame after the other. */
  function Flatten(frames: seq<seq<byte>>): seq<byte>
    decreases |frames|
  {
    if frames == [] then [] else frames[0] + Flatten(frames[1..])
  }

  /** A stream of encoded messages, one after the other. */
  function EncodeAll(payloads: seq<seq<byte>>): (e: seq<byte>)
    requires forall i :: 0 <= i < |payloads| ==> |payloads[i]| < LengthLimit
    decreases |payloads|
  {
    if payloads == [] then [] else EncodeFrame(payloads[0]) + EncodeAll(payloads[1..])
  }

  /**
    Pass-through: what a reader loop publishes, laid end to end, is the stream it read, in
    order and unchanged, except that the last frame may run past the end of the stream, where
    it is filled with zeros.
  */
  lemma {:induction false} SplitForwardsStream(s: seq<byte>)
    ensures var f := Flatten(SplitFrames(s).frames); var m := Min(|f|, |s|);
      f == s[..m] + Zeros(|f| - m)
    decreases |s|
  {
    match ParseFrame(s)
    case FrameError(e, c) =>
    case Frame(_, bytes, c) =>
      FrameContents(s);
      var rest := SplitFrames(s[c..]);
      assert SplitFrames(s).frames == [bytes] + rest.frames;
      assert ([bytes] + rest.frames)[1..] == rest.frames;
      SplitForwardsStream(s[c..]);
      if c < |bytes| {
        assert s[c..] == [];
        assert ParseFrame([]) == FrameError(Eof, 0);
      }
      ForwardStep(s, bytes, c, Flatten(rest.frames));
  }

  /** The step of SplitForwardsStream: a frame that is the next `c` bytes of `s`, padded only
      at the end of `s`, followed by frames that lay out what comes after it. */
  lemma ForwardStep(s: seq<byte>, bytes: seq<byte>, c: nat, g: seq<byte>)
    requires c <= |s| && c <= |bytes| && bytes == s[..c] + Zeros(|bytes| - c)
    requires c < |bytes| ==> c == |s| && g == []
    requires var m := Min(|g|, |s| - c); g == s[c..][..m] + Zeros(|g| - m)
    ensures var f := bytes + g; var m := Min(|f|, |s|); f == s[..m] + Zeros(|f| - m)
  {
    if c < |bytes| {
      assert s[..|s|] == s;
    } else {
      var m := Min(|g|, |s| - c);
      assert Zeros(0) == [];
      assert s[..c] + s[c..][..m] == s[..c + m];
    }
  }

  /** Every frame a reader publishes takes at least the two header bytes off the stream, so a
      stream of n bytes gives at most n/2 frames. */
  lemma {:induction false} SplitFramesNonEmpty(s: seq<byte>)
    ensures forall i :: 0 <= i < |SplitFrames(s).frames| ==> |SplitFrames(s).frames[i]| >= 2
    ensures |SplitFrames(s).frames| <= |s| / 2
    decreases |s|
  {
    match ParseFrame(s)
    case FrameError(e, c) =>
    case Frame(_, bytes, c) =>
      SplitFramesNonEmpty(s[c..]);
      var frames := SplitFrames(s).frames;
      assert frames == [bytes] + SplitFrames(s[c..]).frames;
      forall i | 0 <= i < |frames| ensures |frames[i]| >= 2 {
        if i > 0 {
          assert frames[i] == SplitFrames(s[c..]).frames[i - 1];
        }
      }
  }

  /**
    A stream made of encoded messages is split back into exactly those messages, and the
    loop then stops at the end of the stream.
  */
  lemma {:induction false} SplitRoundTrip(payloads: seq<seq<byte>>)
    requires forall i :: 0 <= i < |payloads| ==> |payloads[i]| < LengthLimit
    ensures var r := SplitFrames(EncodeAll(payloads));
      |r.frames| == |payloads| && r.stop == Eof && r.consumed == |EncodeAll(payloads)|
    ensures var r := SplitFrames(EncodeAll(payloads));
      forall i :: 0 <= i < |payloads| ==> r.frames[i] == EncodeFrame(payloads[i])
    decreases |payloads|
  {
    var s := EncodeAll(payloads);
    if payloads == [] {
      assert ParseFrame([]) == FrameError(Eof, 0);
    } else {
      var e := EncodeFrame(payloads[0]);
      var tail := EncodeAll(payloads[1..]);
      assert s == e + tail;
      FrameRoundTrip(payloads[0], tail);
      assert s[|e|..] == tail;
      SplitRoundTrip(payloads[1..]);
      var r := SplitFrames(s);
      assert r.frames == [e] + SplitFrames(tail).frames;
      forall i | 0 <= i < |payloads| ensures r.frames[i] == EncodeFrame(payloads[i]) {
        if i > 0 {
          assert r.frames[i] == SplitFrames(tail).frames[i - 1];
          assert payloads[1..][i - 1] == payloads[i];
        }
      }
    }
  }

  /** The read the reader loop makes at offset cuts[i] of `s` returns frame i of `frames` and
      takes the bytes up to offset cuts[i + 1]. */
  ghost predicate ReadAt(s: seq<byte>, frames: seq<seq<byte>>, cuts: seq<nat>, i: nat)
  {
    i < |frames| && i + 1 < |cuts| && cuts[i] <= |s| &&
    var f := ParseFrame(s[cuts[i]..]);
    f.Frame? && f.bytes == frames[i] && cuts[i + 1] == cuts[i] + f.consumed
  }

  /** The read at offset cuts[i] of `s`, the one after the last frame, fails, and ends a
      reader loop with what SplitFrames describes. */
  ghost predicate EndsAt(s: seq<byte>, frames: seq<seq<byte>>, cuts: seq<nat>, i: nat)
  {
    i == |frames| && i < |cuts| && cuts[i] <= |s| &&
    var f := ParseFrame(s[cuts[i]..]);
    f.FrameError? && SplitFrames(s) == Split(frames, f.error, cuts[i] + f.consumed)
  }

  /** Read i of frame i with every offset moved `c` bytes further into the stream. */
  lemma ReadAtShift(s: seq<byte>, c: nat, b: seq<byte>, frames: seq<seq<byte>>, cuts: seq<nat>,
                    cuts': seq<nat>, i: nat)
    requires c <= |s| && i + 1 < |cuts| && |cuts'| == |cuts| + 1
    requires cuts'[i + 1] == c + cuts[i] && cuts'[i + 2] == c + cuts[i + 1]
    requires ReadAt(s[c..], frames, cuts, i)
    ensures ReadAt(s, [b] + frames, cuts', i + 1)
  {
    assert s[cuts'[i + 1]..] == s[c..][cuts[i]..];
  }

  /** The frames and offsets of the reads a reader loop makes on `s`: read i starts at cuts[i]
      and returns frames[i], and the read after the last frame ends the loop. */
  lemma {:induction false} Offsets(s: seq<byte>) returns (frames: seq<seq<byte>>, cuts: seq<nat>)
    ensures |cuts| == |frames| + 1 && cuts[0] == 0 && cuts[|frames|] <= |s|
    ensures forall i :: 0 <= i < |frames| ==> ReadAt(s, frames, cuts, i)
    ensures forall i :: |frames| <= i < |cuts| ==> EndsAt(s, frames, cuts, i)
    decreases |s|
  {
    assert s[0..] == s;
    match ParseFrame(s)
    case FrameError(e, c) =>
      frames, cuts := [], [0];
      assert EndsAt(s, frames, cuts, 0);
    case Frame(_, b, c) =>
      var tail := s[c..];
      var more, after := Offsets(tail);
      frames := [b] + more;
      cuts := [0] + seq(|after|, j requires 0 <= j < |after| => c + after[j]);
      assert ReadAt(s, frames, cuts, 0);
      forall i | 1 <= i < |frames| ensures ReadAt(s, frames, cuts, i) {
        ReadAtShift(s, c, b, more, after, cuts, i - 1);
      }
      var n := |more|;
      assert EndsAt(tail, more, after, n);
      assert s[cuts[n + 1]..] == tail[after[n]..];
      assert EndsAt(s, frames, cuts, n + 1);
  }
}
