/** Newline framing of the receive stream (the command-buffer loop of
    SocketTransport::update_rx): complete frames are cut off the front of
    the buffer at each '\n', the newline is dropped, and the unterminated
    tail stays buffered for the next read. */
module Framing {
  import opened Text

  const NL: char := '\n'

  /** Each frame followed by the newline that ended it. */
  function Framed(frames: seq<string>): string
  {
    if |frames| == 0 then "" else frames[0] + [NL] + Framed(frames[1..])
  }

  predicate NoNewline(s: string)
  {
    NL !in s
  }

  predicate AllNoNewline(frames: seq<string>)
  {
    forall i :: 0 <= i < |frames| ==> NoNewline(frames[i])
  }

  datatype Split = Split(frames: seq<string>, rest: string)

  /** Cut every complete frame off `buf`. */
  function Extract(buf: string): (r: Split)
    ensures AllNoNewline(r.frames) && NoNewline(r.rest)
    decreases |buf|
  {
    var k := IndexOf(buf, NL);
    if k == |buf| then Split([], buf)
    else
      var s := Extract(buf[k + 1..]);
      var fs := [buf[..k]] + s.frames;
      assert forall i :: 1 <= i < |fs| ==> fs[i] == s.frames[i - 1];
      Split(fs, s.rest)
  }

  /** Extraction loses nothing: the frames, each with its newline restored,
      followed by the tail, are the buffer. */
  lemma {:induction false} ExtractLossless(buf: string)
    ensures Framed(Extract(buf).frames) + Extract(buf).rest == buf
    decreases |buf|
  {
    var k := IndexOf(buf, NL);
    if k < |buf| {
      var post := buf[k + 1..];
      ExtractUnfold(buf);
      ExtractLossless(post);
      SplitAtNewline(buf, k);
      Glue(buf[..k], Extract(post).frames, Extract(post).rest, post, buf);
    } else {
      assert Extract(buf) == Split([], buf);
      assert Framed([]) + buf == buf;
    }
  }

  /** One step of `Extract`: the text before the first newline, then the
      extraction of the text after it. */
  lemma ExtractUnfold(buf: string)
    requires IndexOf(buf, NL) < |buf|
    ensures var k := IndexOf(buf, NL); var s := Extract(buf[k + 1..]);
      Extract(buf) == Split([buf[..k]] + s.frames, s.rest)
  {
  }

  lemma SplitAtNewline(buf: string, k: int)
    requires 0 <= k < |buf| && buf[k] == NL
    ensures buf == buf[..k] + [NL] + buf[k + 1..]
  {
  }

  lemma Glue(pre: string, fs: seq<string>, r: string, post: string, buf: string)
    requires Framed(fs) + r == post
    requires buf == pre + [NL] + post
    ensures Framed([pre] + fs) + r == buf
  {
    FramedCons(pre, fs);
    Reassociate(pre, Framed(fs), r);
  }

  lemma FramedCons(f: string, frames: seq<string>)
    ensures Framed([f] + frames) == f + [NL] + Framed(frames)
  {
    assert ([f] + frames)[1..] == frames;
  }

  lemma Reassociate(a: string, b: string, c: string)
    ensures a + [NL] + b + c == a + [NL] + (b + c)
  {
  }

  lemma FramedAppend(a: seq<string>, b: seq<string>)
    ensures Framed(a + b) == Framed(a) + Framed(b)
  {
    if |a| == 0 {
      assert a + b == b;
    } else {
      assert (a + b)[1..] == a[1..] + b;
      FramedAppend(a[1..], b);
      assert (a + b)[0] == a[0];
      calc {
        Framed(a + b);
        a[0] + [NL] + Framed(a[1..] + b);
        a[0] + [NL] + (Framed(a[1..]) + Framed(b));
        (a[0] + [NL] + Framed(a[1..])) + Framed(b);
      }
    }
  }

  lemma {:induction false} FramedCount(frames: seq<string>)
    requires AllNoNewline(frames)
    ensures CountChar(Framed(frames), NL) == |frames|
  {
    if |frames| > 0 {
      FramedCount(frames[1..]);
      CountCharAppend(frames[0] + [NL], Framed(frames[1..]), NL);
      CountCharAppend(frames[0], [NL], NL);
      CountCharAbsent(frames[0], NL);
    }
  }

  /** One frame per newline in the buffer. */
  lemma ExtractCount(buf: string)
    ensures |Extract(buf).frames| == CountChar(buf, NL)
  {
    var s := Extract(buf);
    ExtractLossless(buf);
    FramedCount(s.frames);
    CountCharAppend(Framed(s.frames), s.rest, NL);
    CountCharAbsent(s.rest, NL);
  }

  /** `Extract` is the only way to write a buffer as newline-free frames,
      each followed by a newline, then a newline-free tail. */
  lemma {:induction false} ExtractUnique(buf: string, frames: seq<string>, rest: string)
    requires AllNoNewline(frames) && NoNewline(rest)
    requires Framed(frames) + rest == buf
    ensures Extract(buf) == Split(frames, rest)
    decreases |frames|
  {
    if |frames| == 0 {
      assert buf == rest;
    } else {
      var f := frames[0];
      var tail := Framed(frames[1..]) + rest;
      AllNoNewlineTail(frames);
      FramedCons(f, frames[1..]);
      assert [f] + frames[1..] == frames;
      Reassociate(f, Framed(frames[1..]), rest);
      FrontFrame(f, tail, buf);
      ExtractUnfold(buf);
      ExtractUnique(tail, frames[1..], rest);
    }
  }

  lemma AllNoNewlineTail(frames: seq<string>)
    requires AllNoNewline(frames) && |frames| > 0
    ensures NoNewline(frames[0]) && AllNoNewline(frames[1..])
  {
    forall i | 0 <= i < |frames[1..]|
      ensures NoNewline(frames[1..][i])
    {
      assert frames[1..][i] == frames[i + 1];
    }
  }

  /** A newline-free first frame ends at the buffer's first newline. */
  lemma FrontFrame(f: string, tail: string, buf: string)
    requires NoNewline(f) && buf == f + [NL] + tail
    ensures IndexOf(buf, NL) == |f| && buf[..|f|] == f && buf[|f| + 1..] == tail
  {
    assert buf[..|f|] == f && buf[|f|] == NL;
    IndexOfAt(buf, NL, |f|);
  }

  /** Extract agrees with cutting at every newline: the frames are all the
      cut pieces but the last, and the tail is the last. */
  lemma {:induction false} ExtractIsSplitOn(buf: string)
    ensures var ps := SplitOn(buf, NL);
      Extract(buf) == Split(ps[..|ps| - 1], ps[|ps| - 1])
    decreases |buf|
  {
    var k := IndexOf(buf, NL);
    if k < |buf| {
      var post := buf[k + 1..];
      ExtractIsSplitOn(post);
      ExtractUnfold(buf);
      SplitOnUnfold(buf);
      ConsLast(buf[..k], SplitOn(post, NL));
    } else {
      NoCut(buf);
    }
  }

  /** With no newline there is one piece and no frame. */
  lemma NoCut(buf: string)
    requires IndexOf(buf, NL) == |buf|
    ensures SplitOn(buf, NL) == [buf] && Extract(buf) == Split([], buf)
  {
  }

  lemma SplitOnUnfold(buf: string)
    requires IndexOf(buf, NL) < |buf|
    ensures var k := IndexOf(buf, NL);
      SplitOn(buf, NL) == [buf[..k]] + SplitOn(buf[k + 1..], NL)
  {
  }

  lemma ConsLast(x: string, ps: seq<string>)
    requires |ps| >= 1
    ensures var all := [x] + ps;
      all[..|all| - 1] == [x] + ps[..|ps| - 1] && all[|all| - 1] == ps[|ps| - 1]
  {
  }

  /** Frames are independent of how the stream was chunked: extracting after
      each chunk, carrying the tail, gives the frames of extracting once
      from the whole stream, and the same tail. */
  lemma ExtractChunked(buf: string, chunk: string)
    ensures var a := Extract(buf);
      var b := Extract(a.rest + chunk);
      Extract(buf + chunk) == Split(a.frames + b.frames, b.rest)
  {
    var a := Extract(buf);
    var b := Extract(a.rest + chunk);
    ExtractLossless(buf);
    ExtractLossless(a.rest + chunk);
    FramedAppend(a.frames, b.frames);
    ConcatChunks(Framed(a.frames), a.rest, Framed(b.frames), b.rest, chunk);
    ExtractUnique(buf + chunk, a.frames + b.frames, b.rest);
  }

  lemma ConcatChunks(fa: string, ra: string, fb: string, rb: string, chunk: string)
    requires fb + rb == ra + chunk
    ensures (fa + fb) + rb == (fa + ra) + chunk
  {
    calc {
      (fa + fb) + rb;
      fa + (fb + rb);
      fa + (ra + chunk);
      (fa + ra) + chunk;
    }
  }

  /** Nothing is framed until a newline arrives: appending newline-free
      text to a newline-free buffer only grows the buffer. */
  lemma ExtractNoNewline(buf: string)
    requires NoNewline(buf)
    ensures Extract(buf) == Split([], buf)
  {
    ExtractUnique(buf, [], buf);
  }

  /** Extraction leaves nothing further to extract. */
  lemma ExtractIdempotent(buf: string)
    ensures Extract(Extract(buf).rest) == Split([], Extract(buf).rest)
  {
    ExtractNoNewline(Extract(buf).rest);
  }

  /** The loop as the transport runs it: `find('\n')`, push the prefix,
      keep the suffix, until no newline is left. */
  method ExtractLoop(buf: string) returns (frames: seq<string>, rest: string)
    ensures Split(frames, rest) == Extract(buf)
    ensures |frames| == CountChar(buf, NL)
  {
    frames := [];
    rest := buf;
    var idx := IndexOf(rest, NL);
    while idx != |rest|
      invariant idx == IndexOf(rest, NL)
      invariant AllNoNewline(frames)
      invariant Framed(frames) + rest == buf
      decreases |rest|
    {
      LoopStep(frames, rest, idx);
      frames := frames + [rest[..idx]];
      rest := rest[idx + 1..];
      idx := IndexOf(rest, NL);
    }
    ExtractUnique(buf, frames, rest);
    ExtractCount(buf);
  }

  /** One turn of the loop: moving the text before the first newline onto
      the frames keeps frames-plus-buffer the same text. */
  lemma LoopStep(frames: seq<string>, rest: string, idx: int)
    requires AllNoNewline(frames)
    requires 0 <= idx < |rest| && idx == IndexOf(rest, NL)
    ensures AllNoNewline(frames + [rest[..idx]])
    ensures Framed(frames + [rest[..idx]]) + rest[idx + 1..] == Framed(frames) + rest
  {
    var f := rest[..idx];
    FramedAppend(frames, [f]);
    FramedCons(f, []);
    assert Framed([f]) == f + [NL];
    assert rest == f + [NL] + rest[idx + 1..];
    var fs := frames + [f];
    assert forall i :: 0 <= i < |frames| ==> fs[i] == frames[i];
    assert fs[|frames|] == f;
  }

  /** One callback invocation: the sequence number passed as the first
      argument and the frame. */
  datatype Invocation = Invocation(seqNo: int, frame: string)

  datatype Delivery = Delivery(invoked: seq<Invocation>, counter: int)

  /** Hand the frames to the receive callback in order, pre-incrementing the
      counter for each; without a callback the frames are only logged and
      the counter stays. */
  function Deliver(counter: int, frames: seq<string>, hasCallback: bool): (d: Delivery)
    ensures hasCallback ==> d.counter == counter + |frames| && |d.invoked| == |frames|
    ensures !hasCallback ==> d == Delivery([], counter)
    decreases |frames|
  {
    if !hasCallback || |frames| == 0 then Delivery([], counter)
    else
      var d := Deliver(counter + 1, frames[1..], true);
      Delivery([Invocation(counter + 1, frames[0])] + d.invoked, d.counter)
  }

  /** Every frame is delivered, in order, with consecutive sequence numbers
      starting just above the counter. */
  lemma {:induction false} DeliverNumbers(counter: int, frames: seq<string>)
    ensures var d := Deliver(counter, frames, true);
      forall i :: 0 <= i < |d.invoked| ==> d.invoked[i] == Invocation(counter + 1 + i, frames[i])
    decreases |frames|
  {
    if |frames| > 0 {
      DeliverNumbers(counter + 1, frames[1..]);
      var d' := Deliver(counter + 1, frames[1..], true);
      var d := Deliver(counter, frames, true);
      assert d.invoked == [Invocation(counter + 1, frames[0])] + d'.invoked;
      forall i | 0 <= i < |d.invoked|
        ensures d.invoked[i] == Invocation(counter + 1 + i, frames[i])
      {
        if i > 0 {
          assert d.invoked[i] == d'.invoked[i - 1];
          assert frames[1..][i - 1] == frames[i];
        }
      }
    }
  }

  /** The frames a run of invocations carried, in order. */
  function FramesOf(inv: seq<Invocation>): (fs: seq<string>)
    ensures |fs| == |inv| && forall i :: 0 <= i < |inv| ==> fs[i] == inv[i].frame
  {
    seq(|inv|, i requires 0 <= i < |inv| => inv[i].frame)
  }

  /** With a callback registered, the invocations carry exactly the frames. */
  lemma DeliveredFrames(counter: int, frames: seq<string>)
    ensures FramesOf(Deliver(counter, frames, true).invoked) == frames
  {
    DeliverNumbers(counter, frames);
  }

  /** Delivering two batches in turn is delivering their concatenation. */
  lemma {:induction false} DeliverAppend(counter: int, a: seq<string>, b: seq<string>, hasCallback: bool)
    ensures var da := Deliver(counter, a, hasCallback);
      var db := Deliver(da.counter, b, hasCallback);
      Deliver(counter, a + b, hasCallback) == Delivery(da.invoked + db.invoked, db.counter)
    decreases |a|
  {
    if hasCallback && |a| > 0 {
      DeliverAppend(counter + 1, a[1..], b, true);
      assert (a + b)[1..] == a[1..] + b;
      var rest := Deliver(counter + 1, a[1..], true);
      var tail := Deliver(rest.counter, b, true);
      var x := Invocation(counter + 1, a[0]);
      assert Deliver(counter, a, true) == Delivery([x] + rest.invoked, rest.counter);
      assert Deliver(counter, a + b, true) == Delivery([x] + (rest.invoked + tail.invoked), tail.counter);
      assert [x] + (rest.invoked + tail.invoked) == ([x] + rest.invoked) + tail.invoked;
    } else if hasCallback {
      assert a + b == b;
    }
  }
}
