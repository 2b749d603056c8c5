/**
 Streams of frames, each a header followed by the body it announces, as a writer sends them
 and the chunk-fed reader receives them.
 */
module Framing {
  import opened Delimited
  import opened Widths
  import opened Messages
  import opened Reader
  import opened Chunking

  /** A writer of frames together with the protocol that reads them back. */
  datatype Link<!M> = Link(reader: Protocol<M>, header: M -> Header, head: M -> seq<Byte>, body: M -> seq<Byte>)

  /** Both parts of the frame of `m` are self-delimiting and the header tells the body's length. */
  ghost predicate Carries<M(!new)>(link: Link<M>, m: M) {
    && 0 < |link.head(m)| < TWO32
    && link.header(m).length == |link.body(m)|
    && forall s :: ReadsFrame(link, m, s)
  }

  ghost predicate ReadsFrame<M(!new)>(link: Link<M>, m: M, s: seq<Byte>) {
    && (link.head(m) <= s ==> link.reader.header(s) == Some((link.header(m), |link.head(m)|)))
    && (s < link.head(m) ==> link.reader.header(s) == None)
    && (link.body(m) <= s ==> link.reader.body(link.header(m), s) == Some((m, |link.body(m)|)))
  }

  function Frame<M>(link: Link<M>, m: M): seq<Byte> {
    link.head(m) + link.body(m)
  }

  function Stream<M>(link: Link<M>, ms: seq<M>): seq<Byte> {
    if ms == [] then [] else Frame(link, ms[0]) + Stream(link, ms[1..])
  }

  lemma {:induction false} StreamConcat<M>(link: Link<M>, ms: seq<M>, more: seq<M>)
    ensures Stream(link, ms + more) == Stream(link, ms) + Stream(link, more)
  {
    if ms == [] {
      assert [] + more == more;
    } else {
      assert (ms + more)[1..] == ms[1..] + more;
      StreamConcat(link, ms[1..], more);
    }
  }

  lemma StreamAppend<M>(link: Link<M>, ms: seq<M>, m: M)
    ensures Stream(link, ms + [m]) == Stream(link, ms) + Frame(link, m)
  {
    StreamConcat(link, ms, [m]);
    assert [m][1..] == [];
  }

  /** How many whole frames the first `j` bytes of a stream hold. */
  function WholeFrames<M>(link: Link<M>, ms: seq<M>, j: nat): (k: nat)
    ensures k <= |ms|
    ensures |Stream(link, ms[..k])| <= j
    ensures k < |ms| ==> j < |Stream(link, ms[..k + 1])|
  {
    if ms == [] || j < |Frame(link, ms[0])| then
      assert ms != [] ==> ms[..1][1..] == [];
      0
    else
      var k := WholeFrames(link, ms[1..], j - |Frame(link, ms[0])|);
      assert ms[..k + 1][1..] == ms[1..][..k];
      assert k < |ms| - 1 ==> ms[..k + 2][1..] == ms[1..][..k + 1];
      k + 1
  }

  lemma WholeFramesStep<M>(link: Link<M>, ms: seq<M>, j: nat)
    requires ms != [] && |Frame(link, ms[0])| <= j
    ensures ms[..WholeFrames(link, ms, j)]
         == [ms[0]] + ms[1..][..WholeFrames(link, ms[1..], j - |Frame(link, ms[0])|)]
  {
  }

  ghost predicate Carried<M(!new)>(link: Link<M>, ms: seq<M>, bound: nat) {
    forall i :: 0 <= i < |ms| ==> Carries(link, ms[i]) && |Frame(link, ms[i])| <= bound
  }

  /** The stream `s` parses into exactly `ms` and then ends; it is honest, and the reader never
      has to hold more than `bound` bytes while it waits. */
  ghost predicate Parses<M(!new)>(p: Protocol<M>, s: seq<Byte>, ms: seq<M>, bound: nat)
    requires WellFormed(p)
  {
    Parse(p, None, s) == (ms, false) && Honest(p, None, s, 0) && Backlog(p, None, s) <= bound
  }

  lemma PartialFrameParses<M(!new)>(p: Protocol<M>, s: seq<Byte>, bound: nat)
    requires WellFormed(p) && |s| <= bound
    requires p.header(s).Some? ==> |s| < p.header(s).value.1 + p.header(s).value.0.length
    ensures Parses(p, s, [], bound)
  {
    assert LocalAt(p.header, s);
  }

  lemma FrameThenParses<M(!new)>(
    p: Protocol<M>, s: seq<Byte>, h: Header, n: nat, rest: seq<Byte>, m: M, ms: seq<M>, bound: nat)
    requires WellFormed(p)
    requires p.header(s) == Some((h, n)) && n <= |s| && rest == s[n..]
    requires h.length <= |rest| && p.body(h, rest) == Some((m, h.length))
    requires Parses(p, rest[h.length..], ms, bound) && n <= bound && h.length <= bound
    ensures Parses(p, s, [m] + ms, bound)
  {
  }

  /** A lone frame is honest exactly when its length field covers its body. */
  lemma LoneFrameHonestIffCovered<M(!new)>(p: Protocol<M>, s: seq<Byte>, h: Header, n: nat, rest: seq<Byte>)
    requires WellFormed(p)
    requires p.header(s) == Some((h, n)) && n <= |s| && rest == s[n..]
    requires p.body(h, rest).Some? && p.body(h, rest).value.1 == |rest|
    ensures Honest(p, None, s, 0) <==> h.length >= |rest|
  {
    assert LocalAt(p.header, []);
    assert Honest(p, None, rest[|rest|..], 0);
    assert Honest(p, None, s, 0) == Honest(p, Some(h), rest, 0);
  }

  lemma FirstFrameBytes<M(!new)>(link: Link<M>, ms: seq<M>, j: nat)
    requires ms != [] && j <= |Stream(link, ms)|
    ensures var e, b, s := link.head(ms[0]), link.body(ms[0]), Stream(link, ms)[..j];
            && (j < |e| ==> s < e)
            && (|e| <= j ==> e <= s)
            && (|e| + |b| <= j ==> s[|e|..] == b + Stream(link, ms[1..])[..j - |e| - |b|])
  {
    assert Stream(link, ms) == link.head(ms[0]) + (link.body(ms[0]) + Stream(link, ms[1..]));
  }

  /** A stream of frames, cut off anywhere, parses into its whole frames. */
  lemma {:induction false} FramesParse<M(!new)>(link: Link<M>, ms: seq<M>, j: nat, bound: nat)
    requires WellFormed(link.reader)
    requires Carried(link, ms, bound)
    requires j <= |Stream(link, ms)|
    ensures Parses(link.reader, Stream(link, ms)[..j], ms[..WholeFrames(link, ms, j)], bound)
  {
    var p, s := link.reader, Stream(link, ms)[..j];
    if ms == [] {
      assert LocalAt(p.header, s);
      return;
    }
    var m, e, b := ms[0], link.head(ms[0]), link.body(ms[0]);
    FirstFrameBytes(link, ms, j);
    assert Carries(link, m) && ReadsFrame(link, m, s) && |e| + |b| <= bound;
    if j < |e| + |b| {
      PartialFrameParses(p, s, bound);
    } else {
      FramesParse(link, ms[1..], j - |e| - |b|, bound);
      WholeFrameFirst(link, ms, j, bound);
    }
  }

  /** If the stream after the first frame parses into its whole frames, so does all of it. */
  lemma WholeFrameFirst<M(!new)>(link: Link<M>, ms: seq<M>, j: nat, bound: nat)
    requires WellFormed(link.reader)
    requires ms != [] && Carries(link, ms[0]) && |link.head(ms[0])| + |link.body(ms[0])| <= bound
    requires var j' := j - |link.head(ms[0])| - |link.body(ms[0])|;
             && 0 <= j' <= |Stream(link, ms[1..])| && j <= |Stream(link, ms)|
             && Parses(link.reader, Stream(link, ms[1..])[..j'], ms[1..][..WholeFrames(link, ms[1..], j')], bound)
    ensures Parses(link.reader, Stream(link, ms)[..j], ms[..WholeFrames(link, ms, j)], bound)
  {
    var s, m, e, b := Stream(link, ms)[..j], ms[0], link.head(ms[0]), link.body(ms[0]);
    var j' := j - |e| - |b|;
    FirstFrameBytes(link, ms, j);
    FrameBefore(link, m, s, Stream(link, ms[1..])[..j'], ms[1..][..WholeFrames(link, ms[1..], j')], bound);
    WholeFramesStep(link, ms, j);
  }

  lemma FrameBefore<M(!new)>(link: Link<M>, m: M, s: seq<Byte>, later: seq<Byte>, ms: seq<M>, bound: nat)
    requires WellFormed(link.reader) && Carries(link, m) && |link.head(m)| + |link.body(m)| <= bound
    requires link.head(m) <= s && s[|link.head(m)|..] == link.body(m) + later
    requires Parses(link.reader, later, ms, bound)
    ensures Parses(link.reader, s, [m] + ms, bound)
  {
    var e, b, rest := link.head(m), link.body(m), s[|link.head(m)|..];
    assert ReadsFrame(link, m, s) && ReadsFrame(link, m, rest);
    assert b <= rest && rest[|b|..] == later;
    FrameThenParses(link.reader, s, link.header(m), |e|, rest, m, ms, bound);
  }

  /** For every list of messages, every point at which the stream of their frames may stop and
      every way of cutting it into chunks, repeated reads return exactly the messages that
      arrived whole, in order, and then report the end of input. */
  lemma DeliveredInOrder<M(!new)>(
    link: Link<M>, ms: seq<M>, j: nat, chunks: seq<seq<Byte>>, broken: bool, bound: nat)
    requires WellFormed(link.reader)
    requires Carried(link, ms, bound)
    requires j <= |Stream(link, ms)| && Chunks(chunks, Stream(link, ms)[..j]) && Fit(FRESH, chunks, bound)
    ensures ReadAll(link.reader, FRESH, chunks, broken)
         == (ms[..WholeFrames(link, ms, j)], if broken then SocketError else Disconnected)
  {
    FramesParse(link, ms, j, bound);
    assert FRESH.buffer + Flatten(chunks) == Stream(link, ms)[..j];
    assert LocalAt(link.reader.header, []);
    ReaderFollowsParser(link.reader, FRESH, chunks, broken, 0, bound);
  }

  // ----- one direction of a connection, step by step

  /** Bytes written but not yet read, and the buffer of the reader at the other end. */
  datatype Pipe = Pipe(ctx: Ctx, wire: seq<Byte>)

  /** The pipe holds exactly the messages `ms`: with no header parsed the buffer and the wire
      together are their frames, otherwise the first frame's header is already off. */
  ghost predicate Holds<M(!new)>(link: Link<M>, pipe: Pipe, ms: seq<M>)
  {
    && |pipe.ctx.buffer| < TWO32
    && Eager(link.reader, pipe.ctx)
    && (forall i :: 0 <= i < |ms| ==> Carries(link, ms[i]))
    && match pipe.ctx.header
       case None => pipe.ctx.buffer + pipe.wire == Stream(link, ms)
       case Some(h) =>
         && ms != []
         && h == link.header(ms[0])
         && pipe.ctx.buffer + pipe.wire == link.body(ms[0]) + Stream(link, ms[1..])
  }

  lemma WriteKeepsHolds<M(!new)>(link: Link<M>, pipe: Pipe, ms: seq<M>, m: M)
    requires Holds(link, pipe, ms) && Carries(link, m)
    ensures Holds(link, pipe.(wire := pipe.wire + Frame(link, m)), ms + [m])
  {
    var bytes := pipe.ctx.buffer + pipe.wire;
    assert pipe.ctx.buffer + (pipe.wire + Frame(link, m)) == bytes + Frame(link, m);
    StreamAppend(link, ms, m);
    if pipe.ctx.header.Some? {
      assert (ms + [m])[1..] == ms[1..] + [m];
      StreamAppend(link, ms[1..], m);
    }
  }

  lemma HeadOff<M>(link: Link<M>, buffer: seq<Byte>, wire: seq<Byte>, ms: seq<M>)
    requires ms != [] && buffer + wire == Stream(link, ms)
    ensures link.head(ms[0]) <= Stream(link, ms)
    ensures |link.head(ms[0])| <= |buffer| ==>
              buffer[|link.head(ms[0])|..] + wire == link.body(ms[0]) + Stream(link, ms[1..])
  {
    var e, later := link.head(ms[0]), link.body(ms[0]) + Stream(link, ms[1..]);
    assert Stream(link, ms) == e + later;
    assert |e| <= |buffer| ==> buffer[|e|..] + wire == (buffer + wire)[|e|..];
  }

  lemma HeaderKeepsHolds<M(!new)>(link: Link<M>, pipe: Pipe, ms: seq<M>)
    requires WellFormed(link.reader)
    requires |pipe.ctx.buffer| < TWO32 && pipe.ctx.header.None?
    requires forall i :: 0 <= i < |ms| ==> Carries(link, ms[i])
    requires pipe.ctx.buffer + pipe.wire == Stream(link, ms)
    ensures Holds(link, pipe.(ctx := TryReadHeader(link.reader, pipe.ctx)), ms)
  {
    var s := Stream(link, ms);
    HeaderOfPrefix(link.reader, pipe.ctx.buffer, s);
    if link.reader.header(pipe.ctx.buffer).Some? {
      assert LocalAt(link.reader.header, pipe.ctx.buffer);
      assert s != [];
      assert Carries(link, ms[0]) && ReadsFrame(link, ms[0], s);
      HeadOff(link, pipe.ctx.buffer, pipe.wire, ms);
    }
  }

  /** A read of `k` bytes by a reader that is still waiting. */
  lemma ReceiveKeepsHolds<M(!new)>(link: Link<M>, pipe: Pipe, ms: seq<M>, k: nat)
    requires WellFormed(link.reader)
    requires Holds(link, pipe, ms) && GetState(pipe.ctx) != Done
    requires k <= |pipe.wire| && |pipe.ctx.buffer| + k < TWO32
    ensures Holds(link, Pipe(Receive(link.reader, pipe.ctx, pipe.wire[..k]), pipe.wire[k..]), ms)
  {
    var grown := pipe.ctx.(buffer := pipe.ctx.buffer + pipe.wire[..k]);
    assert grown.buffer + pipe.wire[k..] == pipe.ctx.buffer + pipe.wire;
    if pipe.ctx.header.None? {
      HeaderKeepsHolds(link, Pipe(grown, pipe.wire[k..]), ms);
    }
  }

  /** A reader that is done takes the first message that the pipe holds, and no other. */
  lemma TakeKeepsHolds<M(!new)>(link: Link<M>, pipe: Pipe, ms: seq<M>)
    requires WellFormed(link.reader)
    requires Holds(link, pipe, ms) && GetState(pipe.ctx) == Done
    ensures ms != []
    ensures var r := Take(link.reader, pipe.ctx);
            && r.Some? && r.value.0 == ms[0]
            && Holds(link, pipe.(ctx := r.value.1), ms[1..])
  {
    var buffer, b := pipe.ctx.buffer, link.body(ms[0]);
    assert Carries(link, ms[0]) && ReadsFrame(link, ms[0], buffer);
    assert b <= buffer by {
      assert (buffer + pipe.wire)[..|b|] == b;
    }
    var rest := Ctx(buffer[|b|..], None);
    assert rest.buffer + pipe.wire == (buffer + pipe.wire)[|b|..] == Stream(link, ms[1..]);
    HeaderKeepsHolds(link, Pipe(rest, pipe.wire), ms[1..]);
  }

  /** A reader never waits in vain: once the wire is empty, a message that is left is ready. */
  lemma HeldMessageIsReady<M(!new)>(link: Link<M>, pipe: Pipe, ms: seq<M>)
    requires WellFormed(link.reader)
    requires Holds(link, pipe, ms) && pipe.wire == [] && ms != []
    ensures GetState(pipe.ctx) == Done
  {
    var s, e := pipe.ctx.buffer, link.head(ms[0]);
    assert s + [] == s;
    assert Carries(link, ms[0]) && ReadsFrame(link, ms[0], s);
    assert pipe.ctx.header.None? ==> e <= s;
  }
}
