/**
 What the chunk-fed reader computes, compared with a parser that sees the whole stream at
 once: which streams are read alike under every chunking, and which are not.
 */
module Chunking {
  import opened Delimited
  import opened Widths
  import opened Messages
  import opened Reader

  function Max(a: nat, b: nat): nat {
    if a < b then b else a
  }

  /** The reference: all messages of a stream, and whether it stops at a refused body rather
      than for want of bytes. `hdr` is a header already taken off the stream. */
  ghost function Parse<M(!new)>(p: Protocol<M>, hdr: Option<Header>, s: seq<Byte>): (seq<M>, bool)
    requires WellFormed(p)
    decreases |s|, if hdr.None? then 1 else 0
  {
    match hdr
    case None =>
      assert LocalAt(p.header, s);
      (match p.header(s)
       case None => ([], false)
       case Some((h, n)) => Parse(p, Some(h), s[n..]))
    case Some(h) =>
      assert BodyLocalAt(p, h, s);
      if |s| < h.length then ([], false)
      else match p.body(h, s)
        case None => ([], true)
        case Some((m, k)) =>
          var (ms, refused) := Parse(p, None, s[k..]);
          ([m] + ms, refused)
  }

  /** No body takes more bytes than the reader is sure to hold when it decodes it: the length
      its header announced, or what earlier, overstated lengths have already drawn in. `low`
      is the number of bytes of `s` surely held. */
  ghost predicate Honest<M(!new)>(p: Protocol<M>, hdr: Option<Header>, s: seq<Byte>, low: nat)
    requires WellFormed(p)
    decreases |s|, if hdr.None? then 1 else 0
  {
    match hdr
    case None =>
      assert LocalAt(p.header, s);
      (match p.header(s)
       case None => true
       case Some((h, n)) => Honest(p, Some(h), s[n..], Max(low, n) - n))
    case Some(h) =>
      assert BodyLocalAt(p, h, s);
      |s| >= h.length && p.body(h, s).Some? ==>
        var k := p.body(h, s).value.1;
        var held := Max(low, h.length);
        k <= held && Honest(p, None, s[k..], held - k)
  }

  /** The most bytes the reader can be holding when it asks the socket for more. */
  ghost function Backlog<M(!new)>(p: Protocol<M>, hdr: Option<Header>, s: seq<Byte>): (b: nat)
    requires WellFormed(p)
    ensures b <= |s|
    decreases |s|, if hdr.None? then 1 else 0
  {
    match hdr
    case None =>
      assert LocalAt(p.header, s);
      (match p.header(s)
       case None => |s|
       case Some((h, n)) => Max(n, Backlog(p, Some(h), s[n..])))
    case Some(h) =>
      assert BodyLocalAt(p, h, s);
      if |s| < h.length then |s|
      else match p.body(h, s)
        case None => h.length
        case Some((_, k)) => Max(h.length, Backlog(p, None, s[k..]))
  }

  // ----- the reader follows the reference on honest streams

  /** Between calls no complete header is left unparsed in the buffer. */
  ghost predicate Eager<M(!new)>(p: Protocol<M>, c: Ctx) {
    c.header.None? ==> p.header(c.buffer).None?
  }

  /** A prefix decodes exactly when it holds all the bytes that the whole string's decode takes. */
  lemma HeaderOfPrefix<M(!new)>(p: Protocol<M>, t: seq<Byte>, s: seq<Byte>)
    requires WellFormed(p) && t <= s
    ensures p.header(t).Some? ==> p.header(s) == p.header(t)
    ensures p.header(s).Some? && p.header(s).value.1 <= |t| ==> p.header(t) == p.header(s)
    ensures p.header(s).Some? ==> 1 <= p.header(s).value.1 <= |s|
  {
    assert LocalAt(p.header, t) && LocalAt(p.header, s);
    if p.header(t).Some? {
      assert t[..p.header(t).value.1] <= s;
    }
    if p.header(s).Some? && p.header(s).value.1 <= |t| {
      assert s[..p.header(s).value.1] <= t;
    }
  }

  lemma BodyOfPrefix<M(!new)>(p: Protocol<M>, h: Header, t: seq<Byte>, s: seq<Byte>)
    requires WellFormed(p) && t <= s
    ensures p.body(h, t).Some? ==> p.body(h, s) == p.body(h, t)
    ensures p.body(h, s).Some? && p.body(h, s).value.1 <= |t| ==> p.body(h, t) == p.body(h, s)
    ensures p.body(h, t).Some? ==> 1 <= p.body(h, t).value.1 <= |t|
  {
    assert BodyLocalAt(p, h, t) && BodyLocalAt(p, h, s);
    if p.body(h, t).Some? {
      assert t[..p.body(h, t).value.1] <= s;
    }
    if p.body(h, s).Some? && p.body(h, s).value.1 <= |t| {
      assert s[..p.body(h, s).value.1] <= t;
    }
  }

  ghost predicate InStep<M(!new)>(p: Protocol<M>, c: Ctx, future: seq<Byte>, low: nat, bound: nat)
    requires WellFormed(p)
  {
    && low <= |c.buffer| < TWO32
    && Honest(p, c.header, c.buffer + future, low)
    && Backlog(p, c.header, c.buffer + future) <= bound
  }

  lemma HeaderStep<M(!new)>(p: Protocol<M>, c: Ctx, future: seq<Byte>, low: nat, bound: nat) returns (low': nat)
    requires WellFormed(p)
    requires c.header.None? && InStep(p, c, future, low, bound)
    ensures var c' := TryReadHeader(p, c);
            && Eager(p, c') && InStep(p, c', future, low', bound)
            && Parse(p, c'.header, c'.buffer + future) == Parse(p, None, c.buffer + future)
  {
    low' := low;
    var s := c.buffer + future;
    HeaderOfPrefix(p, c.buffer, s);
    assert LocalAt(p.header, c.buffer);
    if p.header(c.buffer).Some? {
      var n := p.header(c.buffer).value.1;
      assert s[n..] == c.buffer[n..] + future;
      low' := Max(low, n) - n;
    }
  }

  lemma BacklogCoversBuffer<M(!new)>(p: Protocol<M>, c: Ctx, future: seq<Byte>)
    requires WellFormed(p)
    requires Eager(p, c) && |c.buffer| < TWO32 && GetState(c) != Done
    ensures |c.buffer| <= Backlog(p, c.header, c.buffer + future)
  {
    HeaderOfPrefix(p, c.buffer, c.buffer + future);
  }

  lemma ReceiveStep<M(!new)>(p: Protocol<M>, c: Ctx, chunk: seq<Byte>, future: seq<Byte>, low: nat, bound: nat)
    returns (low': nat)
    requires WellFormed(p)
    requires Eager(p, c) && InStep(p, c, chunk + future, low, bound) && GetState(c) != Done
    requires |c.buffer| + |chunk| < TWO32
    ensures var c' := Receive(p, c, chunk);
            && Eager(p, c') && InStep(p, c', future, low', bound)
            && Parse(p, c'.header, c'.buffer + future) == Parse(p, c.header, c.buffer + (chunk + future))
  {
    var grown := c.(buffer := c.buffer + chunk);
    assert grown.buffer + future == c.buffer + (chunk + future);
    if c.header.None? {
      low' := HeaderStep(p, grown, future, low, bound);
    } else {
      low' := low;
    }
  }

  lemma TakeStep<M(!new)>(p: Protocol<M>, c: Ctx, future: seq<Byte>, low: nat, bound: nat) returns (low': nat)
    requires WellFormed(p)
    requires InStep(p, c, future, low, bound) && GetState(c) == Done
    ensures Take(p, c).None? ==> Parse(p, c.header, c.buffer + future) == ([], true)
    ensures Take(p, c).Some? ==>
              var m, c' := Take(p, c).value.0, Take(p, c).value.1;
              && Eager(p, c') && InStep(p, c', future, low', bound)
              && var (ms, refused) := Parse(p, c'.header, c'.buffer + future);
              Parse(p, c.header, c.buffer + future) == ([m] + ms, refused)
  {
    var h, s := c.header.value, c.buffer + future;
    low' := 0;
    BodyOfPrefix(p, h, c.buffer, s);
    if p.body(h, c.buffer).Some? {
      var k := p.body(h, c.buffer).value.1;
      assert s[k..] == c.buffer[k..] + future;
      var rest := Ctx(c.buffer[k..], None);
      assert LocalAt(p.header, rest.buffer);
      low' := HeaderStep(p, rest, future, Max(low, h.length) - k, bound);
    }
  }

  /** The buffer stays below 2^32 bytes: either a backlog of `bound` bytes and any one chunk
      do together, or everything that is held and still to come does. */
  ghost predicate Fit(c: Ctx, chunks: seq<seq<Byte>>, bound: nat) {
    || (forall i :: 0 <= i < |chunks| ==> bound + |chunks[i]| < TWO32)
    || |c.buffer| + |Flatten(chunks)| < TWO32
  }

  lemma {:induction false} NextFollows<M(!new)>(
    p: Protocol<M>, c: Ctx, chunks: seq<seq<Byte>>, broken: bool, low: nat, bound: nat)
    returns (low': nat)
    requires WellFormed(p)
    requires Eager(p, c) && InStep(p, c, Flatten(chunks), low, bound) && Fit(c, chunks, bound)
    ensures var (r, c', rest) := NextMessage(p, c, chunks, broken);
            var (ms, refused) := Parse(p, c.header, c.buffer + Flatten(chunks));
            if r.Delivered? then
              && Eager(p, c') && InStep(p, c', Flatten(rest), low', bound) && Fit(c', rest, bound)
              && var (ms', refused') := Parse(p, c'.header, c'.buffer + Flatten(rest));
              ms == [r.message] + ms' && refused == refused'
            else
              ms == [] && r == if refused then BadFormat else if broken then SocketError else Disconnected
    decreases |chunks|
  {
    if GetState(c) == Done {
      low' := TakeStep(p, c, Flatten(chunks), low, bound);
    } else if chunks == [] {
      low' := 0;
      BacklogCoversBuffer(p, c, []);
      assert c.buffer + [] == c.buffer;
    } else {
      BacklogCoversBuffer(p, c, Flatten(chunks));
      var low1 := ReceiveStep(p, c, chunks[0], Flatten(chunks[1..]), low, bound);
      low' := NextFollows(p, Receive(p, c, chunks[0]), chunks[1..], broken, low1, bound);
    }
  }

  /** However a stream arrives, the reader returns what the reference reads off the whole of
      it, then fails as the reference says: for every honest stream whose buffer stays below
      2^32 bytes. */
  lemma {:induction false} ReaderFollowsParser<M(!new)>(
    p: Protocol<M>, c: Ctx, chunks: seq<seq<Byte>>, broken: bool, low: nat, bound: nat)
    requires WellFormed(p)
    requires Eager(p, c) && InStep(p, c, Flatten(chunks), low, bound) && Fit(c, chunks, bound)
    ensures var (ms, refused) := Parse(p, c.header, c.buffer + Flatten(chunks));
            ReadAll(p, c, chunks, broken) ==
            (ms, if refused then BadFormat else if broken then SocketError else Disconnected)
    decreases |c.buffer| + |Flatten(chunks)|
  {
    var low' := NextFollows(p, c, chunks, broken, low, bound);
    var (r, c', rest) := NextMessage(p, c, chunks, broken);
    if r.Delivered? {
      ReaderFollowsParser(p, c', rest, broken, low', bound);
    }
  }

  // ----- and no other stream is safe

  /** A point at which a dishonest stream can be cut so that the reader decodes a body it
      does not yet hold in full. */
  ghost function Cut<M(!new)>(p: Protocol<M>, hdr: Option<Header>, s: seq<Byte>, low: nat): (cut: nat)
    requires WellFormed(p) && low <= |s|
    requires !Honest(p, hdr, s, low)
    ensures low <= cut < |s|
    decreases |s|, if hdr.None? then 1 else 0
  {
    match hdr
    case None =>
      assert LocalAt(p.header, s);
      var n := p.header(s).value.1;
      n + Cut(p, Some(p.header(s).value.0), s[n..], Max(low, n) - n)
    case Some(h) =>
      assert BodyLocalAt(p, h, s);
      var k := p.body(h, s).value.1;
      var held := Max(low, h.length);
      if held < k then held else k + Cut(p, None, s[k..], held - k)
  }

  /** A reader that holds exactly the bytes before the cut works through them without
      reading, and then refuses a body that the reference accepts. */
  lemma {:induction false} CutBreaksReader<M(!new)>(
    p: Protocol<M>, c: Ctx, tail: seq<Byte>, broken: bool, low: nat)
    requires WellFormed(p)
    requires c.header.Some? && low <= |c.buffer| < TWO32
    requires !Honest(p, c.header, c.buffer + tail, low)
    requires |c.buffer| == Cut(p, c.header, c.buffer + tail, low)
    ensures var (ms, end) := ReadAll(p, c, [tail], broken);
            end == BadFormat && |ms| < |Parse(p, c.header, c.buffer + tail).0|
    decreases |c.buffer|
  {
    var h, s := c.header.value, c.buffer + tail;
    BodyOfPrefix(p, h, c.buffer, s);
    var k := p.body(h, s).value.1;
    var held := Max(low, h.length);
    assert GetState(c) == Done;
    if k <= held {
      var rest, left := Ctx(c.buffer[k..], None), s[k..];
      assert left == rest.buffer + tail;
      HeaderOfPrefix(p, rest.buffer, left);
      var n := p.header(left).value.1;
      var c' := Ctx(rest.buffer[n..], Some(p.header(left).value.0));
      assert left[n..] == c'.buffer + tail;
      assert NextMessage(p, c, [tail], broken) == (Delivered(p.body(h, s).value.0), c', [tail]);
      CutBreaksReader(p, c', tail, broken, Max(held - k, n) - n);
    }
  }

  lemma {:induction false} AllHeldIsHonest<M(!new)>(p: Protocol<M>, hdr: Option<Header>, s: seq<Byte>)
    requires WellFormed(p)
    ensures Honest(p, hdr, s, |s|)
    decreases |s|, if hdr.None? then 1 else 0
  {
    match hdr
    case None =>
      assert LocalAt(p.header, s);
      if p.header(s).Some? {
        AllHeldIsHonest(p, Some(p.header(s).value.0), s[p.header(s).value.1..]);
      }
    case Some(h) =>
      assert BodyLocalAt(p, h, s);
      if p.body(h, s).Some? {
        AllHeldIsHonest(p, None, s[p.body(h, s).value.1..]);
      }
  }

  /** A stream that arrives in one piece is always read as the reference reads it. */
  lemma WholeStreamParsed<M(!new)>(p: Protocol<M>, s: seq<Byte>, broken: bool)
    requires WellFormed(p)
    requires |s| < TWO32
    ensures var (ms, refused) := Parse(p, None, s);
            ReadAll(p, FRESH, [s], broken) ==
            (ms, if refused then BadFormat else if broken then SocketError else Disconnected)
  {
    AllHeldIsHonest(p, None, s);
    assert FRESH.buffer + s == s && s + [] == s;
    var low := HeaderStep(p, Ctx(s, None), [], |s|, |s|);
    var c := Receive(p, FRESH, s);
    assert NextMessage(p, FRESH, [s], broken) == NextMessage(p, c, [], broken);
    ReaderFollowsParser(p, c, [], broken, low, |s|);
  }

  /** A dishonest stream of any length, cut where it can be, is refused after fewer messages
      than the reference reads, provided that what the reader then holds has a 32-bit length. */
  lemma CutStreamRefused<M(!new)>(p: Protocol<M>, s: seq<Byte>, broken: bool)
    requires WellFormed(p) && !Honest(p, None, s, 0)
    requires p.header(s).Some? && Cut(p, None, s, 0) - p.header(s).value.1 < TWO32
    ensures var cut := Cut(p, None, s, 0);
            var (ms, end) := ReadAll(p, FRESH, [s[..cut], s[cut..]], broken);
            cut > 0 && end == BadFormat && |ms| < |Parse(p, None, s).0|
  {
    var cut := Cut(p, None, s, 0);
    var head, tail := s[..cut], s[cut..];
    HeaderOfPrefix(p, head, s);
    var n := p.header(s).value.1;
    var c := Receive(p, FRESH, head);
    assert FRESH.buffer + head == head;
    assert c == Ctx(head[n..], Some(p.header(s).value.0));
    assert c.buffer + tail == s[n..];
    assert NextMessage(p, FRESH, [head, tail], broken) == NextMessage(p, c, [tail], broken);
    CutBreaksReader(p, c, tail, broken, 0);
  }

  lemma HonestStreamParsed<M(!new)>(p: Protocol<M>, s: seq<Byte>, chunks: seq<seq<Byte>>, broken: bool)
    requires WellFormed(p)
    requires |s| < TWO32 && Honest(p, None, s, 0) && Chunks(chunks, s)
    ensures var (ms, refused) := Parse(p, None, s);
            ReadAll(p, FRESH, chunks, broken) ==
            (ms, if refused then BadFormat else if broken then SocketError else Disconnected)
  {
    assert FRESH.buffer + Flatten(chunks) == s;
    assert LocalAt(p.header, []);
    ReaderFollowsParser(p, FRESH, chunks, broken, 0, |s|);
  }

  lemma SplitIsChunking(s: seq<Byte>, cut: nat)
    requires 0 < cut < |s|
    ensures Chunks([s], s) && Chunks([s[..cut], s[cut..]], s)
  {
    assert [s][1..] == [];
    var split := [s[..cut], s[cut..]];
    assert split[1..] == [s[cut..]] && [s[cut..]][1..] == [];
    assert Flatten([s[cut..]]) == s[cut..];
  }

  ghost predicate ReadAlike<M(!new)>(p: Protocol<M>, s: seq<Byte>, broken: bool)
    requires WellFormed(p)
  {
    forall chunks, chunks' | Chunks(chunks, s) && Chunks(chunks', s) ::
      ReadAll(p, FRESH, chunks, broken) == ReadAll(p, FRESH, chunks', broken)
  }

  /** For every stream below 2^32 bytes: all ways of cutting it into chunks are read alike if
      and only if the stream is honest. */
  lemma ReadAlikeIffHonest<M(!new)>(p: Protocol<M>, s: seq<Byte>, broken: bool)
    requires WellFormed(p)
    requires |s| < TWO32
    ensures ReadAlike(p, s, broken) <==> Honest(p, None, s, 0)
  {
    if Honest(p, None, s, 0) {
      forall chunks, chunks' | Chunks(chunks, s) && Chunks(chunks', s)
        ensures ReadAll(p, FRESH, chunks, broken) == ReadAll(p, FRESH, chunks', broken)
      {
        HonestStreamParsed(p, s, chunks, broken);
        HonestStreamParsed(p, s, chunks', broken);
      }
    } else {
      assert LocalAt(p.header, s);
      var cut := Cut(p, None, s, 0);
      CutStreamRefused(p, s, broken);
      WholeStreamParsed(p, s, broken);
      SplitIsChunking(s, cut);
      assert ReadAll(p, FRESH, [s], broken) != ReadAll(p, FRESH, [s[..cut], s[cut..]], broken);
    }
  }

  ghost predicate Chunks(chunks: seq<seq<Byte>>, s: seq<Byte>) {
    Flatten(chunks) == s && forall i :: 0 <= i < |chunks| ==> chunks[i] != []
  }
}
