/**
 Where the bytes of a stream are while it is being read. After any number of calls of the
 reader, on any stream and under any chunking, the stream is the bytes of the messages
 delivered, then those of a header already parsed, then the buffer, then what is to come.
 */
module Conservation {
  import opened Delimited
  import opened Reader
  import opened Chunking
  import opened Framing

  /** A reader between two calls: the messages delivered so far, its buffer and header, and
      the chunks that the socket has not yet handed over. */
  datatype Progress<+M> = Progress(delivered: seq<M>, ctx: Ctx, rest: seq<seq<Byte>>)

  /** The reader after `k` calls, some of which may have failed. */
  ghost function AfterCalls<M(!new)>(p: Protocol<M>, chunks: seq<seq<Byte>>, broken: bool, k: nat): Progress<M>
    requires WellFormed(p)
  {
    if k == 0 then Progress([], FRESH, chunks)
    else
      var g := AfterCalls(p, chunks, broken, k - 1);
      var (r, c, rest) := NextMessage(p, g.ctx, g.rest, broken);
      Progress(if r.Delivered? then g.delivered + [r.message] else g.delivered, c, rest)
  }

  // ----- any stream

  /** The bytes from which one message was decoded. */
  datatype Piece = Piece(head: seq<Byte>, body: seq<Byte>)

  function Glued(pieces: seq<Piece>): seq<Byte> {
    if pieces == [] then []
    else
      var n := |pieces| - 1;
      Glued(pieces[..n]) + (pieces[n].head + pieces[n].body)
  }

  /** The two parts of a piece decode, each to its end, to a header and to `m`. */
  ghost predicate DecodesTo<M(!new)>(p: Protocol<M>, piece: Piece, m: M) {
    var h := p.header(piece.head);
    h.Some? && h.value.1 == |piece.head| && p.body(h.value.0, piece.body) == Some((m, |piece.body|))
  }

  /** `pending` holds exactly the bytes of the header that is parsed and waiting. */
  ghost predicate Pending<M(!new)>(p: Protocol<M>, c: Ctx, pending: seq<Byte>) {
    if c.header.None? then pending == [] else p.header(pending) == Some((c.header.value, |pending|))
  }

  ghost predicate Accounts<M(!new)>(p: Protocol<M>, s: seq<Byte>, g: Progress<M>, pieces: seq<Piece>, pending: seq<Byte>) {
    && |pieces| == |g.delivered|
    && (forall i :: 0 <= i < |pieces| ==> DecodesTo(p, pieces[i], g.delivered[i]))
    && Pending(p, g.ctx, pending)
    && s == Glued(pieces) + (pending + (g.ctx.buffer + Flatten(g.rest)))
  }

  lemma HeaderMoves<M(!new)>(p: Protocol<M>, c: Ctx) returns (pending: seq<Byte>)
    requires WellFormed(p) && c.header.None?
    ensures var c' := TryReadHeader(p, c);
            Pending(p, c', pending) && pending + c'.buffer == c.buffer
  {
    assert LocalAt(p.header, c.buffer);
    pending := [];
    if p.header(c.buffer).Some? {
      pending := c.buffer[..p.header(c.buffer).value.1];
      assert pending <= pending;
    }
  }

  lemma ReceiveConserves<M(!new)>(p: Protocol<M>, c: Ctx, chunk: seq<Byte>, pending: seq<Byte>)
    returns (pending': seq<Byte>)
    requires WellFormed(p) && Pending(p, c, pending) && GetState(c) != Done
    ensures var c' := Receive(p, c, chunk);
            Pending(p, c', pending') && pending' + c'.buffer == pending + (c.buffer + chunk)
  {
    pending' := pending;
    if c.header.None? {
      pending' := HeaderMoves(p, c.(buffer := c.buffer + chunk));
    }
  }

  lemma TakeConserves<M(!new)>(p: Protocol<M>, c: Ctx, pending: seq<Byte>) returns (piece: Piece, pending': seq<Byte>)
    requires WellFormed(p) && Pending(p, c, pending) && GetState(c) == Done && Take(p, c).Some?
    ensures var (m, c') := Take(p, c).value;
            && DecodesTo(p, piece, m) && Pending(p, c', pending')
            && piece.head + piece.body + (pending' + c'.buffer) == pending + c.buffer
  {
    var h := c.header.value;
    assert BodyLocalAt(p, h, c.buffer);
    var n := p.body(h, c.buffer).value.1;
    piece := Piece(pending, c.buffer[..n]);
    assert piece.body <= piece.body;
    pending' := [];
    if |c.buffer[n..]| > 0 {
      pending' := HeaderMoves(p, Ctx(c.buffer[n..], None));
    }
    assert c.buffer == c.buffer[..n] + c.buffer[n..];
  }

  /** One call that delivers, whatever it has to read before that. */
  lemma {:induction false} CallConserves<M(!new)>(
    p: Protocol<M>, c: Ctx, chunks: seq<seq<Byte>>, broken: bool, pending: seq<Byte>)
    returns (piece: Piece, pending': seq<Byte>)
    requires WellFormed(p) && Pending(p, c, pending) && NextMessage(p, c, chunks, broken).0.Delivered?
    ensures var (r, c', rest) := NextMessage(p, c, chunks, broken);
            && DecodesTo(p, piece, r.message) && Pending(p, c', pending')
            && piece.head + piece.body + (pending' + (c'.buffer + Flatten(rest)))
               == pending + (c.buffer + Flatten(chunks))
    decreases |chunks|
  {
    if GetState(c) == Done {
      piece, pending' := TakeConserves(p, c, pending);
      Appended(piece.head + piece.body, pending', Take(p, c).value.1.buffer, pending, c.buffer, Flatten(chunks));
    } else {
      var pending1 := FirstChunkConserves(p, c, chunks, pending);
      piece, pending' := CallConserves(p, Receive(p, c, chunks[0]), chunks[1..], broken, pending1);
    }
  }

  /** One call that fails, for want of bytes or on a refused body: nothing is lost. */
  lemma {:induction false} FailureConserves<M(!new)>(
    p: Protocol<M>, c: Ctx, chunks: seq<seq<Byte>>, broken: bool, pending: seq<Byte>)
    returns (pending': seq<Byte>)
    requires WellFormed(p) && Pending(p, c, pending) && !NextMessage(p, c, chunks, broken).0.Delivered?
    ensures var (_, c', rest) := NextMessage(p, c, chunks, broken);
            && Pending(p, c', pending')
            && pending' + (c'.buffer + Flatten(rest)) == pending + (c.buffer + Flatten(chunks))
    decreases |chunks|
  {
    if GetState(c) == Done || chunks == [] {
      pending' := pending;
    } else {
      var pending1 := FirstChunkConserves(p, c, chunks, pending);
      pending' := FailureConserves(p, Receive(p, c, chunks[0]), chunks[1..], broken, pending1);
    }
  }

  lemma FirstChunkConserves<M(!new)>(p: Protocol<M>, c: Ctx, chunks: seq<seq<Byte>>, pending: seq<Byte>)
    returns (pending': seq<Byte>)
    requires WellFormed(p) && Pending(p, c, pending) && GetState(c) != Done && chunks != []
    ensures var c' := Receive(p, c, chunks[0]);
            && Pending(p, c', pending')
            && pending' + (c'.buffer + Flatten(chunks[1..])) == pending + (c.buffer + Flatten(chunks))
  {
    var c', later := Receive(p, c, chunks[0]), Flatten(chunks[1..]);
    pending' := ReceiveConserves(p, c, chunks[0], pending);
    Appended([], pending', c'.buffer, pending, c.buffer + chunks[0], later);
    assert [] + (pending' + (c'.buffer + later)) == pending' + (c'.buffer + later);
    assert c.buffer + chunks[0] + later == c.buffer + Flatten(chunks);
  }

  lemma Appended(x: seq<Byte>, p: seq<Byte>, b: seq<Byte>, p': seq<Byte>, b': seq<Byte>, tail: seq<Byte>)
    requires x + (p + b) == p' + b'
    ensures x + (p + (b + tail)) == p' + (b' + tail)
  {
    assert x + (p + (b + tail)) == (x + (p + b)) + tail;
    assert p' + (b' + tail) == (p' + b') + tail;
  }

  /** For every stream, honest or not, every chunking and every number of calls, whether they
      deliver or fail: the stream is made of pieces that decode to the messages delivered, in
      order, then of the header that is parsed and waiting, then of the buffer and of what is
      still to come. */
  lemma {:induction false} StreamConserved<M(!new)>(p: Protocol<M>, chunks: seq<seq<Byte>>, broken: bool, k: nat)
    returns (pieces: seq<Piece>, pending: seq<Byte>)
    requires WellFormed(p)
    ensures Accounts(p, Flatten(chunks), AfterCalls(p, chunks, broken, k), pieces, pending)
  {
    if k == 0 {
      pieces, pending := [], [];
    } else {
      var g := AfterCalls(p, chunks, broken, k - 1);
      var before, waiting := StreamConserved(p, chunks, broken, k - 1);
      var (r, c, rest) := NextMessage(p, g.ctx, g.rest, broken);
      if r.Delivered? {
        var piece;
        piece, pending := CallConserves(p, g.ctx, g.rest, broken, waiting);
        pieces := before + [piece];
        OneMorePiece(p, Flatten(chunks), g, before, waiting, r.message, c, rest, piece, pending);
      } else {
        pieces := before;
        pending := FailureConserves(p, g.ctx, g.rest, broken, waiting);
      }
    }
  }

  lemma OneMorePiece<M(!new)>(
    p: Protocol<M>, s: seq<Byte>, g: Progress<M>, pieces: seq<Piece>, pending: seq<Byte>,
    m: M, c: Ctx, rest: seq<seq<Byte>>, piece: Piece, pending': seq<Byte>)
    requires Accounts(p, s, g, pieces, pending) && DecodesTo(p, piece, m) && Pending(p, c, pending')
    requires piece.head + piece.body + (pending' + (c.buffer + Flatten(rest)))
          == pending + (g.ctx.buffer + Flatten(g.rest))
    ensures Accounts(p, s, Progress(g.delivered + [m], c, rest), pieces + [piece], pending')
  {
    assert (pieces + [piece])[..|pieces|] == pieces;
    var taken, left := piece.head + piece.body, pending' + (c.buffer + Flatten(rest));
    assert Glued(pieces) + (taken + left) == (Glued(pieces) + taken) + left;
  }

  // ----- streams of frames

  /** While a reader waits it holds less than one frame. */
  lemma WaitingIsShort<M(!new)>(link: Link<M>, pipe: Pipe, ms: seq<M>, bound: nat)
    requires WellFormed(link.reader) && Carried(link, ms, bound)
    requires Holds(link, pipe, ms) && GetState(pipe.ctx) != Done
    ensures |pipe.ctx.buffer| <= bound
  {
    if ms != [] {
      var s, e := pipe.ctx.buffer, link.head(ms[0]);
      assert Carries(link, ms[0]) && ReadsFrame(link, ms[0], s) && |Frame(link, ms[0])| <= bound;
      HeadFirst(link, s, pipe.wire, ms);
    }
  }

  lemma HeadFirst<M>(link: Link<M>, buffer: seq<Byte>, wire: seq<Byte>, ms: seq<M>)
    requires ms != []
    ensures var e := link.head(ms[0]);
            buffer + wire == Stream(link, ms) && |e| <= |buffer| ==> e <= buffer
  {
    var e, later := link.head(ms[0]), link.body(ms[0]) + Stream(link, ms[1..]);
    assert Stream(link, ms) == e + later;
    assert |e| <= |buffer| ==> (buffer + wire)[..|e|] == buffer[..|e|];
  }

  /** One call of the reader on a pipe that holds `ms`, of which the bytes `lost` never arrive. */
  lemma {:induction false} CallKeepsHolds<M(!new)>(
    link: Link<M>, c: Ctx, chunks: seq<seq<Byte>>, lost: seq<Byte>, ms: seq<M>, broken: bool, bound: nat)
    requires WellFormed(link.reader) && Carried(link, ms, bound) && Fit(c, chunks, bound)
    requires Holds(link, Pipe(c, Flatten(chunks) + lost), ms)
    ensures var (r, c', rest) := NextMessage(link.reader, c, chunks, broken);
            && Fit(c', rest, bound)
            && (if r.Delivered? then
                  ms != [] && r.message == ms[0] && Holds(link, Pipe(c', Flatten(rest) + lost), ms[1..])
                else Holds(link, Pipe(c', Flatten(rest) + lost), ms))
    decreases |chunks|
  {
    var pipe := Pipe(c, Flatten(chunks) + lost);
    if GetState(c) == Done {
      TakeKeepsHolds(link, pipe, ms);
    } else if chunks != [] {
      ChunkKeepsHolds(link, c, chunks, lost, ms, bound);
      CallKeepsHolds(link, Receive(link.reader, c, chunks[0]), chunks[1..], lost, ms, broken, bound);
    }
  }

  lemma ChunkKeepsHolds<M(!new)>(
    link: Link<M>, c: Ctx, chunks: seq<seq<Byte>>, lost: seq<Byte>, ms: seq<M>, bound: nat)
    requires WellFormed(link.reader) && Carried(link, ms, bound) && Fit(c, chunks, bound)
    requires GetState(c) != Done && chunks != [] && Holds(link, Pipe(c, Flatten(chunks) + lost), ms)
    ensures var c' := Receive(link.reader, c, chunks[0]);
            Fit(c', chunks[1..], bound) && Holds(link, Pipe(c', Flatten(chunks[1..]) + lost), ms)
  {
    var pipe, later := Pipe(c, Flatten(chunks) + lost), Flatten(chunks[1..]) + lost;
    WaitingIsShort(link, pipe, ms, bound);
    assert pipe.wire == chunks[0] + later;
    ReceiveKeepsHolds(link, pipe, ms, |chunks[0]|);
  }

  lemma {:induction false} CallsKeepHolds<M(!new)>(
    link: Link<M>, ms: seq<M>, j: nat, chunks: seq<seq<Byte>>, broken: bool, bound: nat, k: nat)
    requires WellFormed(link.reader) && Carried(link, ms, bound) && Fit(FRESH, chunks, bound)
    requires j <= |Stream(link, ms)| && Flatten(chunks) == Stream(link, ms)[..j]
    ensures var g := AfterCalls(link.reader, chunks, broken, k);
            var d := |g.delivered|;
            && d <= |ms| && g.delivered == ms[..d] && Fit(g.ctx, g.rest, bound)
            && Holds(link, Pipe(g.ctx, Flatten(g.rest) + Stream(link, ms)[j..]), ms[d..])
  {
    var lost := Stream(link, ms)[j..];
    if k == 0 {
      assert Flatten(chunks) + lost == Stream(link, ms);
      FreshHolds(link, ms, bound);
      assert ms[0..] == ms;
    } else {
      CallsKeepHolds(link, ms, j, chunks, broken, bound, k - 1);
      var g := AfterCalls(link.reader, chunks, broken, k - 1);
      var d := |g.delivered|;
      CarriedRest(link, ms, d, bound);
      CallKeepsHolds(link, g.ctx, g.rest, lost, ms[d..], broken, bound);
      if d < |ms| {
        SplitOneMore(ms, d + 1);
      }
    }
  }

  lemma FreshHolds<M(!new)>(link: Link<M>, ms: seq<M>, bound: nat)
    requires WellFormed(link.reader) && Carried(link, ms, bound)
    ensures Holds(link, Pipe(FRESH, Stream(link, ms)), ms)
  {
    assert LocalAt(link.reader.header, []);
    assert [] + Stream(link, ms) == Stream(link, ms);
  }

  lemma CarriedRest<M(!new)>(link: Link<M>, ms: seq<M>, k: nat, bound: nat)
    requires Carried(link, ms, bound) && k <= |ms|
    ensures Carried(link, ms[k..], bound)
  {
  }

  lemma SplitOneMore<M>(ms: seq<M>, k: nat)
    requires 0 < k <= |ms|
    ensures ms[k - 1..][1..] == ms[k..] && ms[k - 1..][0] == ms[k - 1] && ms[..k] == ms[..k - 1] + [ms[k - 1]]
  {
  }

  /** For every list of messages, every point at which the stream of their frames stops, every
      chunking and every number `k` of calls, whether they deliver or find the end of input: the
      messages delivered are the first ones, and the bytes sent are their frames, the next
      message's header if it is parsed, the buffer, and what is still to come. */
  lemma FramesConserved<M(!new)>(
    link: Link<M>, ms: seq<M>, j: nat, chunks: seq<seq<Byte>>, broken: bool, bound: nat, k: nat)
    requires WellFormed(link.reader) && Carried(link, ms, bound) && Fit(FRESH, chunks, bound)
    requires j <= |Stream(link, ms)| && Flatten(chunks) == Stream(link, ms)[..j]
    ensures var g := AfterCalls(link.reader, chunks, broken, k);
            var d := |g.delivered|;
            && d <= |ms| && g.delivered == ms[..d]
            && (g.ctx.header.Some? ==> d < |ms| && g.ctx.header.value == link.header(ms[d]))
            && Stream(link, ms)[..j]
               == Stream(link, ms[..d])
                  + ((if g.ctx.header.Some? then link.head(ms[d]) else []) + (g.ctx.buffer + Flatten(g.rest)))
  {
    CallsKeepHolds(link, ms, j, chunks, broken, bound, k);
    var g := AfterCalls(link.reader, chunks, broken, k);
    HeldIsLeft(link, ms, j, g.ctx, Flatten(g.rest), |g.delivered|);
  }

  lemma HeldIsLeft<M(!new)>(link: Link<M>, ms: seq<M>, j: nat, c: Ctx, rest: seq<Byte>, d: nat)
    requires d <= |ms| && j <= |Stream(link, ms)|
    requires Holds(link, Pipe(c, rest + Stream(link, ms)[j..]), ms[d..])
    ensures c.header.Some? ==> d < |ms| && c.header.value == link.header(ms[d])
    ensures Stream(link, ms)[..j]
         == Stream(link, ms[..d]) + ((if c.header.Some? then link.head(ms[d]) else []) + (c.buffer + rest))
  {
    HeldBytes(link, Pipe(c, rest + Stream(link, ms)[j..]), ms[d..]);
    var parsed := if c.header.Some? then link.head(ms[d]) else [];
    assert ms[..d] + ms[d..] == ms;
    StreamConcat(link, ms[..d], ms[d..]);
    CommonEnd(Stream(link, ms), j, Stream(link, ms[..d]), parsed, c.buffer, rest);
  }

  lemma HeldBytes<M(!new)>(link: Link<M>, pipe: Pipe, ms: seq<M>)
    requires Holds(link, pipe, ms)
    ensures pipe.ctx.header.Some? ==> ms != [] && pipe.ctx.header.value == link.header(ms[0])
    ensures Stream(link, ms)
         == (if pipe.ctx.header.Some? then link.head(ms[0]) else []) + (pipe.ctx.buffer + pipe.wire)
  {
    var bytes := pipe.ctx.buffer + pipe.wire;
    assert [] + bytes == bytes;
    if ms != [] {
      FirstFrame(link, ms);
    }
  }

  lemma FirstFrame<M>(link: Link<M>, ms: seq<M>)
    requires ms != []
    ensures Stream(link, ms) == link.head(ms[0]) + (link.body(ms[0]) + Stream(link, ms[1..]))
  {
  }

  lemma CommonEnd(s: seq<Byte>, j: nat, a: seq<Byte>, b: seq<Byte>, c: seq<Byte>, d: seq<Byte>)
    requires j <= |s| && s == a + (b + (c + (d + s[j..])))
    ensures s[..j] == a + (b + (c + d))
  {
    var front := a + (b + (c + d));
    assert a + (b + (c + (d + s[j..]))) == front + s[j..];
    assert |front| == j && (front + s[j..])[..j] == front;
  }
}
