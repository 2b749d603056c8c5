/**
 The receiving end of a byte stream: a buffer that grows by arbitrary chunks, a header that
 is parsed as soon as it is whole, and `ReadNext`, which returns the next message. The body
 decoder is a parameter, as it is of the program's reader.
 */
module Reader {
  import opened Delimited
  import opened Widths
  import opened Messages

  /** How a reader decodes headers, and bodies announced by a header. */
  datatype Protocol<!M> = Protocol(header: Decoder<Header>, body: (Header, seq<Byte>) -> Option<(M, nat)>)

  ghost predicate BodyLocalAt<M(!new)>(p: Protocol<M>, h: Header, s: seq<Byte>) {
    p.body(h, s).Some? ==>
      && 1 <= p.body(h, s).value.1 <= |s|
      && forall u :: s[..p.body(h, s).value.1] <= u ==> p.body(h, u) == p.body(h, s)
  }

  ghost predicate WellFormed<M(!new)>(p: Protocol<M>) {
    && Local(p.header)
    && (forall s :: p.header(s).Some? ==> p.header(s).value.0.length < TWO32)
    && (forall h, s :: BodyLocalAt(p, h, s))
  }

  // ----- the buffer

  datatype Ctx = Ctx(buffer: seq<Byte>, header: Option<Header>)

  const FRESH := Ctx([], None)

  datatype BufferState = Empty | WaitHeader | WaitData | Done

  /** The buffer length is cast to 32 bits before it is compared. */
  function GetState(c: Ctx): BufferState {
    var pos := |c.buffer| % TWO32;
    match c.header
    case None => if pos == 0 then Empty else WaitHeader
    case Some(h) => if pos >= h.length then Done else WaitData
  }

  function TryReadHeader<M(!new)>(p: Protocol<M>, c: Ctx): (r: Ctx)
    requires WellFormed(p)
    ensures |r.buffer| <= |c.buffer|
  {
    assert LocalAt(p.header, c.buffer);
    match p.header(c.buffer)
    case None => c
    case Some((h, n)) => Ctx(c.buffer[n..], Some(h))
  }

  /** One read from the socket, by a reader that was not yet done. */
  function Receive<M(!new)>(p: Protocol<M>, c: Ctx, chunk: seq<Byte>): Ctx
    requires WellFormed(p)
  {
    var grown := c.(buffer := c.buffer + chunk);
    if GetState(c) == Empty || GetState(c) == WaitHeader then TryReadHeader(p, grown) else grown
  }

  /** Decodes the body that is waiting; the buffer advances by what the decoder took. */
  function Take<M(!new)>(p: Protocol<M>, c: Ctx): Option<(M, Ctx)>
    requires WellFormed(p)
    requires GetState(c) == Done
  {
    assert BodyLocalAt(p, c.header.value, c.buffer);
    match p.body(c.header.value, c.buffer)
    case None => None
    case Some((m, n)) =>
      var rest := Ctx(c.buffer[n..], None);
      Some((m, if |rest.buffer| > 0 then TryReadHeader(p, rest) else rest))
  }

  // ----- reading from a socket

  datatype ReadResult<+M> = Delivered(message: M) | Disconnected | SocketError | BadFormat

  function Flatten(chunks: seq<seq<Byte>>): seq<Byte> {
    if chunks == [] then [] else chunks[0] + Flatten(chunks[1..])
  }

  /** One call of the reader on a socket that will deliver `chunks` and then end. */
  ghost function NextMessage<M(!new)>(p: Protocol<M>, c: Ctx, chunks: seq<seq<Byte>>, broken: bool)
    : (r: (ReadResult<M>, Ctx, seq<seq<Byte>>))
    requires WellFormed(p)
    ensures r.0.Delivered? ==> |r.1.buffer| + |Flatten(r.2)| < |c.buffer| + |Flatten(chunks)|
    decreases |chunks|
  {
    if GetState(c) == Done then
      assert BodyLocalAt(p, c.header.value, c.buffer);
      match Take(p, c)
      case None => (BadFormat, c, chunks)
      case Some((m, c')) => (Delivered(m), c', chunks)
    else if chunks == [] then (if broken then SocketError else Disconnected, c, chunks)
    else NextMessage(p, Receive(p, c, chunks[0]), chunks[1..], broken)
  }

  /** Calls of the reader until one fails: the messages delivered and the failure. */
  ghost function ReadAll<M(!new)>(p: Protocol<M>, c: Ctx, chunks: seq<seq<Byte>>, broken: bool)
    : (seq<M>, ReadResult<M>)
    requires WellFormed(p)
    decreases |c.buffer| + |Flatten(chunks)|
  {
    var (r, c', rest) := NextMessage(p, c, chunks, broken);
    if r.Delivered? then
      var (ms, end) := ReadAll(p, c', rest, broken);
      ([r.message] + ms, end)
    else ([], r)
  }

  datatype ReadBufResult = Bytes(n: nat) | Failed

  /** A byte stream that hands over its content in chunks the reader does not choose. */
  class Socket {
    var incoming: seq<seq<Byte>>
    const broken: bool

    constructor (incoming: seq<seq<Byte>>, broken: bool)
      ensures this.incoming == incoming && this.broken == broken
    {
      this.incoming, this.broken := incoming, broken;
    }

    /** Appends the next chunk; zero bytes mean the peer has closed the stream. */
    method ReadBuf(ctx: BufferContext) returns (r: ReadBufResult)
      modifies `incoming, ctx`buffer
      ensures old(incoming) == [] ==> r == (if broken then Failed else Bytes(0))
      ensures old(incoming) == [] ==> incoming == [] && ctx.buffer == old(ctx.buffer)
      ensures old(incoming) != [] ==> r == Bytes(|old(incoming)[0]|)
      ensures old(incoming) != [] ==> incoming == old(incoming)[1..]
      ensures old(incoming) != [] ==> ctx.buffer == old(ctx.buffer) + old(incoming)[0]
    {
      if incoming == [] {
        return if broken then Failed else Bytes(0);
      }
      r := Bytes(|incoming[0]|);
      ctx.buffer := ctx.buffer + incoming[0];
      incoming := incoming[1..];
    }
  }

  class BufferContext {
    var buffer: seq<Byte>
    var header: Option<Header>

    constructor ()
      ensures Value() == FRESH
    {
      buffer, header := [], None;
    }

    function Value(): Ctx
      reads this
    {
      Ctx(buffer, header)
    }

    method ReadHeader<M(!new)>(p: Protocol<M>) returns (ok: bool)
      requires WellFormed(p)
      modifies this
      ensures Value() == TryReadHeader(p, old(Value()))
      ensures ok <==> p.header(old(buffer)).Some?
    {
      assert LocalAt(p.header, buffer);
      match p.header(buffer)
      case None =>
        ok := false;
      case Some((h, n)) =>
        header := Some(h);
        buffer := buffer[n..];
        ok := true;
    }

    /** Decodes the body and, when bytes are left over, tries the next header at once. */
    method TakeMessage<M(!new)>(p: Protocol<M>) returns (r: ReadResult<M>)
      requires WellFormed(p)
      requires GetState(Value()) == Done
      modifies this
      ensures match Take(p, old(Value()))
              case None => r == BadFormat && Value() == old(Value())
              case Some((m, c)) => r == Delivered(m) && Value() == c
    {
      assert BodyLocalAt(p, header.value, buffer);
      match p.body(header.value, buffer)
      case None =>
        r := BadFormat;
      case Some((m, n)) =>
        buffer := buffer[n..];
        header := None;
        if |buffer| > 0 {
          var _ := ReadHeader(p);
        }
        r := Delivered(m);
    }
  }

  method ReadNext<M(!new)>(p: Protocol<M>, socket: Socket, ctx: BufferContext) returns (r: ReadResult<M>)
    requires WellFormed(p)
    requires forall chunk :: chunk in socket.incoming ==> chunk != []
    modifies socket`incoming, ctx
    ensures (r, ctx.Value(), socket.incoming)
         == NextMessage(p, old(ctx.Value()), old(socket.incoming), socket.broken)
    ensures r.Disconnected? ==> !socket.broken && socket.incoming == [] && GetState(ctx.Value()) != Done
    ensures r.SocketError? ==> socket.broken && socket.incoming == [] && GetState(ctx.Value()) != Done
    ensures r.BadFormat? ==> GetState(ctx.Value()) == Done && p.body(ctx.header.value, ctx.buffer).None?
  {
    while true
      invariant forall chunk :: chunk in socket.incoming ==> chunk != []
      invariant NextMessage(p, ctx.Value(), socket.incoming, socket.broken)
             == NextMessage(p, old(ctx.Value()), old(socket.incoming), socket.broken)
      decreases |socket.incoming|, GetState(ctx.Value()) != Done
    {
      var state := GetState(ctx.Value());
      if state != Done {
        ghost var before, chunks := ctx.Value(), socket.incoming;
        assert chunks != [] ==> chunks[0] in chunks;
        var got := socket.ReadBuf(ctx);
        match got {
          case Failed => return SocketError;
          case Bytes(n) =>
            if n == 0 {
              return Disconnected;
            }
        }
        if state == Empty || state == WaitHeader {
          var _ := ctx.ReadHeader(p);
        }
        assert ctx.Value() == Receive(p, before, chunks[0]);
        assert forall chunk :: chunk in chunks[1..] ==> chunk in chunks;
        state := GetState(ctx.Value());
      }
      if state == Done {
        r := ctx.TakeMessage(p);
        return;
      }
    }
  }
}
