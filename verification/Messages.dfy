/**
 bolt messages: the request and response bodies, the header that precedes each of them on
 the wire, and the decoders selected by the header's kind.
 */
module Messages {
  import opened Delimited
  import opened Widths
  import opened Wire

  datatype ErrorStatus = Unknown | InvalidHandle | ArgumentOutOfRange

  datatype Message =
    | Alloc(size: U64)
    | Write(handle: U64, offset: U64, buf: seq<Byte>)
    | Read(handle: U64, offset: U64, len: U64)
    | Invoke(handle: U64)
    | OkWithHandle(handle: U64)
    | OkWithBuffer(handle: U64, offset: U64, buf: seq<Byte>)
    | Err(error: ErrorStatus, message: seq<Byte>)

  /** Which body type a reader was instantiated with. */
  datatype Side = Requests | Responses

  /** The bytes are those of the text. */
  predicate Spells(bytes: seq<Byte>, text: string) {
    |bytes| == |text| && forall i :: 0 <= i < |text| ==> bytes[i] == text[i] as int
  }

  const ALLOC: seq<Byte> := [0x41, 0x4c, 0x4c, 0x4f, 0x43]
  const WRITE: seq<Byte> := [0x57, 0x52, 0x49, 0x54, 0x45]
  const READ: seq<Byte> := [0x52, 0x45, 0x41, 0x44]
  const CALL: seq<Byte> := [0x43, 0x41, 0x4c, 0x4c]
  const OK_H: seq<Byte> := [0x4f, 0x4b, 0x5f, 0x48]
  const OK_B: seq<Byte> := [0x4f, 0x4b, 0x5f, 0x42]
  const ERR: seq<Byte> := [0x45, 0x52, 0x52]

  function Kind(m: Message): seq<Byte> {
    match m
    case Alloc(_) => ALLOC
    case Write(_, _, _) => WRITE
    case Read(_, _, _) => READ
    case Invoke(_) => CALL
    case OkWithHandle(_) => OK_H
    case OkWithBuffer(_, _, _) => OK_B
    case Err(_, _) => ERR
  }

  function StatusTag(e: ErrorStatus): nat {
    match e
    case Unknown => 0
    case InvalidHandle => 1
    case ArgumentOutOfRange => 2
  }

  function Fields(m: Message): seq<Token> {
    match m
    case Alloc(size) => [Arr(1), UInt(size)]
    case Write(h, offset, buf) => [Arr(3), UInt(h), UInt(offset), Bin(buf)]
    case Read(h, offset, len) => [Arr(3), UInt(h), UInt(offset), UInt(len)]
    case Invoke(h) => [Arr(1), UInt(h)]
    case OkWithHandle(h) => [Arr(1), UInt(h)]
    case OkWithBuffer(h, offset, buf) => [Arr(3), UInt(h), UInt(offset), Bin(buf)]
    case Err(e, text) => [Arr(2), UInt(StatusTag(e)), Str(text)]
  }

  function Body(m: Message): seq<Byte> {
    Concat(EncodeToken, Fields(m))
  }

  // ----- decoding a body

  /** The number of tokens in a body of the given kind; None for a kind the reader has no
      arm for. Requests of kind CALL are such a kind. */
  function Arity(side: Side, kind: seq<Byte>): Option<nat> {
    match side
    case Requests =>
      if kind == ALLOC then Some(2) else if kind == READ || kind == WRITE then Some(4) else None
    case Responses =>
      if kind == OK_H then Some(2) else if kind == OK_B then Some(4)
      else if kind == ERR then Some(3) else None
  }

  function AsU64(t: Token): Option<U64> {
    if t.UInt? && t.n < TWO64 then Some(t.n) else None
  }

  function AsStatus(t: Token): Option<ErrorStatus> {
    match t
    case UInt(n) =>
      if n == 0 then Some(Unknown) else if n == 1 then Some(InvalidHandle)
      else if n == 2 then Some(ArgumentOutOfRange) else None
    case _ => None
  }

  function Assemble(side: Side, kind: seq<Byte>, ts: seq<Token>): Option<Message>
    requires Arity(side, kind) == Some(|ts|)
  {
    if |ts| == 2 then
      if ts[0] == Arr(1) && AsU64(ts[1]).Some? then
        Some(if side == Requests then Alloc(AsU64(ts[1]).value) else OkWithHandle(AsU64(ts[1]).value))
      else None
    else if |ts| == 3 then
      if ts[0] == Arr(2) && AsStatus(ts[1]).Some? && ts[2].Str? then
        Some(Err(AsStatus(ts[1]).value, ts[2].text))
      else None
    else if ts[0] != Arr(3) || AsU64(ts[1]).None? || AsU64(ts[2]).None? then None
    else if side == Requests && kind == READ then
      if AsU64(ts[3]).None? then None
      else Some(Read(AsU64(ts[1]).value, AsU64(ts[2]).value, AsU64(ts[3]).value))
    else if !ts[3].Bin? then None
    else if side == Requests then Some(Write(AsU64(ts[1]).value, AsU64(ts[2]).value, ts[3].data))
    else Some(OkWithBuffer(AsU64(ts[1]).value, AsU64(ts[2]).value, ts[3].data))
  }

  function DecodeBody(side: Side, kind: seq<Byte>, s: seq<Byte>): (r: Option<(Message, nat)>)
    ensures r.Some? ==> 1 <= r.value.1 <= |s|
  {
    match Arity(side, kind)
    case None => None
    case Some(k) =>
      match DecodeMany(DecodeToken, s, k)
      case None => None
      case Some((ts, n)) =>
        match Assemble(side, kind, ts)
        case None => None
        case Some(m) => Some((m, n))
  }

  // ----- the header

  datatype Header = Header(kind: seq<Byte>, length: nat)

  function EncodeHeader(h: Header): seq<Byte> {
    Concat(EncodeToken, [Arr(2), Str(h.kind), UInt(h.length)])
  }

  function AssembleHeader(ts: seq<Token>): Option<Header>
    requires |ts| == 3
  {
    if ts[0] == Arr(2) && ts[1].Str? && ts[2].UInt? && ts[2].n < TWO32
    then Some(Header(ts[1].text, ts[2].n))
    else None
  }

  function DecodeHeader(s: seq<Byte>): (r: Option<(Header, nat)>)
    ensures r.Some? ==> 1 <= r.value.1 <= |s| && r.value.0.length < TWO32
  {
    match DecodeMany(DecodeToken, s, 3)
    case None => None
    case Some((ts, n)) =>
      match AssembleHeader(ts)
      case None => None
      case Some(h) => Some((h, n))
  }

  /** The length field is 32 bits wide and is filled by a truncating cast. */
  function HeaderOf(m: Message): Header {
    Header(Kind(m), |Body(m)| % TWO32)
  }

  /** The messages a reader of the given side accepts, with strings and blobs that
      MessagePack can carry. */
  predicate Encodable(side: Side, m: Message) {
    && (match side
        case Requests => m.Alloc? || m.Read? || m.Write?
        case Responses => m.OkWithHandle? || m.OkWithBuffer? || m.Err?)
    && (m.Write? || m.OkWithBuffer? ==> |m.buf| < TWO32)
    && (m.Err? ==> |m.message| < TWO32)
  }

  /** Encodable messages whose body length survives the cast to 32 bits. */
  predicate Sendable(side: Side, m: Message) {
    Encodable(side, m) && |Body(m)| < TWO32
  }

  // ----- self-delimitation of headers and bodies

  lemma HeaderLocal(s: seq<Byte>, u: seq<Byte>)
    requires DecodeHeader(s).Some?
    requires s[..DecodeHeader(s).value.1] <= u
    ensures DecodeHeader(u) == DecodeHeader(s)
  {
    DecodeTokenLocal();
    ManyLocal(DecodeToken, s, u, 3);
  }

  lemma BodyLocal(side: Side, kind: seq<Byte>, s: seq<Byte>, u: seq<Byte>)
    requires DecodeBody(side, kind, s).Some?
    requires s[..DecodeBody(side, kind, s).value.1] <= u
    ensures DecodeBody(side, kind, u) == DecodeBody(side, kind, s)
  {
    DecodeTokenLocal();
    ManyLocal(DecodeToken, s, u, Arity(side, kind).value);
  }

  lemma HeaderRoundTrip(h: Header, rest: seq<Byte>)
    requires |h.kind| < TWO32 && h.length < TWO32
    ensures DecodeHeader(EncodeHeader(h) + rest) == Some((h, |EncodeHeader(h)|))
  {
    var ts := [Arr(2), Str(h.kind), UInt(h.length)];
    forall t | t in ts ensures Inverts(EncodeToken, DecodeToken, t) { TokenInverts(t); }
    ManyRoundTrip(EncodeToken, DecodeToken, ts, rest);
  }

  lemma AssembleInvertsFields(side: Side, m: Message)
    requires Encodable(side, m)
    ensures Arity(side, Kind(m)) == Some(|Fields(m)|)
    ensures Assemble(side, Kind(m), Fields(m)) == Some(m)
  {
    assert ALLOC[0] != WRITE[0] && READ[0] != OK_B[0];
    assert OK_H[3] != OK_B[3];
  }

  lemma BodyRoundTrip(side: Side, m: Message, rest: seq<Byte>)
    requires Encodable(side, m)
    ensures DecodeBody(side, Kind(m), Body(m) + rest) == Some((m, |Body(m)|))
  {
    AssembleInvertsFields(side, m);
    forall t | t in Fields(m) ensures Inverts(EncodeToken, DecodeToken, t) { TokenInverts(t); }
    ManyRoundTrip(EncodeToken, DecodeToken, Fields(m), rest);
  }

  /** A body is decoded to `m` exactly when its tokens are the fields of `m`. */
  lemma DecodedIffFields(side: Side, kind: seq<Byte>, s: seq<Byte>, m: Message, n: nat)
    requires side == Requests ==> m.Alloc? || m.Read? || m.Write?
    requires side == Responses ==> m.OkWithHandle? || m.OkWithBuffer? || m.Err?
    ensures DecodeBody(side, kind, s) == Some((m, n))
            <==> kind == Kind(m) && DecodeMany(DecodeToken, s, |Fields(m)|) == Some((Fields(m), n))
  {
    KindsDiffer();
    var k := Arity(side, kind);
    if k.Some? && DecodeMany(DecodeToken, s, k.value).Some? {
      AssembledIffFields(side, kind, DecodeMany(DecodeToken, s, k.value).value.0, m);
    }
  }

  lemma KindsDiffer()
    ensures ALLOC != READ && ALLOC != WRITE && READ != WRITE
    ensures OK_H != OK_B && OK_H != ERR && OK_B != ERR
  {
    assert ALLOC[0] != READ[0] && ALLOC[0] != WRITE[0] && READ[0] != WRITE[0] && OK_H[3] != OK_B[3] && OK_H[0] != ERR[0];
  }

  lemma AssembledIffFields(side: Side, kind: seq<Byte>, ts: seq<Token>, m: Message)
    requires Arity(side, kind) == Some(|ts|)
    requires side == Requests ==> m.Alloc? || m.Read? || m.Write?
    requires side == Responses ==> m.OkWithHandle? || m.OkWithBuffer? || m.Err?
    ensures Assemble(side, kind, ts) == Some(m) <==> kind == Kind(m) && ts == Fields(m)
  {
    KindsDiffer();
    if |ts| == 2 {
      assert ts == [ts[0], ts[1]];
    } else if |ts| == 3 {
      assert ts == [ts[0], ts[1], ts[2]];
    } else {
      assert ts == [ts[0], ts[1], ts[2], ts[3]];
    }
  }

  /** Whatever is decoded is a message of the reader's side. */
  lemma DecodedIsOfSide(side: Side, kind: seq<Byte>, s: seq<Byte>)
    requires DecodeBody(side, kind, s).Some?
    ensures var m := DecodeBody(side, kind, s).value.0;
            if side == Requests then m.Alloc? || m.Read? || m.Write? else m.OkWithHandle? || m.OkWithBuffer? || m.Err?
  {
  }

  /** A header is decoded to `h` exactly when its tokens are an array of its kind and length. */
  lemma DecodedIffHeader(s: seq<Byte>, h: Header, n: nat)
    requires h.length < TWO32
    ensures DecodeHeader(s) == Some((h, n))
            <==> DecodeMany(DecodeToken, s, 3) == Some(([Arr(2), Str(h.kind), UInt(h.length)], n))
  {
    var r := DecodeMany(DecodeToken, s, 3);
    if r.Some? {
      var ts := r.value.0;
      assert ts == [ts[0], ts[1], ts[2]];
    }
  }

  /** A retried parse of a header never commits early: no strict prefix decodes. */
  lemma HeaderPrefixFails(h: Header, k: nat)
    requires |h.kind| < TWO32 && h.length < TWO32
    requires k < |EncodeHeader(h)|
    ensures DecodeHeader(EncodeHeader(h)[..k]).None?
  {
    var e := EncodeHeader(h);
    HeaderRoundTrip(h, []);
    assert e + [] == e;
    if DecodeHeader(e[..k]).Some? {
      HeaderLocal(e[..k], e);
    }
  }

  lemma BodyPrefixFails(side: Side, m: Message, k: nat)
    requires Encodable(side, m)
    requires k < |Body(m)|
    ensures DecodeBody(side, Kind(m), Body(m)[..k]).None?
  {
    BodyRoundTrip(side, m, []);
    assert Body(m) + [] == Body(m);
    PrefixFails(side, Kind(m), Body(m), k);
  }

  lemma PrefixFails(side: Side, kind: seq<Byte>, e: seq<Byte>, k: nat)
    requires DecodeBody(side, kind, e).Some? && DecodeBody(side, kind, e).value.1 == |e| && k < |e|
    ensures DecodeBody(side, kind, e[..k]).None?
  {
    if DecodeBody(side, kind, e[..k]).Some? {
      BodyLocal(side, kind, e[..k], e);
    }
  }

  /** A CALL header is read, and then whatever follows it is refused. */
  lemma InvokeIsRefused(m: Message, s: seq<Byte>)
    requires m.Invoke?
    ensures DecodeHeader(EncodeHeader(HeaderOf(m)) + s) == Some((HeaderOf(m), |EncodeHeader(HeaderOf(m))|))
    ensures DecodeBody(Requests, Kind(m), s).None?
  {
    HeaderRoundTrip(HeaderOf(m), s);
    assert CALL[0] != READ[0];
  }
}
