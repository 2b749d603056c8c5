/**
 The throughput clients: each allocates a page, writes a buffer to it chunk by chunk, reads
 every chunk back and compares. Any number of them run against one server.
 */
module Throughput {
  import opened Delimited
  import opened Widths
  import opened Messages
  import opened Reader
  import opened PageServer
  import opened PageSpec
  import opened Isolation

  datatype Pc =
    | Begin
    | AwaitHandle
    | Ready(handle: U64, at: nat)
    | AwaitWrite(handle: U64, at: nat)
    | Written(handle: U64, at: nat)
    | AwaitRead(handle: U64, at: nat)
    | Finished(handle: U64)
    | GaveUp

  datatype Client = Client(data: seq<Byte>, chunk: nat, pc: Pc)

  predicate Configured(c: Client) {
    0 < |c.data| <= TWO64 - PAGE_SIZE && 0 < c.chunk < LIMIT
  }

  function ChunkAt(c: Client, at: nat): seq<Byte>
    requires at <= |c.data|
  {
    c.data[at..Min(at + c.chunk, |c.data|)]
  }

  // ----- the client's program

  /** The request that the client is about to send, if it is about to send one. */
  function Request(c: Client): Option<Message> {
    match c.pc
    case Begin => if |c.data| < TWO64 then Some(Alloc(|c.data|)) else None
    case Ready(h, at) =>
      if at < |c.data| && at < TWO64 then Some(Write(h, at, ChunkAt(c, at))) else None
    case Written(h, at) =>
      if at < |c.data| && at < TWO64 && |ChunkAt(c, at)| < TWO64
      then Some(Read(h, at, |ChunkAt(c, at)|)) else None
    case _ => None
  }

  function Sent(pc: Pc): Pc {
    match pc
    case Begin => AwaitHandle
    case Ready(h, at) => AwaitWrite(h, at)
    case Written(h, at) => AwaitRead(h, at)
    case _ => pc
  }

  predicate Awaits(pc: Pc) {
    pc.AwaitHandle? || pc.AwaitWrite? || pc.AwaitRead?
  }

  /** What the client does with a reply. The reply to a write is not looked at. */
  function Received(c: Client, reply: Message): Pc {
    match c.pc
    case AwaitHandle => if reply.OkWithHandle? then Ready(reply.handle, 0) else GaveUp
    case AwaitWrite(h, at) => Written(h, at)
    case AwaitRead(h, at) =>
      if reply.OkWithBuffer? && at <= |c.data| && reply.buf == ChunkAt(c, at) then Ready(h, at + c.chunk) else GaveUp
    case _ => c.pc
  }

  // ----- clients and server together

  datatype Fleet = Fleet(w: World, clients: seq<Client>)

  datatype Deed =
    | Sends(i: nat)
    | Gets(i: nat)
    | Ends(i: nat)
    | Serves(step: Step)

  predicate CanDo(f: Fleet, a: Deed) {
    |f.clients| == |f.w.hists| == |f.w.s.conns| &&
    match a
    case Sends(i) =>
      i < |f.clients| && Request(f.clients[i]).Some?
      && CanMove(f.w, Submits(i, Request(f.clients[i]).value))
    case Gets(i) => i < |f.clients| && Awaits(f.clients[i].pc) && CanMove(f.w, Does(ClientTakes(i)))
    case Ends(i) => i < |f.clients| && f.clients[i].pc.Ready? && f.clients[i].pc.at >= |f.clients[i].data|
    case Serves(step) => !step.ClientTakes? && CanMove(f.w, Does(step))
  }

  function Did(net: Net, f: Fleet, a: Deed): Fleet
    requires NetWellFormed(net) && CanDo(f, a)
  {
    match a
    case Sends(i) =>
      var c := f.clients[i];
      Fleet(Moved(net, f.w, Submits(i, Request(c).value)), f.clients[i := c.(pc := Sent(c.pc))])
    case Gets(i) =>
      var c := f.clients[i];
      var pc := match Take(net.responses.reader, f.w.s.conns[i].outbound.ctx)
                case None => GaveUp
                case Some((m, _)) => Received(c, m);
      Fleet(Moved(net, f.w, Does(ClientTakes(i))), f.clients[i := c.(pc := pc)])
    case Ends(i) => f.(clients := f.clients[i := f.clients[i].(pc := Finished(f.clients[i].pc.handle))])
    case Serves(step) => f.(w := Moved(net, f.w, Does(step)))
  }

  // ----- what one client knows about its page

  /** The client's page holds at least the first `at` bytes of its buffer. */
  predicate Stored(v: Pages, c: Client, h: nat, at: nat) {
    h in v && |v[h]| >= |c.data| && v[h][..Min(at, |c.data|)] == c.data[..Min(at, |c.data|)]
  }

  predicate Outstanding(H: Hist, req: Message) {
    |H.sent| == |H.got| + 1 && H.sent[|H.got|] == req
  }

  ghost predicate ClientInv(c: Client, H: Hist) {
    && Configured(c)
    && |H.got| <= |H.sent|
    && match c.pc
       case Begin => H.sent == []
       case AwaitHandle => H.sent == [Alloc(|c.data|)] && H.got == []
       case Ready(h, at) => |H.sent| == |H.got| && Stored(Known(H), c, h, at)
       case AwaitWrite(h, at) =>
         at < |c.data| && Outstanding(H, Write(h, at, ChunkAt(c, at))) && Stored(Known(H), c, h, at)
       case Written(h, at) => at < |c.data| && |H.sent| == |H.got| && Stored(Known(H), c, h, at + c.chunk)
       case AwaitRead(h, at) =>
         && at < |c.data| && |ChunkAt(c, at)| < TWO64 && Outstanding(H, Read(h, at, |ChunkAt(c, at)|))
         && Stored(Known(H), c, h, at + c.chunk)
       case Finished(h) => |H.sent| == |H.got| && Stored(Known(H), c, h, |c.data|)
       case GaveUp => false
  }

  ghost predicate FleetInv(net: Net, f: Fleet) {
    && WorldInv(net, f.w)
    && |f.clients| == |f.w.hists|
    && forall i :: 0 <= i < |f.clients| ==> ClientInv(f.clients[i], f.w.hists[i])
  }

  lemma RequestIsWelcome(alone: bool, c: Client, H: Hist)
    requires ClientInv(c, H) && Ordered(H)
    requires c.pc.Begin? || c.pc.Written? || (c.pc.Ready? && c.pc.at < |c.data|)
    ensures Request(c).Some? && Welcome(alone, Known(H), Request(c).value)
  {
    MappedLengthExact(|c.data|);
  }

  lemma SendKeepsClient(c: Client, H: Hist)
    requires ClientInv(c, H) && Ordered(H) && Request(c).Some?
    ensures ClientInv(c.(pc := Sent(c.pc)), H.(sent := H.sent + [Request(c).value]))
  {
    var H' := H.(sent := H.sent + [Request(c).value]);
    assert H'.sent[..|H.got|] == H.sent[..|H.got|];
  }

  /** The next answer, and what the client then knows. */
  lemma NextAnswer(H: Hist)
    requires Ordered(H) && Conforms(H.sent[..|H.answered|], H.answered) && |H.got| < |H.answered|
    ensures var g := |H.got|;
            var H' := H.(got := H.got + [H.answered[g]]);
            && Ordered(H')
            && Answers(Known(H), H.sent[g], H.answered[g])
            && Known(H') == Apply(Known(H), H.sent[g], H.answered[g])
  {
    var g, k := |H.got|, |H.answered|;
    var H' := H.(got := H.got + [H.answered[g]]);
    ConformsPrefix(H.sent[..k], H.answered, g + 1);
    assert H.sent[..k][..g + 1] == H.sent[..g + 1] && H.answered[..g + 1] == H'.got;
    assert H.sent[..g + 1][..g] == H.sent[..g] && H'.got[..g] == H.got;
  }

  lemma GetKeepsClient(c: Client, H: Hist)
    requires ClientInv(c, H) && Awaits(c.pc)
    requires Ordered(H) && Conforms(H.sent[..|H.answered|], H.answered) && |H.got| < |H.answered|
    ensures var reply := H.answered[|H.got|];
            ClientInv(c.(pc := Received(c, reply)), H.(got := H.got + [reply]))
  {
    NextAnswer(H);
    AnswerStores(Known(H), c, H.sent[|H.got|], H.answered[|H.got|]);
  }

  /** What the private store holds after the answer that the client is waiting for. */
  lemma AnswerStores(v: Pages, c: Client, req: Message, reply: Message)
    requires Configured(c) && Answers(v, req, reply)
    requires match c.pc
             case AwaitHandle => req == Alloc(|c.data|)
             case AwaitWrite(h, at) => at < |c.data| && req == Write(h, at, ChunkAt(c, at)) && Stored(v, c, h, at)
             case AwaitRead(h, at) =>
               && at < |c.data| && |ChunkAt(c, at)| < TWO64 && req == Read(h, at, |ChunkAt(c, at)|)
               && Stored(v, c, h, at + c.chunk)
             case _ => false
    ensures var v' := Apply(v, req, reply);
            match Received(c, reply)
            case Ready(h, at) => Stored(v', c, h, at)
            case Written(h, at) => c.pc == AwaitWrite(h, at) && Stored(v', c, h, at + c.chunk)
            case _ => false
  {
    match c.pc
    case AwaitHandle => MappedLengthExact(|c.data|);
    case AwaitWrite(h, at) => WriteStores(v, c, h, at);
    case AwaitRead(h, at) => ReadMatches(v, c, h, at);
  }

  lemma WriteStores(v: Pages, c: Client, h: nat, at: nat)
    requires Configured(c) && at < |c.data| && Stored(v, c, h, at)
    ensures InRange(v, h, at, |ChunkAt(c, at)|)
    ensures Stored(v[h := Splice(v[h], at, ChunkAt(c, at))], c, h, at + c.chunk)
  {
    var page, end := Splice(v[h], at, ChunkAt(c, at)), Min(at + c.chunk, |c.data|);
    forall o | 0 <= o < end ensures page[o] == c.data[o] {
      if o < at {
        assert v[h][..at][o] == c.data[..at][o];
      }
    }
  }

  lemma ReadMatches(v: Pages, c: Client, h: nat, at: nat)
    requires Configured(c) && at < |c.data| && Stored(v, c, h, at + c.chunk)
    ensures InRange(v, h, at, |ChunkAt(c, at)|)
    ensures v[h][at..at + |ChunkAt(c, at)|] == ChunkAt(c, at)
  {
    var end := Min(at + c.chunk, |c.data|);
    assert v[h][..end][at..] == c.data[..end][at..];
  }

  // ----- whole runs

  ghost predicate AllClientsInv(clients: seq<Client>, hists: seq<Hist>) {
    |clients| == |hists| && forall i :: 0 <= i < |clients| ==> ClientInv(clients[i], hists[i])
  }

  lemma OneClientChanges(clients: seq<Client>, hists: seq<Hist>, i: nat, c: Client, H: Hist)
    requires AllClientsInv(clients, hists) && i < |clients| && ClientInv(c, H)
    ensures AllClientsInv(clients[i := c], hists[i := H])
  {
  }

  lemma SendKeepsFleet(net: Net, f: Fleet, i: nat)
    requires Faithful(net) && FleetInv(net, f) && CanDo(f, Sends(i))
    ensures FleetInv(net, Did(net, f, Sends(i)))
  {
    var c, H := f.clients[i], f.w.hists[i];
    assert ConnInv(net, Alone(f.w.s), f.w.s.conns[i], H) && ClientInv(c, H);
    SendKeepsClient(c, H);
    OneClientChanges(f.clients, f.w.hists, i, c.(pc := Sent(c.pc)), H.(sent := H.sent + [Request(c).value]));
    MoveKeepsWorld(net, f.w, Submits(i, Request(c).value));
  }

  lemma GetKeepsFleet(net: Net, f: Fleet, i: nat)
    requires Faithful(net) && FleetInv(net, f) && CanDo(f, Gets(i))
    ensures FleetInv(net, Did(net, f, Gets(i)))
  {
    var c, H := f.clients[i], f.w.hists[i];
    assert ConnInv(net, Alone(f.w.s), f.w.s.conns[i], H) && ClientInv(c, H);
    ClientTakesMovesWell(net, f.w, i);
    GetKeepsClient(c, H);
    var reply := H.answered[|H.got|];
    OneClientChanges(f.clients, f.w.hists, i, c.(pc := Received(c, reply)), H.(got := H.got + [reply]));
    GotReply(net, f, i, reply);
    MoveKeepsWorld(net, f.w, Does(ClientTakes(i)));
  }

  lemma GotReply(net: Net, f: Fleet, i: nat, reply: Message)
    requires NetWellFormed(net) && CanDo(f, Gets(i))
    requires var r := Take(net.responses.reader, f.w.s.conns[i].outbound.ctx);
             r.Some? && r.value.0 == reply
    ensures var c, H, f' := f.clients[i], f.w.hists[i], Did(net, f, Gets(i));
            && f'.w == Moved(net, f.w, Does(ClientTakes(i)))
            && f'.clients == f.clients[i := c.(pc := Received(c, reply))]
            && f'.w.hists == f.w.hists[i := H.(got := H.got + [reply])]
  {
  }

  lemma ReplyKeepsKnown(c: Client, H: Hist, resp: Message)
    requires ClientInv(c, H) && Ordered(H) && |H.answered| < |H.sent|
    ensures ClientInv(c, H.(answered := H.answered + [resp]))
  {
    var H' := H.(answered := H.answered + [resp]);
    assert H'.answered[..|H.got|] == H.answered[..|H.got|];
    assert Known(H') == Known(H);
  }

  lemma ServeKeepsFleet(net: Net, f: Fleet, step: Step)
    requires Faithful(net) && FleetInv(net, f) && CanDo(f, Serves(step))
    ensures FleetInv(net, Did(net, f, Serves(step)))
  {
    var i := step.i;
    var c, H := f.clients[i], f.w.hists[i];
    assert ConnInv(net, Alone(f.w.s), f.w.s.conns[i], H) && ClientInv(c, H);
    if step.Replies? {
      ReplyKeepsKnown(c, H, f.w.s.conns[i].task.resp);
    }
    OneClientChanges(f.clients, f.w.hists, i, c, Recorded(net, f.w, Does(step)));
    MoveKeepsWorld(net, f.w, Does(step));
  }

  lemma EndKeepsFleet(net: Net, f: Fleet, i: nat)
    requires Faithful(net) && FleetInv(net, f) && CanDo(f, Ends(i))
    ensures FleetInv(net, Did(net, f, Ends(i)))
  {
    var c, H := f.clients[i], f.w.hists[i];
    assert ClientInv(c, H);
    OneClientChanges(f.clients, f.w.hists, i, c.(pc := Finished(c.pc.handle)), H);
    assert f.w.hists[i := H] == f.w.hists;
  }

  lemma DeedKeepsFleet(net: Net, f: Fleet, a: Deed)
    requires Faithful(net) && FleetInv(net, f) && CanDo(f, a)
    ensures FleetInv(net, Did(net, f, a))
  {
    match a
    case Sends(i) => SendKeepsFleet(net, f, i);
    case Gets(i) => GetKeepsFleet(net, f, i);
    case Ends(i) => EndKeepsFleet(net, f, i);
    case Serves(step) => ServeKeepsFleet(net, f, step);
  }

  predicate AllBegin(clients: seq<Client>) {
    forall i :: 0 <= i < |clients| ==> Configured(clients[i]) && clients[i].pc == Begin
  }

  ghost function Run(net: Net, clients: seq<Client>, deeds: seq<Deed>): Option<Fleet>
    requires NetWellFormed(net)
  {
    if deeds == [] then Some(Fleet(Start(|clients|), clients))
    else
      var a := deeds[|deeds| - 1];
      match Run(net, clients, deeds[..|deeds| - 1])
      case None => None
      case Some(f) => if CanDo(f, a) then Some(Did(net, f, a)) else None
  }

  lemma {:induction false} RunKeepsFleet(net: Net, clients: seq<Client>, deeds: seq<Deed>)
    requires Faithful(net) && AllBegin(clients)
    requires Run(net, clients, deeds).Some?
    ensures FleetInv(net, Run(net, clients, deeds).value)
  {
    if deeds == [] {
      StartInv(net, |clients|);
    } else {
      RunKeepsFleet(net, clients, deeds[..|deeds| - 1]);
      DeedKeepsFleet(net, Run(net, clients, deeds[..|deeds| - 1]).value, deeds[|deeds| - 1]);
    }
  }

  /** The client has not failed and nor has the handler serving it; if the client has finished,
      its buffer is on its page. */
  predicate Sound(f: Fleet, i: nat)
    requires i < |f.clients| == |f.w.s.conns|
  {
    var c, task := f.clients[i], f.w.s.conns[i].task;
    && !c.pc.GaveUp? && !task.Panicked? && !task.Ended?
    && (c.pc.Finished? ==> c.pc.handle in f.w.s.store.pages && c.data <= f.w.s.store.pages[c.pc.handle])
  }

  lemma ClientIsSound(net: Net, f: Fleet, i: nat)
    requires Faithful(net) && FleetInv(net, f) && i < |f.clients|
    ensures Sound(f, i)
    ensures f.clients[i].pc.Finished? ==> f.clients[i].pc.handle in Views(f.w)[i]
  {
    var c, H := f.clients[i], f.w.hists[i];
    assert ClientInv(c, H);
    assert ConnInv(net, Alone(f.w.s), f.w.s.conns[i], H);
    if c.pc.Finished? {
      assert Includes(Alone(f.w.s), f.w.s.store.pages, Views(f.w)[i]);
      assert H.answered == H.got;
      var page := Known(H)[c.pc.handle];
      assert page[..|c.data|] == c.data[..|c.data|] == c.data;
    }
  }

  /** For every number of clients, all buffers and chunk sizes, and every interleaving of their
      steps with the server's, down to single bytes: no read-back check ever fails, no task
      panics, and a client that has finished leaves its buffer on a page of its own. */
  lemma EveryReadBackSucceeds(net: Net, clients: seq<Client>, deeds: seq<Deed>, i: nat, j: nat)
    requires Faithful(net) && AllBegin(clients)
    requires Run(net, clients, deeds).Some?
    requires i < |clients| && j < |clients|
    ensures var f := Run(net, clients, deeds).value;
            && |f.clients| == |clients| == |f.w.s.conns|
            && f.clients[i].data == clients[i].data
            && Sound(f, i)
            && (i != j && f.clients[i].pc.Finished? && f.clients[j].pc.Finished? ==>
                  f.clients[i].pc.handle != f.clients[j].pc.handle)
  {
    RunKeepsFleet(net, clients, deeds);
    RunKeepsClients(net, clients, deeds);
    ClientIsSound(net, Run(net, clients, deeds).value, i);
    ClientIsSound(net, Run(net, clients, deeds).value, j);
  }

  lemma {:induction false} RunKeepsClients(net: Net, clients: seq<Client>, deeds: seq<Deed>)
    requires NetWellFormed(net)
    requires Run(net, clients, deeds).Some?
    ensures var f := Run(net, clients, deeds).value;
            |f.clients| == |clients| && forall i :: 0 <= i < |clients| ==>
              f.clients[i].data == clients[i].data && f.clients[i].chunk == clients[i].chunk
  {
    if deeds != [] {
      RunKeepsClients(net, clients, deeds[..|deeds| - 1]);
    }
  }
}
