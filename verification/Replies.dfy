/**
 What a connection is told, whatever pages it names and shares and whatever the others send:
 one reply per request, in order, that fits the request as it was executed. Each execution is
 recorded as it happens: what was found on taking the lock, and each cell that was loaded or
 stored, with its byte.
 */
module Replies {
  import opened Delimited
  import opened Widths
  import opened Messages
  import opened Reader
  import opened Framing
  import opened PageServer
  import opened Isolation

  /** A request whose size can be mapped, or whose range does not wrap and fits a frame. The
      handle may be anything: the client's own, another's, or nobody's. */
  predicate Acceptable(req: Message) {
    match req
    case Alloc(size) => MappedLength(size) > 0
    case Read(_, offset, len) => offset + len < TWO64 && len < LIMIT
    case Write(_, offset, buf) => offset + |buf| < TWO64 && |buf| < LIMIT
    case _ => false
  }

  // ----- executions and the replies that fit them

  /** The length of the page that the handle had when the lock was taken, if it had one, and
      the cells copied since. */
  datatype Execution = Execution(handle: U64, length: Option<nat>, cells: seq<Cell>)

  /** `cells` are the cells of the page `h` from `offset` on, with the bytes of `data`. */
  ghost predicate CellsAt(cells: seq<Cell>, h: nat, offset: nat, data: seq<Byte>) {
    |cells| == |data| && forall k :: 0 <= k < |data| ==> cells[k] == Cell(h, offset + k, data[k])
  }

  function Found(pages: Pages, h: U64): Execution {
    Execution(h, if h in pages then Some(|pages[h]|) else None, [])
  }

  /** A new page has a handle that was free. A request for a handle that was free, or for a
      range that leaves the page, is told so. Any other copies exactly the cells of its range:
      a write stores its bytes there, and a read returns the bytes loaded from there. */
  ghost predicate Fits(req: Message, e: Execution, resp: Message) {
    match req
    case Alloc(_) => e.length.None? && resp == OkWithHandle(e.handle)
    case Read(h, offset, len) =>
      && e.handle == h
      && (if e.length.None? then SaysBadHandle(resp)
          else if offset + len > e.length.value then SaysBadRange(resp)
          else
            && resp.OkWithBuffer? && resp == OkWithBuffer(h, offset, resp.buf) && |resp.buf| == len
            && CellsAt(e.cells, h, offset, resp.buf))
    case Write(h, offset, buf) =>
      && e.handle == h
      && (if e.length.None? then SaysBadHandle(resp)
          else if offset + |buf| > e.length.value then SaysBadRange(resp)
          else resp == OkWithHandle(h) && CellsAt(e.cells, h, offset, buf))
    case _ => false
  }

  /** What an action adds to the record of its connection. `stores` is every cell stored so far
      by anybody, and `now` is what this action itself stores. */
  function Record(store: Store, stores: seq<Cell>, t: Task, a: Action, now: seq<Cell>, es: seq<Execution>)
    : seq<Execution>
    requires CanAct(store, t, a)
  {
    match a
    case LockShared => es + [Found(store.pages, t.req.handle)]
    case Insert(h) => es + [Found(store.pages, h)]
    case LoadByte =>
      var o := t.offset + |t.out|;
      Copied(es, [Cell(t.handle, o, Latest(stores, t.handle, o))])
    case StoreByte => Copied(es, now)
    case _ => es
  }

  function Copied(es: seq<Execution>, cells: seq<Cell>): seq<Execution> {
    if es == [] then es
    else
      var last := es[|es| - 1];
      es[|es| - 1 := last.(cells := last.cells + cells)]
  }

  // ----- one connection

  predicate Begun(t: Task) {
    t.CopyOut? || t.CopyIn? || t.Replying?
  }

  /** The handler is at work on `req`, of which `e` is the record. */
  ghost predicate Doing(req: Message, e: Execution, t: Task) {
    match t
    case CopyOut(h, offset, len, out) =>
      && req == Read(h, offset, len) && e.handle == h && e.length.Some? && offset + len <= e.length.value
      && |out| <= len && CellsAt(e.cells, h, offset, out)
    case CopyIn(h, offset, buf, done) =>
      && req == Write(h, offset, buf) && e.handle == h && e.length.Some? && offset + |buf| <= e.length.value
      && done <= |buf| && CellsAt(e.cells, h, offset, buf[..done])
    case Replying(resp, shared) => Fits(req, e, resp) && shared == !req.Alloc?
    case _ => false
  }

  predicate About(req: Message, t: Task) {
    (t.Waiting? && t.req == req) || (t.Inserting? && req == Alloc(t.size))
  }

  /** Every answer fits its request as executed, and the handler serves the next request. */
  ghost predicate Account(t: Task, H: Hist, es: seq<Execution>) {
    var k := |H.answered|;
    && Ordered(H) && |es| == k + (if Begun(t) then 1 else 0)
    && (forall j :: 0 <= j < k ==> Fits(H.sent[j], es[j], H.answered[j]))
    && (forall j :: k <= j < |H.sent| ==> Acceptable(H.sent[j]))
    && (t.Idle? || (k < |H.sent| && if Begun(t) then Doing(H.sent[k], es[k], t) else About(H.sent[k], t)))
  }

  ghost predicate Served(net: Net, c: Conn, H: Hist, es: seq<Execution>) {
    Account(c.task, H, es) && Lines(net, c, H)
  }

  lemma LockBegins(store: Store, req: Message)
    requires Acceptable(req) && (req.Read? || req.Write?)
    ensures var t := Begin(store.pages, req);
            Begun(t) && Doing(req, Found(store.pages, req.handle), t)
  {
    if req.Read? {
      ReadBegins(store.pages, req);
    } else {
      WriteBegins(store.pages, req);
    }
  }

  lemma ReadBegins(pages: Pages, req: Message)
    requires req.Read? && Acceptable(req)
    ensures var t := Begin(pages, req);
            Begun(t) && Doing(req, Found(pages, req.handle), t)
  {
    ErrorReplies();
  }

  lemma WriteBegins(pages: Pages, req: Message)
    requires req.Write? && Acceptable(req)
    ensures var t := Begin(pages, req);
            Begun(t) && Doing(req, Found(pages, req.handle), t)
  {
    ErrorReplies();
    var t := Begin(pages, req);
    assert t.CopyIn? ==> t.buf == req.buf;
  }

  lemma LoadGoesOn(req: Message, e: Execution, t: Task, b: Byte)
    requires Doing(req, e, t) && t.CopyOut? && |t.out| < t.len
    ensures Doing(req, e.(cells := e.cells + [Cell(t.handle, t.offset + |t.out|, b)]), t.(out := t.out + [b]))
  {
  }

  lemma StoreGoesOn(req: Message, e: Execution, t: Task)
    requires Doing(req, e, t) && t.CopyIn? && t.done < |t.buf|
    ensures var cell := Cell(t.handle, t.offset + t.done, t.buf[t.done]);
            Doing(req, e.(cells := e.cells + [cell]), t.(done := t.done + 1))
  {
    assert t.buf[..t.done + 1] == t.buf[..t.done] + [t.buf[t.done]];
  }

  /** Every action of a handler keeps its account, and none makes it panic. */
  lemma ActKeepsAccount(
    store: Store, stores: seq<Cell>, i: nat, t: Task, a: Action, now: seq<Cell>, H: Hist, es: seq<Execution>)
    requires Account(t, H, es) && CanAct(store, t, a) && PagesAreLatest(store.pages, stores)
    requires a.StoreByte? ==> now == [Cell(t.handle, t.offset + t.done, t.buf[t.done])]
    ensures Account(Act(store, i, t, a).1, H, Record(store, stores, t, a, now, es))
    ensures !Act(store, i, t, a).1.Idle?
  {
    var k := |H.answered|;
    match a
    case LockShared => LockBegins(store, t.req);
    case LockExclusive =>
    case Insert(h) =>
    case MapFails =>
    case LoadByte =>
      LoadTakesLatest(store, i, t, stores);
      LoadGoesOn(H.sent[k], es[k], t, Latest(stores, t.handle, t.offset + |t.out|));
    case StoreByte => StoreGoesOn(H.sent[k], es[k], t);
    case FinishCopy =>
      if t.CopyIn? {
        assert t.buf[..t.done] == t.buf;
      }
  }

  lemma SubmitServed(net: Net, c: Conn, H: Hist, es: seq<Execution>, req: Message)
    requires Faithful(net) && Served(net, c, H, es) && Acceptable(req)
    ensures var wire := c.inbound.wire + Framing.Frame(net.requests, req);
            Served(net, c.(inbound := c.inbound.(wire := wire)), H.(sent := H.sent + [req]), es)
  {
    SubmitKeepsAccount(c.task, H, es, req);
    WriteKeepsHolds(net.requests, c.inbound, Unread(c.task, H), req);
  }

  lemma SubmitKeepsAccount(t: Task, H: Hist, es: seq<Execution>, req: Message)
    requires Account(t, H, es) && Acceptable(req)
    ensures var H' := H.(sent := H.sent + [req]);
            Account(t, H', es) && Unread(t, H') == Unread(t, H) + [req]
  {
    var next := |H.answered| + if t.Idle? then 0 else 1;
    assert (H.sent + [req])[next..] == H.sent[next..] + [req];
  }

  lemma ServerReceivesServed(net: Net, c: Conn, H: Hist, es: seq<Execution>, k: nat)
    requires Faithful(net) && Served(net, c, H, es) && CanReceive(c.inbound, k)
    ensures Served(net, c.(inbound := Drawn(net.requests, c.inbound, k)), H, es)
  {
    ReceiveKeepsHolds(net.requests, c.inbound, Unread(c.task, H), k);
  }

  lemma ServerTakesServed(net: Net, c: Conn, H: Hist, es: seq<Execution>)
    requires Faithful(net) && Served(net, c, H, es) && c.task.Idle? && GetState(c.inbound.ctx) == Done
    ensures var r := Take(net.requests.reader, c.inbound.ctx);
            r.Some? && Served(net, c.(task := Waiting(r.value.0), inbound := c.inbound.(ctx := r.value.1)), H, es)
  {
    TakeKeepsHolds(net.requests, c.inbound, Unread(c.task, H));
    assert Unread(c.task, H)[1..] == H.sent[|H.answered| + 1..];
  }

  lemma ActServed(
    net: Net, store: Store, stores: seq<Cell>, i: nat, c: Conn, a: Action, now: seq<Cell>, H: Hist, es: seq<Execution>)
    requires Served(net, c, H, es) && CanAct(store, c.task, a) && PagesAreLatest(store.pages, stores)
    requires a.StoreByte? ==> now == [Cell(c.task.handle, c.task.offset + c.task.done, c.task.buf[c.task.done])]
    ensures Served(net, c.(task := Act(store, i, c.task, a).1), H, Record(store, stores, c.task, a, now, es))
  {
    ActKeepsAccount(store, stores, i, c.task, a, now, H, es);
  }

  lemma FittingReplyIsSmall(req: Message, e: Execution, resp: Message)
    requires Acceptable(req) && Fits(req, e, resp)
    ensures SmallResponse(resp)
  {
  }

  lemma ReplyKeepsAccount(t: Task, H: Hist, es: seq<Execution>)
    requires Account(t, H, es) && t.Replying?
    ensures SmallResponse(t.resp)
    ensures var H' := H.(answered := H.answered + [t.resp]);
            Account(Idle, H', es) && Unread(Idle, H') == Unread(t, H)
  {
    FittingReplyIsSmall(H.sent[|H.answered|], es[|H.answered|], t.resp);
  }

  lemma RepliesServed(net: Net, c: Conn, H: Hist, es: seq<Execution>)
    requires Faithful(net) && Served(net, c, H, es) && c.task.Replying?
    ensures var wire := c.outbound.wire + Framing.Frame(net.responses, c.task.resp);
            Served(net, c.(task := Idle, outbound := c.outbound.(wire := wire)),
                   H.(answered := H.answered + [c.task.resp]), es)
  {
    ReplyKeepsAccount(c.task, H, es);
    WriteKeepsHolds(net.responses, c.outbound, H.answered[|H.got|..], c.task.resp);
    assert (H.answered + [c.task.resp])[|H.got|..] == H.answered[|H.got|..] + [c.task.resp];
  }

  lemma ClientReceivesServed(net: Net, c: Conn, H: Hist, es: seq<Execution>, k: nat)
    requires Faithful(net) && Served(net, c, H, es) && CanReceive(c.outbound, k)
    ensures Served(net, c.(outbound := Drawn(net.responses, c.outbound, k)), H, es)
  {
    ReceiveKeepsHolds(net.responses, c.outbound, H.answered[|H.got|..], k);
  }

  lemma ClientTakesServed(net: Net, c: Conn, H: Hist, es: seq<Execution>)
    requires Faithful(net) && Served(net, c, H, es) && GetState(c.outbound.ctx) == Done
    ensures var r := Take(net.responses.reader, c.outbound.ctx);
            && r.Some?
            && Served(net, c.(outbound := c.outbound.(ctx := r.value.1)), H.(got := H.got + [r.value.0]), es)
  {
    TakeKeepsHolds(net.responses, c.outbound, H.answered[|H.got|..]);
    assert H.answered[|H.got|..][1..] == H.answered[|H.got| + 1..];
  }

  // ----- all connections

  /** The server, and for each connection its history and the record of its executions. */
  datatype Log = Log(s: State, hists: seq<Hist>, records: seq<seq<Execution>>, stores: seq<Cell>)

  /** The clients in `polite` stay connected and submit acceptable requests. The others may
      write any bytes and hang up, and everything else is free. */
  predicate Allowed(polite: set<nat>, l: Log, move: Move) {
    |l.s.conns| == |l.hists| == |l.records| &&
    match move
    case Submits(i, req) => i < |l.s.conns| && i in polite && Acceptable(req)
    case Does(step) => (step.i in polite ==> !step.ClientWrites? && !step.Hangup?) && Enabled(l.s, step)
  }

  function NewHist(net: Net, c: Conn, H: Hist, move: Move): Hist
    requires NetWellFormed(net)
    requires move == Does(ClientTakes(StepOf(net, move).i)) ==> GetState(c.outbound.ctx) == Done
    requires move == Does(Step.Replies(StepOf(net, move).i)) ==> c.task.Replying?
  {
    match move
    case Submits(_, req) => H.(sent := H.sent + [req])
    case Does(Replies(_)) => H.(answered := H.answered + [c.task.resp])
    case Does(ClientTakes(_)) =>
      var r := Take(net.responses.reader, c.outbound.ctx);
      if r.Some? then H.(got := H.got + [r.value.0]) else H
    case _ => H
  }

  function NewRecord(l: Log, step: Step): seq<Execution>
    requires Enabled(l.s, step) && |l.records| == |l.s.conns|
  {
    if step.Handles? then
      Record(l.s.store, l.stores, l.s.conns[step.i].task, step.action, Stored(l.s, step), l.records[step.i])
    else l.records[step.i]
  }

  function Logged(net: Net, polite: set<nat>, l: Log, move: Move): Log
    requires NetWellFormed(net) && Allowed(polite, l, move)
  {
    var step := StepOf(net, move);
    var i := step.i;
    Log(Next(net, l.s, step), l.hists[i := NewHist(net, l.s.conns[i], l.hists[i], move)],
        l.records[i := NewRecord(l, step)], l.stores + Stored(l.s, step))
  }

  /** The cells recorded for writes are among those that were stored. */
  ghost predicate Performed(H: Hist, es: seq<Execution>, stores: seq<Cell>) {
    forall k, c :: 0 <= k < |es| && k < |H.sent| && H.sent[k].Write? && c in es[k].cells ==> c in stores
  }

  lemma ActPerforms(
    store: Store, stores: seq<Cell>, t: Task, a: Action, now: seq<Cell>, H: Hist, es: seq<Execution>)
    requires Account(t, H, es) && CanAct(store, t, a) && Performed(H, es, stores)
    ensures Performed(H, Record(store, stores, t, a, now, es), stores + now)
  {
  }

  lemma OwnPerformed(net: Net, polite: set<nat>, l: Log, move: Move)
    requires NetWellFormed(net) && Allowed(polite, l, move)
    requires var i := StepOf(net, move).i;
             && Account(l.s.conns[i].task, l.hists[i], l.records[i])
             && Performed(l.hists[i], l.records[i], l.stores)
    ensures var i, l' := StepOf(net, move).i, Logged(net, polite, l, move);
            Performed(l'.hists[i], l'.records[i], l'.stores)
  {
    var step := StepOf(net, move);
    var i := step.i;
    if step.Handles? {
      ActPerforms(l.s.store, l.stores, l.s.conns[i].task, step.action, Stored(l.s, step), l.hists[i], l.records[i]);
    }
  }

  ghost predicate AllPerformed(polite: set<nat>, l: Log) {
    && |l.hists| == |l.records|
    && forall i :: 0 <= i < |l.hists| && i in polite ==> Performed(l.hists[i], l.records[i], l.stores)
  }

  lemma MoveKeepsPerformed(net: Net, polite: set<nat>, l: Log, move: Move)
    requires NetWellFormed(net) && AllServed(net, polite, l) && AllPerformed(polite, l) && Allowed(polite, l, move)
    ensures AllPerformed(polite, Logged(net, polite, l, move))
  {
    var i := StepOf(net, move).i;
    if i in polite {
      assert Served(net, l.s.conns[i], l.hists[i], l.records[i]);
      OwnPerformed(net, polite, l, move);
    }
  }

  ghost predicate AllServed(net: Net, polite: set<nat>, l: Log) {
    && |l.s.conns| == |l.hists| == |l.records|
    && (forall i :: 0 <= i < |l.hists| && i in polite ==> Served(net, l.s.conns[i], l.hists[i], l.records[i]))
    && PagesAreLatest(l.s.store.pages, l.stores)
  }

  lemma OwnServed(net: Net, polite: set<nat>, l: Log, move: Move)
    requires Faithful(net) && AllServed(net, polite, l) && Allowed(polite, l, move)
    requires StepOf(net, move).i in polite
    ensures var i, l' := StepOf(net, move).i, Logged(net, polite, l, move);
            Served(net, l'.s.conns[i], l'.hists[i], l'.records[i])
  {
    var i := StepOf(net, move).i;
    var c, H, es := l.s.conns[i], l.hists[i], l.records[i];
    assert Served(net, c, H, es);
    match move
    case Submits(_, req) => SubmitServed(net, c, H, es, req);
    case Does(ServerReceives(_, k)) => ServerReceivesServed(net, c, H, es, k);
    case Does(ServerTakes(_)) => ServerTakesServed(net, c, H, es);
    case Does(Handles(_, a)) => ActServed(net, l.s.store, l.stores, i, c, a, Stored(l.s, move.step), H, es);
    case Does(Replies(_)) => RepliesServed(net, c, H, es);
    case Does(ClientReceives(_, k)) => ClientReceivesServed(net, c, H, es, k);
    case Does(ClientTakes(_)) => ClientTakesServed(net, c, H, es);
  }

  lemma MoveKeepsServed(net: Net, polite: set<nat>, l: Log, move: Move)
    requires Faithful(net) && AllServed(net, polite, l) && Allowed(polite, l, move)
    ensures AllServed(net, polite, Logged(net, polite, l, move))
  {
    if StepOf(net, move).i in polite {
      OwnServed(net, polite, l, move);
    }
    StepKeepsLatest(net, l.s, StepOf(net, move), l.stores);
  }

  ghost function Run(net: Net, n: nat, polite: set<nat>, moves: seq<Move>): Option<Log>
    requires NetWellFormed(net)
  {
    if moves == [] then Some(Log(Init(n), seq(n, _ => Hist([], [], [])), seq(n, _ => []), []))
    else
      var move := moves[|moves| - 1];
      match Run(net, n, polite, moves[..|moves| - 1])
      case None => None
      case Some(l) => if Allowed(polite, l, move) then Some(Logged(net, polite, l, move)) else None
  }

  lemma InitServed(net: Net, n: nat, polite: set<nat>)
    requires Faithful(net)
    ensures AllServed(net, polite, Run(net, n, polite, []).value)
    ensures AllPerformed(polite, Run(net, n, polite, []).value)
  {
    assert LocalAt(net.requests.reader.header, []);
    assert LocalAt(net.responses.reader.header, []);
  }

  lemma {:induction false} RunKeepsServed(net: Net, n: nat, polite: set<nat>, moves: seq<Move>)
    requires Faithful(net) && Run(net, n, polite, moves).Some?
    ensures AllServed(net, polite, Run(net, n, polite, moves).value)
    ensures AllPerformed(polite, Run(net, n, polite, moves).value)
  {
    if moves == [] {
      InitServed(net, n, polite);
    } else {
      var front, move := moves[..|moves| - 1], moves[|moves| - 1];
      RunKeepsServed(net, n, polite, front);
      MoveKeepsServed(net, polite, Run(net, n, polite, front).value, move);
      MoveKeepsPerformed(net, polite, Run(net, n, polite, front).value, move);
    }
  }

  /** One reply per request, in order; each fits the request as it was executed; the client
      has received a prefix of the replies; and the handler is alive. */
  ghost predicate RepliesFit(c: Conn, H: Hist, es: seq<Execution>) {
    && !c.task.Panicked? && !c.task.Ended?
    && H.got <= H.answered && |H.answered| <= |H.sent| && |H.answered| <= |es|
    && forall k :: 0 <= k < |H.answered| ==> Fits(H.sent[k], es[k], H.answered[k])
  }

  /** For every number of connections and every run: a connection that submits acceptable
      requests, for whatever pages, has a live handler and one fitting reply per request, in
      order, whatever the impolite connections send and whenever they hang up. The cells of its
      writes are among those stored, and every page holds what was last stored in its cells. */
  lemma EachReplyFits(net: Net, n: nat, polite: set<nat>, moves: seq<Move>, i: nat)
    requires Faithful(net) && Run(net, n, polite, moves).Some?
    requires i in polite && i < |Run(net, n, polite, moves).value.hists|
    ensures var l := Run(net, n, polite, moves).value;
            && |l.s.conns| == |l.hists| == |l.records|
            && RepliesFit(l.s.conns[i], l.hists[i], l.records[i])
            && Performed(l.hists[i], l.records[i], l.stores) && PagesAreLatest(l.s.store.pages, l.stores)
  {
    RunKeepsServed(net, n, polite, moves);
    var l := Run(net, n, polite, moves).value;
    assert Served(net, l.s.conns[i], l.hists[i], l.records[i]);
  }

  /** How far the range of a Read or Write goes. */
  function End(req: Message): nat
    requires req.Read? || req.Write?
  {
    req.offset + if req.Read? then req.len else |req.buf|
  }

  /** In every run, for the k-th request of a polite connection, if it is a Read or a Write: the
      reply is the error "Invalid handle" exactly when the handle was free on taking the lock,
      "Offset is out of range" exactly when the page was there and the range left it, and
      otherwise no error; an Alloc is never answered with an error. */
  lemma ErrorsTellWhy(net: Net, n: nat, polite: set<nat>, moves: seq<Move>, i: nat, k: nat)
    requires Faithful(net) && Run(net, n, polite, moves).Some?
    requires i in polite && i < |Run(net, n, polite, moves).value.hists|
    requires k < |Run(net, n, polite, moves).value.hists[i].answered|
    ensures var l := Run(net, n, polite, moves).value;
            k < |l.hists[i].sent| && i < |l.records| && k < |l.records[i]| &&
            var req, e, resp := l.hists[i].sent[k], l.records[i][k], l.hists[i].answered[k];
            && (req.Read? || req.Write? ==>
                  && e.handle == req.handle
                  && (resp.Err? && resp.error == InvalidHandle <==> e.length.None?)
                  && (resp.Err? && resp.error == ArgumentOutOfRange <==> e.length.Some? && End(req) > e.length.value)
                  && (resp.Err? && resp.error == InvalidHandle ==> Spells(resp.message, "Invalid handle"))
                  && (resp.Err? && resp.error == ArgumentOutOfRange ==> Spells(resp.message, "Offset is out of range"))
                  && !(resp.Err? && resp.error == Unknown))
            && (req.Alloc? ==> !resp.Err?)
  {
    EachReplyFits(net, n, polite, moves, i);
    var l := Run(net, n, polite, moves).value;
    assert Fits(l.hists[i].sent[k], l.records[i][k], l.hists[i].answered[k]);
  }

  /** In every run: a Read or Write holds the shared lock from when it takes it until its reply
      is written, and an Alloc does not hold it. */
  lemma LockHeldThroughout(net: Net, n: nat, polite: set<nat>, moves: seq<Move>, i: nat)
    requires Faithful(net) && Run(net, n, polite, moves).Some?
    requires i in polite && i < |Run(net, n, polite, moves).value.s.conns|
    ensures var l := Run(net, n, polite, moves).value;
            i < |l.hists| &&
            var t, H := l.s.conns[i].task, l.hists[i];
            (i in l.s.store.readers <==> Begun(t) && |H.answered| < |H.sent| && !H.sent[|H.answered|].Alloc?)
  {
    RunKeepsServed(net, n, polite, moves);
    RunKeepsLock(net, n, polite, moves);
    var l := Run(net, n, polite, moves).value;
    assert Served(net, l.s.conns[i], l.hists[i], l.records[i]);
  }

  lemma {:induction false} RunKeepsLock(net: Net, n: nat, polite: set<nat>, moves: seq<Move>)
    requires NetWellFormed(net) && Run(net, n, polite, moves).Some?
    ensures LockExact(Run(net, n, polite, moves).value.s)
  {
    if moves != [] {
      var front, move := moves[..|moves| - 1], moves[|moves| - 1];
      RunKeepsLock(net, n, polite, front);
      StepKeepsLockExact(net, Run(net, n, polite, front).value.s, StepOf(net, move));
    }
  }

  /** Once nothing of a connection is in progress or in flight, every request is answered. */
  lemma QuietMeansReplied(net: Net, n: nat, polite: set<nat>, moves: seq<Move>, i: nat)
    requires Faithful(net) && Run(net, n, polite, moves).Some? && i in polite
    requires var l := Run(net, n, polite, moves).value;
             && i < |l.s.conns| && l.s.conns[i].task.Idle?
             && l.s.conns[i].inbound.wire == l.s.conns[i].outbound.wire == []
             && GetState(l.s.conns[i].inbound.ctx) != Done && GetState(l.s.conns[i].outbound.ctx) != Done
    ensures var l := Run(net, n, polite, moves).value;
            i < |l.hists| && |l.hists[i].got| == |l.hists[i].sent|
  {
    RunKeepsServed(net, n, polite, moves);
    var l := Run(net, n, polite, moves).value;
    var c, H := l.s.conns[i], l.hists[i];
    assert Served(net, c, H, l.records[i]);
    if |H.answered| < |H.sent| {
      HeldMessageIsReady(net.requests, c.inbound, Unread(c.task, H));
    }
    if |H.got| < |H.answered| {
      HeldMessageIsReady(net.responses, c.outbound, H.answered[|H.got|..]);
    }
  }
}
