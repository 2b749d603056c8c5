/**
 The sequential page store: a map from handles to bytes, and the one right reply to each
 request. Alloc may pick any unused handle.
 */
module PageSpec {
  import opened Delimited
  import opened Messages
  import opened PageServer

  function Splice(page: seq<Byte>, offset: nat, data: seq<Byte>): (r: seq<Byte>)
    requires offset + |data| <= |page|
    ensures |r| == |page|
    ensures forall o :: 0 <= o < |page| ==>
              r[o] == if offset <= o < offset + |data| then data[o - offset] else page[o]
  {
    page[..offset] + data + page[offset + |data|..]
  }

  predicate InRange(v: Pages, h: nat, offset: nat, len: nat) {
    h in v && offset + len <= |v[h]|
  }

  predicate Answers(v: Pages, req: Message, resp: Message) {
    match req
    case Alloc(_) => resp.OkWithHandle? && resp.handle !in v
    case Read(h, offset, len) =>
      if h !in v then SaysBadHandle(resp)
      else if !InRange(v, h, offset, len) then SaysBadRange(resp)
      else resp == OkWithBuffer(h, offset, v[h][offset..offset + len])
    case Write(h, offset, buf) =>
      if h !in v then SaysBadHandle(resp)
      else if !InRange(v, h, offset, |buf|) then SaysBadRange(resp)
      else resp == OkWithHandle(h)
    case _ => false
  }

  function Apply(v: Pages, req: Message, resp: Message): Pages {
    match req
    case Alloc(size) =>
      if resp.OkWithHandle? then v[resp.handle := seq(MappedLength(size), _ => 0)] else v
    case Write(h, offset, buf) =>
      if InRange(v, h, offset, |buf|) then v[h := Splice(v[h], offset, buf)] else v
    case _ => v
  }

  /** The store after a connection's requests have been answered. */
  function Replay(reqs: seq<Message>, resps: seq<Message>): Pages
    requires |reqs| == |resps|
  {
    if reqs == [] then map[]
    else
      var n := |reqs| - 1;
      Apply(Replay(reqs[..n], resps[..n]), reqs[n], resps[n])
  }

  /** Every reply is the right answer to its request at its turn. */
  predicate Conforms(reqs: seq<Message>, resps: seq<Message>)
    requires |reqs| == |resps|
  {
    reqs == [] ||
    var n := |reqs| - 1;
    Conforms(reqs[..n], resps[..n]) && Answers(Replay(reqs[..n], resps[..n]), reqs[n], resps[n])
  }

  lemma {:induction false} ConformsPrefix(reqs: seq<Message>, resps: seq<Message>, k: nat)
    requires |reqs| == |resps| && k <= |reqs|
    requires Conforms(reqs, resps)
    ensures Conforms(reqs[..k], resps[..k])
    ensures Replay(reqs[..k], resps[..k]).Keys <= Replay(reqs, resps).Keys
  {
    var n := |reqs| - 1;
    if k == |reqs| {
      assert reqs[..k] == reqs && resps[..k] == resps;
    } else {
      assert reqs[..n][..k] == reqs[..k] && resps[..n][..k] == resps[..k];
      ConformsPrefix(reqs[..n], resps[..n], k);
    }
  }
}

/**
 Connections that name only pages allocated to them see the sequential store, whatever the
 others do: the interleaved, byte-by-byte server refines one private PageSpec per connection.
 */
module Isolation {
  import opened Delimited
  import opened Widths
  import opened Messages
  import opened Reader
  import opened Framing
  import opened PageServer
  import opened PageSpec

  // ----- one task against its connection's private store

  /** Blobs below this length leave room for the rest of a body below 2^32 bytes. */
  const LIMIT: nat := 0xFFFF_FFC0

  /** What a connection may ask for: a mappable size; ranges whose end does not wrap and whose
      bytes fit a frame; and, unless it is the only connection, pages in its own store. */
  predicate Welcome(alone: bool, v: Pages, req: Message) {
    match req
    case Alloc(size) => MappedLength(size) > 0
    case Read(h, offset, len) => (alone || h in v) && offset + len < TWO64 && len < LIMIT
    case Write(h, offset, buf) => (alone || h in v) && offset + |buf| < TWO64 && |buf| < LIMIT
    case _ => false
  }

  /** The handler is at work on `req`, and has read nothing but bytes of `v`. */
  predicate Serves(v: Pages, req: Message, t: Task) {
    match t
    case Waiting(r) => r == req
    case Inserting(size) => req == Alloc(size)
    case CopyOut(h, offset, len, out) =>
      && req == Read(h, offset, len) && InRange(v, h, offset, len)
      && |out| <= len && out == v[h][offset..offset + |out|]
    case CopyIn(h, offset, buf, done) =>
      req == Write(h, offset, buf) && InRange(v, h, offset, |buf|) && done <= |buf|
    case Replying(resp, _) => Answers(v, req, resp)
    case _ => false
  }

  /** The store as the handler has changed it so far. */
  function Progress(v: Pages, req: Message, t: Task): Pages {
    match t
    case CopyIn(h, offset, buf, done) =>
      if done <= |buf| && InRange(v, h, offset, |buf|) then v[h := Splice(v[h], offset, buf[..done])] else v
    case Replying(resp, _) => Apply(v, req, resp)
    case _ => v
  }

  /** The server's pages include the private store `v`, and nothing else if `alone`. */
  ghost predicate Includes(alone: bool, pages: Pages, v: Pages) {
    && (forall h :: h in v ==> h in pages && pages[h] == v[h])
    && (alone ==> forall h :: h in pages ==> h in v)
  }

  /** From `pages` to `pages'` nothing changed outside the private store, which went from `v`
      to `v'` and can only have gained a handle that was free. */
  ghost predicate Confined(pages: Pages, pages': Pages, v: Pages, v': Pages) {
    && v.Keys <= v'.Keys
    && (forall h :: h in v' && h !in v ==> h !in pages)
    && (forall h :: h in pages && h !in v' ==> h in pages' && pages'[h] == pages[h])
  }

  lemma ActServes(alone: bool, store: Store, i: nat, v: Pages, req: Message, t: Task, a: Action)
    requires Welcome(alone, v, req) && Serves(v, req, t)
    requires Includes(alone, store.pages, Progress(v, req, t))
    requires CanAct(store, t, a)
    ensures var (store', t') := Act(store, i, t, a);
            && Serves(v, req, t')
            && Includes(alone, store'.pages, Progress(v, req, t'))
            && Confined(store.pages, store'.pages, Progress(v, req, t), Progress(v, req, t'))
  {
    match a
    case LockShared => LockServes(alone, store, v, req);
    case Insert(h) => InsertServes(alone, store, v, req, h);
    case StoreByte => StoreServes(v, req, t);
    case FinishCopy => FinishServes(v, req, t);
    case _ =>
  }

  lemma LockServes(alone: bool, store: Store, v: Pages, req: Message)
    requires (req.Read? || req.Write?) && Welcome(alone, v, req)
    requires Includes(alone, store.pages, v)
    ensures var t := Begin(store.pages, req);
            Serves(v, req, t) && Progress(v, req, t) == v
  {
    ErrorReplies();
    if req.Read? {
      ReadLockServes(alone, store, v, req);
    } else {
      WriteLockServes(alone, store, v, req);
    }
  }

  lemma ReadLockServes(alone: bool, store: Store, v: Pages, req: Message)
    requires req.Read? && Welcome(alone, v, req) && Includes(alone, store.pages, v)
    ensures var t := Begin(store.pages, req);
            Serves(v, req, t) && Progress(v, req, t) == v
  {
    ErrorReplies();
  }

  lemma WriteLockServes(alone: bool, store: Store, v: Pages, req: Message)
    requires req.Write? && Welcome(alone, v, req) && Includes(alone, store.pages, v)
    ensures var t := Begin(store.pages, req);
            Serves(v, req, t) && Progress(v, req, t) == v
  {
    ErrorReplies();
    var t := Begin(store.pages, req);
    if t.CopyIn? {
      assert req.buf[..|req.buf|] == req.buf;
      assert Splice(v[req.handle], req.offset, []) == v[req.handle];
    }
  }

  lemma InsertServes(alone: bool, store: Store, v: Pages, req: Message, h: U64)
    requires req.Alloc? && h !in store.pages && Includes(alone, store.pages, v)
    ensures var page := seq(MappedLength(req.size), _ => 0);
            && Answers(v, req, OkWithHandle(h))
            && Includes(alone, store.pages[h := page], Apply(v, req, OkWithHandle(h)))
            && Confined(store.pages, store.pages[h := page], v, Apply(v, req, OkWithHandle(h)))
  {
  }

  lemma StoreServes(v: Pages, req: Message, t: Task)
    requires Serves(v, req, t) && t.CopyIn? && t.done < |t.buf|
    ensures var p, p' := Progress(v, req, t), Progress(v, req, t.(done := t.done + 1));
            && t.handle in p && t.offset + t.done < |p[t.handle]|
            && p' == p[t.handle := p[t.handle][t.offset + t.done := t.buf[t.done]]]
  {
    var page := v[t.handle];
    assert Splice(page, t.offset, t.buf[..t.done + 1])
        == Splice(page, t.offset, t.buf[..t.done])[t.offset + t.done := t.buf[t.done]];
  }

  lemma FinishServes(v: Pages, req: Message, t: Task)
    requires Serves(v, req, t)
    requires (t.CopyOut? && |t.out| == t.len) || (t.CopyIn? && t.done == |t.buf|)
    ensures var resp := if t.CopyOut? then OkWithBuffer(t.handle, t.offset, t.out) else OkWithHandle(t.handle);
            Answers(v, req, resp) && Apply(v, req, resp) == Progress(v, req, t)
  {
    if t.CopyIn? {
      assert t.buf[..t.done] == t.buf;
    }
  }

  // ----- connections with their histories

  /** What one connection has sent, what the server has answered and what the client has
      received. No step of the system depends on it. */
  datatype Hist = Hist(sent: seq<Message>, answered: seq<Message>, got: seq<Message>)

  datatype World = World(s: State, hists: seq<Hist>)

  predicate Ordered(H: Hist) {
    |H.got| <= |H.answered| <= |H.sent| && H.got == H.answered[..|H.got|]
  }

  /** The private store after the answers given so far. */
  function Base(H: Hist): Pages {
    if Ordered(H) then Replay(H.sent[..|H.answered|], H.answered) else map[]
  }

  /** The private store as far as the client has been told about it. */
  function Known(H: Hist): Pages {
    if Ordered(H) then Replay(H.sent[..|H.got|], H.got) else map[]
  }

  /** The private store including the work of the handler in progress. */
  function Current(t: Task, H: Hist): Pages {
    if |H.answered| < |H.sent| then Progress(Base(H), H.sent[|H.answered|], t) else Base(H)
  }

  function Unread(t: Task, H: Hist): seq<Message>
    requires Ordered(H) && (t.Idle? || |H.answered| < |H.sent|)
  {
    H.sent[|H.answered| + (if t.Idle? then 0 else 1)..]
  }

  datatype Move = Submits(i: nat, req: Message) | Does(step: Step)

  predicate Alone(s: State) {
    |s.conns| == 1
  }

  /** Clients stay connected and submit only requests that are welcome given what they know. */
  predicate CanMove(w: World, move: Move) {
    match move
    case Submits(i, req) => i < |w.s.conns| == |w.hists| && Welcome(Alone(w.s), Known(w.hists[i]), req)
    case Does(step) =>
      |w.s.conns| == |w.hists| && !step.ClientWrites? && !step.Hangup? && Enabled(w.s, step)
  }

  function StepOf(net: Net, move: Move): Step {
    match move
    case Submits(i, req) => ClientWrites(i, Framing.Frame(net.requests, req))
    case Does(step) => step
  }

  function Recorded(net: Net, w: World, move: Move): Hist
    requires NetWellFormed(net) && CanMove(w, move)
  {
    var i := StepOf(net, move).i;
    var c, H := w.s.conns[i], w.hists[i];
    match move
    case Submits(_, req) => H.(sent := H.sent + [req])
    case Does(Replies(_)) => H.(answered := H.answered + [c.task.resp])
    case Does(ClientTakes(_)) =>
      (match Take(net.responses.reader, c.outbound.ctx)
       case None => H
       case Some((m, _)) => H.(got := H.got + [m]))
    case _ => H
  }

  function Moved(net: Net, w: World, move: Move): World
    requires NetWellFormed(net) && CanMove(w, move)
  {
    var i := StepOf(net, move).i;
    World(Next(net, w.s, StepOf(net, move)), w.hists[i := Recorded(net, w, move)])
  }

  // ----- the invariant of one connection

  predicate SmallRequest(m: Message) {
    m.Alloc? || m.Read? || (m.Write? && |m.buf| < LIMIT)
  }

  predicate SmallResponse(m: Message) {
    m.OkWithHandle? || (m.OkWithBuffer? && |m.buf| < LIMIT) || (m.Err? && |m.message| < LIMIT)
  }

  ghost predicate Faithful(net: Net) {
    && NetWellFormed(net)
    && (forall m :: SmallRequest(m) ==> Carries(net.requests, m))
    && (forall m :: SmallResponse(m) ==> Carries(net.responses, m))
  }

  /** The answers given conform, and the handler serves the next request. */
  ghost predicate Books(alone: bool, t: Task, H: Hist) {
    && Ordered(H)
    && Conforms(H.sent[..|H.answered|], H.answered)
    && (forall k :: |H.answered| <= k < |H.sent| ==> Welcome(alone, Base(H), H.sent[k]))
    && (t.Idle? || (|H.answered| < |H.sent| && Serves(Base(H), H.sent[|H.answered|], t)))
  }

  /** Requests not yet taken are in the inbound pipe, answers not yet received in the outbound. */
  ghost predicate Lines(net: Net, c: Conn, H: Hist)
    requires Ordered(H) && (c.task.Idle? || |H.answered| < |H.sent|)
  {
    && Holds(net.requests, c.inbound, Unread(c.task, H))
    && Holds(net.responses, c.outbound, H.answered[|H.got|..])
  }

  ghost predicate ConnInv(net: Net, alone: bool, c: Conn, H: Hist) {
    Books(alone, c.task, H) && Lines(net, c, H)
  }

  lemma WelcomeGrows(alone: bool, v: Pages, v': Pages, req: Message)
    requires Welcome(alone, v, req) && v.Keys <= v'.Keys
    ensures Welcome(alone, v', req)
  {
  }

  lemma KnownWithinBase(H: Hist)
    requires Ordered(H) && Conforms(H.sent[..|H.answered|], H.answered)
    ensures Known(H).Keys <= Base(H).Keys
  {
    assert H.sent[..|H.answered|][..|H.got|] == H.sent[..|H.got|];
    ConformsPrefix(H.sent[..|H.answered|], H.answered, |H.got|);
  }

  lemma SubmitKeepsBooks(alone: bool, t: Task, H: Hist, req: Message)
    requires Books(alone, t, H) && Welcome(alone, Known(H), req)
    ensures var H' := H.(sent := H.sent + [req]);
            Books(alone, t, H') && Current(t, H') == Current(t, H) && Unread(t, H') == Unread(t, H) + [req]
  {
    var k := |H.answered|;
    var H' := H.(sent := H.sent + [req]);
    assert H'.sent[..k] == H.sent[..k];
    assert Base(H') == Base(H);
    KnownWithinBase(H);
    WelcomeGrows(alone, Known(H), Base(H), req);
    forall j | k <= j < |H'.sent| ensures Welcome(alone, Base(H'), H'.sent[j]) {
      if j < |H.sent| {
        assert H'.sent[j] == H.sent[j];
      }
    }
    var next := k + if t.Idle? then 0 else 1;
    assert H'.sent[next..] == H.sent[next..] + [req];
  }

  lemma AnswerIsSmall(alone: bool, v: Pages, req: Message, resp: Message)
    requires Welcome(alone, v, req) && Answers(v, req, resp)
    ensures SmallResponse(resp)
  {
  }

  lemma ReplyMovesBase(H: Hist, resp: Message)
    requires Ordered(H) && |H.answered| < |H.sent| && Conforms(H.sent[..|H.answered|], H.answered)
    requires Answers(Base(H), H.sent[|H.answered|], resp)
    ensures var k, H' := |H.answered|, H.(answered := H.answered + [resp]);
            && Ordered(H') && Conforms(H'.sent[..k + 1], H'.answered)
            && Base(H') == Apply(Base(H), H.sent[k], resp) && Base(H).Keys <= Base(H').Keys
  {
    var k, H' := |H.answered|, H.(answered := H.answered + [resp]);
    assert H'.sent[..k + 1][..k] == H.sent[..k] && H'.answered[..k] == H.answered;
  }

  lemma ReplyKeepsBooks(alone: bool, t: Task, H: Hist)
    requires Books(alone, t, H) && t.Replying?
    ensures SmallResponse(t.resp)
    ensures var H' := H.(answered := H.answered + [t.resp]);
            Books(alone, Idle, H') && Current(Idle, H') == Current(t, H) && Unread(Idle, H') == Unread(t, H)
  {
    var k := |H.answered|;
    var H' := H.(answered := H.answered + [t.resp]);
    AnswerIsSmall(alone, Base(H), H.sent[k], t.resp);
    ReplyMovesBase(H, t.resp);
    forall j | k + 1 <= j < |H.sent| ensures Welcome(alone, Base(H'), H.sent[j]) {
      WelcomeGrows(alone, Base(H), Base(H'), H.sent[j]);
    }
  }

  lemma ReceiptKeepsBooks(alone: bool, t: Task, H: Hist)
    requires Books(alone, t, H) && |H.got| < |H.answered|
    ensures var H' := H.(got := H.got + [H.answered[|H.got|]]);
            Books(alone, t, H') && Current(t, H') == Current(t, H) && Unread(t, H') == Unread(t, H)
  {
  }

  // ----- all connections together

  /** The private stores, as changed so far, lie side by side in the server's pages. */
  ghost predicate Partition(alone: bool, pages: Pages, views: seq<Pages>) {
    && (forall j :: 0 <= j < |views| ==> Includes(alone, pages, views[j]))
    && (forall i, j :: 0 <= i < |views| && 0 <= j < |views| && i != j ==> views[i].Keys !! views[j].Keys)
  }

  function Views(w: World): seq<Pages>
    requires |w.hists| == |w.s.conns|
  {
    seq(|w.hists|, i requires 0 <= i < |w.hists| => Current(w.s.conns[i].task, w.hists[i]))
  }

  ghost predicate WorldInv(net: Net, w: World) {
    && |w.hists| == |w.s.conns|
    && (forall i :: 0 <= i < |w.hists| ==> ConnInv(net, Alone(w.s), w.s.conns[i], w.hists[i]))
    && Partition(Alone(w.s), w.s.store.pages, Views(w))
  }

  /** What a move does to its own connection and to the pages. */
  ghost predicate MovesWell(net: Net, w: World, i: nat, c': Conn, H': Hist, pages': Pages)
    requires i < |w.s.conns| == |w.hists|
  {
    var v, v' := Current(w.s.conns[i].task, w.hists[i]), Current(c'.task, H');
    && ConnInv(net, Alone(w.s), c', H')
    && Includes(Alone(w.s), pages', v')
    && Confined(w.s.store.pages, pages', v, v')
  }

  lemma SubmitMovesWell(net: Net, w: World, i: nat, req: Message)
    requires Faithful(net) && WorldInv(net, w)
    requires i < |w.hists| && Welcome(Alone(w.s), Known(w.hists[i]), req)
    ensures var c, H := w.s.conns[i], w.hists[i];
            var wire := c.inbound.wire + Framing.Frame(net.requests, req);
            MovesWell(net, w, i, c.(inbound := c.inbound.(wire := wire)), H.(sent := H.sent + [req]), w.s.store.pages)
  {
    var c, H := w.s.conns[i], w.hists[i];
    assert ConnInv(net, Alone(w.s), c, H) && Includes(Alone(w.s), w.s.store.pages, Views(w)[i]);
    SubmitKeepsBooks(Alone(w.s), c.task, H, req);
    WriteKeepsHolds(net.requests, c.inbound, Unread(c.task, H), req);
  }

  lemma ServerReceivesMovesWell(net: Net, w: World, i: nat, k: nat)
    requires Faithful(net) && WorldInv(net, w)
    requires i < |w.hists| && CanReceive(w.s.conns[i].inbound, k)
    ensures var c := w.s.conns[i];
            MovesWell(net, w, i, c.(inbound := Drawn(net.requests, c.inbound, k)), w.hists[i], w.s.store.pages)
  {
    var c, H := w.s.conns[i], w.hists[i];
    assert ConnInv(net, Alone(w.s), c, H) && Includes(Alone(w.s), w.s.store.pages, Views(w)[i]);
    ReceiveKeepsHolds(net.requests, c.inbound, Unread(c.task, H), k);
  }

  lemma ServerTakesMovesWell(net: Net, w: World, i: nat)
    requires Faithful(net) && WorldInv(net, w)
    requires i < |w.hists| && w.s.conns[i].task.Idle? && GetState(w.s.conns[i].inbound.ctx) == Done
    ensures var c := w.s.conns[i];
            var r := Take(net.requests.reader, c.inbound.ctx);
            && r.Some?
            && var c' := c.(task := Waiting(r.value.0), inbound := c.inbound.(ctx := r.value.1));
            MovesWell(net, w, i, c', w.hists[i], w.s.store.pages)
  {
    var c, H := w.s.conns[i], w.hists[i];
    assert ConnInv(net, Alone(w.s), c, H) && Includes(Alone(w.s), w.s.store.pages, Views(w)[i]);
    TakeKeepsHolds(net.requests, c.inbound, Unread(c.task, H));
    assert Unread(c.task, H)[1..] == H.sent[|H.answered| + 1..];
  }

  lemma HandlesMovesWell(net: Net, w: World, i: nat, a: Action)
    requires Faithful(net) && WorldInv(net, w)
    requires i < |w.hists| && CanAct(w.s.store, w.s.conns[i].task, a)
    ensures var c := w.s.conns[i];
            var (store', t') := Act(w.s.store, i, c.task, a);
            MovesWell(net, w, i, c.(task := t'), w.hists[i], store'.pages)
  {
    var c, H := w.s.conns[i], w.hists[i];
    assert ConnInv(net, Alone(w.s), c, H) && Includes(Alone(w.s), w.s.store.pages, Views(w)[i]);
    ActServes(Alone(w.s), w.s.store, i, Base(H), H.sent[|H.answered|], c.task, a);
  }

  lemma RepliesMovesWell(net: Net, w: World, i: nat)
    requires Faithful(net) && WorldInv(net, w)
    requires i < |w.hists| && w.s.conns[i].task.Replying?
    ensures var c, H := w.s.conns[i], w.hists[i];
            var wire := c.outbound.wire + Framing.Frame(net.responses, c.task.resp);
            MovesWell(net, w, i, c.(task := Idle, outbound := c.outbound.(wire := wire)),
                      H.(answered := H.answered + [c.task.resp]), w.s.store.pages)
  {
    var c, H := w.s.conns[i], w.hists[i];
    assert ConnInv(net, Alone(w.s), c, H) && Includes(Alone(w.s), w.s.store.pages, Views(w)[i]);
    ReplyKeepsBooks(Alone(w.s), c.task, H);
    WriteKeepsHolds(net.responses, c.outbound, H.answered[|H.got|..], c.task.resp);
    assert (H.answered + [c.task.resp])[|H.got|..] == H.answered[|H.got|..] + [c.task.resp];
  }

  lemma ClientReceivesMovesWell(net: Net, w: World, i: nat, k: nat)
    requires Faithful(net) && WorldInv(net, w)
    requires i < |w.hists| && CanReceive(w.s.conns[i].outbound, k)
    ensures var c := w.s.conns[i];
            MovesWell(net, w, i, c.(outbound := Drawn(net.responses, c.outbound, k)), w.hists[i], w.s.store.pages)
  {
    var c, H := w.s.conns[i], w.hists[i];
    assert ConnInv(net, Alone(w.s), c, H) && Includes(Alone(w.s), w.s.store.pages, Views(w)[i]);
    ReceiveKeepsHolds(net.responses, c.outbound, H.answered[|H.got|..], k);
  }

  lemma ClientTakesMovesWell(net: Net, w: World, i: nat)
    requires Faithful(net) && WorldInv(net, w)
    requires i < |w.hists| && GetState(w.s.conns[i].outbound.ctx) == Done
    ensures |w.hists[i].got| < |w.hists[i].answered|
    ensures var c, H := w.s.conns[i], w.hists[i];
            var r := Take(net.responses.reader, c.outbound.ctx);
            && r.Some? && r.value.0 == H.answered[|H.got|]
            && MovesWell(net, w, i, c.(outbound := c.outbound.(ctx := r.value.1)),
                         H.(got := H.got + [r.value.0]), w.s.store.pages)
  {
    var c, H := w.s.conns[i], w.hists[i];
    assert ConnInv(net, Alone(w.s), c, H) && Includes(Alone(w.s), w.s.store.pages, Views(w)[i]);
    TakeKeepsHolds(net.responses, c.outbound, H.answered[|H.got|..]);
    assert H.answered[|H.got|..][1..] == H.answered[|H.got| + 1..];
    ReceiptKeepsBooks(Alone(w.s), c.task, H);
  }

  lemma OwnMove(net: Net, w: World, move: Move)
    requires Faithful(net) && WorldInv(net, w) && CanMove(w, move)
    ensures var i, w' := StepOf(net, move).i, Moved(net, w, move);
            MovesWell(net, w, i, w'.s.conns[i], w'.hists[i], w'.s.store.pages)
  {
    match move
    case Submits(i, req) => SubmitMovesWell(net, w, i, req);
    case Does(ClientReceives(i, k)) => ClientReceivesMovesWell(net, w, i, k);
    case Does(ClientTakes(i)) => ClientTakesMovesWell(net, w, i);
    case Does(step) => OwnServerMove(net, w, step);
  }

  lemma OwnServerMove(net: Net, w: World, step: Step)
    requires Faithful(net) && WorldInv(net, w) && CanMove(w, Does(step))
    requires !step.ClientReceives? && !step.ClientTakes?
    ensures var w' := Moved(net, w, Does(step));
            MovesWell(net, w, step.i, w'.s.conns[step.i], w'.hists[step.i], w'.s.store.pages)
  {
    match step
    case ServerReceives(i, k) => ServerReceivesMovesWell(net, w, i, k);
    case ServerTakes(i) => ServerTakesMovesWell(net, w, i);
    case Handles(i, a) => HandlesMovesWell(net, w, i, a);
    case Replies(i) => RepliesMovesWell(net, w, i);
  }

  lemma ConfinedKeepsPartition(alone: bool, pages: Pages, pages': Pages, views: seq<Pages>, i: nat, v': Pages)
    requires i < |views| && Partition(alone, pages, views) && (alone ==> |views| == 1)
    requires Includes(alone, pages', v') && Confined(pages, pages', views[i], v')
    ensures Partition(alone, pages', views[i := v'])
  {
    forall j | 0 <= j < |views| && j != i
      ensures Includes(alone, pages', views[j]) && v'.Keys !! views[j].Keys
    {
      assert Includes(alone, pages, views[j]);
    }
  }

  /** A move that goes well for its own connection leaves all the others as they were. */
  lemma OthersKept(net: Net, w: World, i: nat, w': World)
    requires WorldInv(net, w) && i < |w.hists| && |w'.s.conns| == |w'.hists| == |w.hists|
    requires w'.s.conns == w.s.conns[i := w'.s.conns[i]] && w'.hists == w.hists[i := w'.hists[i]]
    requires MovesWell(net, w, i, w'.s.conns[i], w'.hists[i], w'.s.store.pages)
    ensures WorldInv(net, w')
  {
    var v' := Current(w'.s.conns[i].task, w'.hists[i]);
    ConfinedKeepsPartition(Alone(w.s), w.s.store.pages, w'.s.store.pages, Views(w), i, v');
    assert Views(w') == Views(w)[i := v'];
  }

  lemma MoveKeepsWorld(net: Net, w: World, move: Move)
    requires Faithful(net) && WorldInv(net, w) && CanMove(w, move)
    ensures WorldInv(net, Moved(net, w, move))
  {
    OwnMove(net, w, move);
    OthersKept(net, w, StepOf(net, move).i, Moved(net, w, move));
  }

  // ----- whole runs

  function Start(n: nat): World {
    World(Init(n), seq(n, _ => Hist([], [], [])))
  }

  ghost function Reached(net: Net, n: nat, moves: seq<Move>): Option<World>
    requires NetWellFormed(net)
  {
    if moves == [] then Some(Start(n))
    else
      var move := moves[|moves| - 1];
      match Reached(net, n, moves[..|moves| - 1])
      case None => None
      case Some(w) => if CanMove(w, move) then Some(Moved(net, w, move)) else None
  }

  lemma StartInv(net: Net, n: nat)
    requires Faithful(net)
    ensures WorldInv(net, Start(n))
  {
    assert LocalAt(net.requests.reader.header, []);
    assert LocalAt(net.responses.reader.header, []);
  }

  lemma {:induction false} RunKeepsWorld(net: Net, n: nat, moves: seq<Move>)
    requires Faithful(net)
    requires Reached(net, n, moves).Some?
    ensures WorldInv(net, Reached(net, n, moves).value)
  {
    if moves == [] {
      StartInv(net, n);
    } else {
      RunKeepsWorld(net, n, moves[..|moves| - 1]);
      MoveKeepsWorld(net, Reached(net, n, moves[..|moves| - 1]).value, moves[|moves| - 1]);
    }
  }

  /** One reply per answered request, in order, each the sequential store's answer; the client
      has received a prefix of them; and the handler is alive. */
  predicate SeesSequentialStore(c: Conn, H: Hist) {
    && !c.task.Panicked? && !c.task.Ended?
    && H.got <= H.answered && |H.answered| <= |H.sent|
    && Conforms(H.sent[..|H.answered|], H.answered)
  }

  lemma ConnectionSees(net: Net, w: World, i: nat)
    requires WorldInv(net, w) && i < |w.hists|
    ensures SeesSequentialStore(w.s.conns[i], w.hists[i])
  {
    assert ConnInv(net, Alone(w.s), w.s.conns[i], w.hists[i]);
  }

  /** For every number of connections, every interleaving of their steps and every connection
      `i`: the k-th reply is what a sequential store private to `i` answers to its k-th request. */
  lemma EachConnectionSeesSequentialStore(net: Net, n: nat, moves: seq<Move>, i: nat)
    requires Faithful(net)
    requires Reached(net, n, moves).Some? && i < |Reached(net, n, moves).value.hists|
    ensures var w := Reached(net, n, moves).value;
            |w.s.conns| == |w.hists| && SeesSequentialStore(w.s.conns[i], w.hists[i])
  {
    RunKeepsWorld(net, n, moves);
    ConnectionSees(net, Reached(net, n, moves).value, i);
  }

  /** A connection with nothing left to do has received an answer to everything it sent. */
  lemma QuietMeansAnswered(net: Net, w: World, i: nat)
    requires Faithful(net) && WorldInv(net, w) && i < |w.s.conns|
    requires w.s.conns[i].task.Idle?
    requires w.s.conns[i].inbound.wire == w.s.conns[i].outbound.wire == []
    requires GetState(w.s.conns[i].inbound.ctx) != Done && GetState(w.s.conns[i].outbound.ctx) != Done
    ensures |w.hists[i].got| == |w.hists[i].sent|
  {
    var c, H := w.s.conns[i], w.hists[i];
    assert ConnInv(net, Alone(w.s), c, H);
    if Unread(c.task, H) != [] {
      HeldMessageIsReady(net.requests, c.inbound, Unread(c.task, H));
    }
    if H.answered[|H.got|..] != [] {
      HeldMessageIsReady(net.responses, c.outbound, H.answered[|H.got|..]);
    }
  }
}
