/**
 Throughput runs cannot get stuck and cannot go on for ever: while some client is unfinished
 a step is possible, and every step lowers one measure of the work left.
 */
module Completion {
  import opened Delimited
  import opened Widths
  import opened Messages
  import opened Reader
  import opened Framing
  import opened PageServer
  import opened Isolation
  import opened Throughput

  // ----- some step is possible

  /** A pipe that holds a message can be read from, or its message taken. */
  lemma PipeMoves(link: Link<Message>, pipe: Pipe, ms: seq<Message>)
    requires WellFormed(link.reader) && Holds(link, pipe, ms) && ms != []
    ensures GetState(pipe.ctx) == Done || CanReceive(pipe, 1)
  {
    var m, buffer := ms[0], pipe.ctx.buffer;
    assert Carries(link, m) && ReadsFrame(link, m, link.head(m)) && ReadsFrame(link, m, buffer);
    assert LocalAt(link.reader.header, link.head(m));
    if pipe.wire == [] {
      HeldMessageIsReady(link, pipe, ms);
    } else if pipe.ctx.header.None? {
      HeadOff(link, buffer, pipe.wire, ms);
      assert |link.head(m)| <= |buffer| ==> link.head(m) <= buffer;
    }
  }

  lemma {:induction false} FreshBelow(s: set<nat>, n: nat)
    requires |s| < n
    ensures exists h :: 0 <= h < n && h !in s
  {
    if n - 1 in s {
      var rest := s - {n - 1};
      FreshBelow(rest, n - 1);
      var h :| 0 <= h < n - 1 && h !in rest;
      assert h !in s;
    }
  }

  /** A task inside the lock can act. */
  lemma HolderActs(s: State, j: nat) returns (step: Step)
    requires Inv(s) && |s.store.pages| < TWO64
    requires j < |s.conns| && (HoldsShared(s.conns[j].task) || s.conns[j].task.Inserting?)
    ensures (step.Handles? || step.Replies?) && Enabled(s, step)
  {
    var t := s.conns[j].task;
    assert CopyInRange(s.store.pages, t);
    match t
    case Inserting(size) =>
      FreshBelow(s.store.pages.Keys, TWO64);
      var h :| 0 <= h < TWO64 && h !in s.store.pages.Keys;
      step := Handles(j, if MappedLength(size) > 0 then Insert(h) else MapFails);
    case CopyOut(_, _, len, out) => step := Handles(j, if |out| < len then LoadByte else FinishCopy);
    case CopyIn(_, _, buf, done) => step := Handles(j, if done < |buf| then StoreByte else FinishCopy);
    case Replying(_, _) => step := Replies(j);
  }

  /** Somebody can act on behalf of a request being handled, even if it waits for the lock. */
  lemma RequestMoves(s: State, i: nat) returns (step: Step)
    requires Inv(s) && |s.store.pages| < TWO64 && i < |s.conns|
    requires var t := s.conns[i].task;
             && !t.Idle? && !t.Ended? && !t.Panicked?
             && (t.Waiting? ==> t.req.Alloc? || t.req.Read? || t.req.Write?)
    ensures (step.Handles? || step.Replies?) && Enabled(s, step)
  {
    if s.conns[i].task.Replying? {
      step := Replies(i);
    } else if !s.conns[i].task.Waiting? {
      step := HolderActs(s, i);
    } else if s.store.writer.Some? {
      step := HolderActs(s, s.store.writer.value);
    } else if !s.conns[i].task.req.Alloc? {
      step := Handles(i, LockShared);
    } else if s.store.readers == {} {
      step := Handles(i, LockExclusive);
    } else {
      var j :| j in s.store.readers;
      step := HolderActs(s, j);
    }
  }

  lemma TaskInProgress(net: Net, w: World, i: nat)
    requires WorldInv(net, w) && i < |w.hists|
    ensures var t := w.s.conns[i].task;
            !t.Ended? && !t.Panicked? && (t.Waiting? ==> t.req.Alloc? || t.req.Read? || t.req.Write?)
  {
    assert ConnInv(net, Alone(w.s), w.s.conns[i], w.hists[i]);
  }

  lemma ReplyMoves(net: Net, w: World, i: nat)
    requires Faithful(net) && WorldInv(net, w) && i < |w.hists|
    ensures |w.hists[i].got| < |w.hists[i].answered| ==>
              var pipe := w.s.conns[i].outbound;
              GetState(pipe.ctx) == Done || CanReceive(pipe, 1)
  {
    var c, H := w.s.conns[i], w.hists[i];
    assert ConnInv(net, Alone(w.s), c, H);
    if |H.got| < |H.answered| {
      PipeMoves(net.responses, c.outbound, H.answered[|H.got|..]);
    }
  }

  lemma UntakenRequestMoves(net: Net, w: World, i: nat)
    requires Faithful(net) && WorldInv(net, w) && i < |w.hists|
    ensures |w.hists[i].answered| < |w.hists[i].sent| && w.s.conns[i].task.Idle? ==>
              var pipe := w.s.conns[i].inbound;
              GetState(pipe.ctx) == Done || CanReceive(pipe, 1)
  {
    var c, H := w.s.conns[i], w.hists[i];
    assert ConnInv(net, Alone(w.s), c, H);
    if |H.answered| < |H.sent| && c.task.Idle? {
      PipeMoves(net.requests, c.inbound, Unread(c.task, H));
    }
  }

  /** Somebody can act on behalf of a client that waits for a reply. */
  lemma AwaitedReplyMoves(net: Net, f: Fleet, i: nat) returns (a: Deed)
    requires Faithful(net) && FleetInv(net, f) && Inv(f.w.s) && |f.w.s.store.pages| < TWO64
    requires i < |f.clients| && Awaits(f.clients[i].pc)
    ensures CanDo(f, a)
  {
    assert ClientInv(f.clients[i], f.w.hists[i]);
    ReplyMoves(net, f.w, i);
    UntakenRequestMoves(net, f.w, i);
    TaskInProgress(net, f.w, i);
    a := MovableMoves(f, i);
  }

  /** Whatever holds up the next reply can move. */
  ghost predicate Movable(c: Conn, H: Hist) {
    && (|H.got| < |H.answered| ==> GetState(c.outbound.ctx) == Done || CanReceive(c.outbound, 1))
    && (|H.answered| < |H.sent| && c.task.Idle? ==> GetState(c.inbound.ctx) == Done || CanReceive(c.inbound, 1))
    && !c.task.Ended? && !c.task.Panicked?
    && (c.task.Waiting? ==> c.task.req.Alloc? || c.task.req.Read? || c.task.req.Write?)
  }

  lemma MovableMoves(f: Fleet, i: nat) returns (a: Deed)
    requires Inv(f.w.s) && |f.w.s.store.pages| < TWO64
    requires i < |f.clients| == |f.w.hists| == |f.w.s.conns| && Awaits(f.clients[i].pc)
    requires |f.w.hists[i].got| < |f.w.hists[i].sent| && Movable(f.w.s.conns[i], f.w.hists[i])
    ensures CanDo(f, a)
  {
    var c, H := f.w.s.conns[i], f.w.hists[i];
    if |H.got| < |H.answered| {
      a := if GetState(c.outbound.ctx) == Done then Gets(i) else Serves(ClientReceives(i, 1));
    } else if c.task.Idle? {
      a := Serves(if GetState(c.inbound.ctx) == Done then ServerTakes(i) else ServerReceives(i, 1));
    } else {
      var step := RequestMoves(f.w.s, i);
      a := Serves(step);
    }
  }

  /** In every state of every run, unless all clients have finished, some step is possible. */
  lemma NeverStuck(net: Net, f: Fleet, i: nat) returns (a: Deed)
    requires Faithful(net) && FleetInv(net, f) && Inv(f.w.s) && |f.w.s.store.pages| < TWO64
    requires i < |f.clients| && !f.clients[i].pc.Finished?
    ensures CanDo(f, a)
  {
    var c, H := f.clients[i], f.w.hists[i];
    assert ClientInv(c, H) && ConnInv(net, Alone(f.w.s), f.w.s.conns[i], H);
    if Awaits(c.pc) {
      a := AwaitedReplyMoves(net, f, i);
    } else if c.pc.Ready? && c.pc.at >= |c.data| {
      a := Ends(i);
    } else {
      RequestIsWelcome(Alone(f.w.s), c, H);
      a := Sends(i);
    }
  }

  lemma DeedKeepsLock(net: Net, f: Fleet, a: Deed)
    requires NetWellFormed(net) && Inv(f.w.s) && CanDo(f, a)
    ensures Inv(Did(net, f, a).w.s)
  {
    if !a.Ends? {
      var move := match a
        case Sends(i) => Submits(i, Request(f.clients[i]).value)
        case Gets(i) => Does(ClientTakes(i))
        case Serves(step) => Does(step);
      StepKeepsCopiesInRange(net, f.w.s, StepOf(net, move));
      StepKeepsLockExact(net, f.w.s, StepOf(net, move));
    }
  }

  // ----- and every step leaves less to do

  function BytesLeft(c: Client): nat {
    match c.pc
    case Begin => |c.data| + 1
    case AwaitHandle => |c.data| + 1
    case Ready(_, at) => if at < |c.data| then |c.data| - at else 0
    case AwaitWrite(_, at) => if at < |c.data| then |c.data| - at else 0
    case Written(_, at) => if at < |c.data| then |c.data| - at else 0
    case AwaitRead(_, at) => if at < |c.data| then |c.data| - at else 0
    case Finished(_) => 0
    case GaveUp => 0
  }

  function PhaseLeft(pc: Pc): nat {
    match pc
    case Begin => 2
    case AwaitHandle => 1
    case Ready(_, _) => 4
    case AwaitWrite(_, _) => 3
    case Written(_, _) => 2
    case AwaitRead(_, _) => 1
    case Finished(_) => 0
    case GaveUp => 0
  }

  /** How far the one request in progress still has to go. */
  function StageLeft(t: Task, H: Hist): nat {
    if |H.got| == |H.sent| then 0
    else if |H.got| < |H.answered| then 1
    else match t
      case Idle => 5
      case Waiting(_) => 4
      case Replying(_, _) => 2
      case _ => 3
  }

  function StepsLeft(c: Conn, H: Hist): nat {
    match StageLeft(c.task, H)
    case 5 => |c.inbound.wire|
    case 3 =>
      if c.task.CopyOut? && |c.task.out| <= c.task.len then c.task.len - |c.task.out|
      else if c.task.CopyIn? && c.task.done <= |c.task.buf| then |c.task.buf| - c.task.done
      else 0
    case 1 => |c.outbound.wire|
    case _ => 0
  }

  datatype Rank = Rank(bytes: nat, phase: nat, stage: nat, steps: nat)

  predicate Below(r: Rank, s: Rank) {
    || r.bytes < s.bytes
    || (r.bytes == s.bytes && r.phase < s.phase)
    || (r.bytes == s.bytes && r.phase == s.phase && r.stage < s.stage)
    || (r.bytes == s.bytes && r.phase == s.phase && r.stage == s.stage && r.steps < s.steps)
  }

  function RankOf(c: Client, conn: Conn, H: Hist): Rank {
    Rank(BytesLeft(c), PhaseLeft(c.pc), StageLeft(conn.task, H), StepsLeft(conn, H))
  }

  /** The component-wise sum of the clients' ranks. */
  function Total(ranks: seq<Rank>): Rank {
    if ranks == [] then Rank(0, 0, 0, 0)
    else
      var rest := Total(ranks[1..]);
      Rank(ranks[0].bytes + rest.bytes, ranks[0].phase + rest.phase,
           ranks[0].stage + rest.stage, ranks[0].steps + rest.steps)
  }

  lemma {:induction false} TotalDescends(ranks: seq<Rank>, i: nat, r: Rank)
    requires i < |ranks| && Below(r, ranks[i])
    ensures Below(Total(ranks[i := r]), Total(ranks))
  {
    if i > 0 {
      assert ranks[i := r][1..] == ranks[1..][i - 1 := r];
      TotalDescends(ranks[1..], i - 1, r);
    } else {
      assert ranks[i := r][1..] == ranks[1..];
    }
  }

  function Ranks(f: Fleet): seq<Rank>
    requires |f.clients| == |f.w.hists| == |f.w.s.conns|
  {
    seq(|f.clients|, i requires 0 <= i < |f.clients| => RankOf(f.clients[i], f.w.s.conns[i], f.w.hists[i]))
  }

  // ----- the step of one client

  /** A client has at most one request in progress, so a pipe that is not in use is empty. */
  lemma IdlePipesAreEmpty(net: Net, f: Fleet, i: nat)
    requires Faithful(net) && FleetInv(net, f) && i < |f.clients|
    ensures var c, H := f.w.s.conns[i], f.w.hists[i];
            && |H.got| <= |H.answered| <= |H.sent| <= |H.got| + 1
            && (StageLeft(c.task, H) != 5 ==> c.inbound.wire == [] && GetState(c.inbound.ctx) != Done)
            && (StageLeft(c.task, H) != 1 ==> c.outbound.wire == [] && GetState(c.outbound.ctx) != Done)
            && (StageLeft(c.task, H) in {0, 1} ==> c.task.Idle?)
  {
    var c, H := f.w.s.conns[i], f.w.hists[i];
    assert ClientInv(f.clients[i], H) && ConnInv(net, Alone(f.w.s), c, H);
    EmptyPipe(net.requests, c.inbound, Unread(c.task, H));
    EmptyPipe(net.responses, c.outbound, H.answered[|H.got|..]);
  }

  lemma EmptyPipe(link: Link<Message>, pipe: Pipe, ms: seq<Message>)
    requires Holds(link, pipe, ms)
    ensures ms == [] ==> pipe.wire == [] && GetState(pipe.ctx) != Done
  {
  }

  ghost predicate Descends(f: Fleet, i: nat, client: Client, c: Conn, H: Hist)
    requires i < |f.clients| == |f.w.hists| == |f.w.s.conns|
  {
    Below(RankOf(client, c, H), RankOf(f.clients[i], f.w.s.conns[i], f.w.hists[i]))
  }

  lemma ReceiveDescends(net: Net, f: Fleet, i: nat, k: nat)
    requires Faithful(net) && FleetInv(net, f) && i < |f.clients|
    ensures var c, H := f.w.s.conns[i], f.w.hists[i];
            && (CanReceive(c.inbound, k) && c.task.Idle? ==>
                  Descends(f, i, f.clients[i], c.(inbound := Drawn(net.requests, c.inbound, k)), H))
            && (CanReceive(c.outbound, k) ==>
                  Descends(f, i, f.clients[i], c.(outbound := Drawn(net.responses, c.outbound, k)), H))
  {
    IdlePipesAreEmpty(net, f, i);
  }

  lemma TakeDescends(net: Net, f: Fleet, i: nat, m: Message, ctx: Ctx)
    requires Faithful(net) && FleetInv(net, f) && i < |f.clients|
    requires f.w.s.conns[i].task.Idle? && GetState(f.w.s.conns[i].inbound.ctx) == Done
    ensures var c := f.w.s.conns[i];
            Descends(f, i, f.clients[i], c.(task := Waiting(m), inbound := c.inbound.(ctx := ctx)), f.w.hists[i])
  {
    IdlePipesAreEmpty(net, f, i);
  }

  /** An action takes its task to a later stage, or copies one byte. */
  lemma ActAdvances(store: Store, i: nat, t: Task, a: Action, c: Conn, H: Hist)
    requires CanAct(store, t, a) && c.task == t && CopyInRange(store.pages, t)
    requires |H.got| == |H.answered| < |H.sent|
    ensures var c' := c.(task := Act(store, i, t, a).1);
            c'.task.Panicked? || StageLeft(c'.task, H) < StageLeft(t, H)
            || (StageLeft(c'.task, H) == StageLeft(t, H) && StepsLeft(c', H) < StepsLeft(c, H))
  {
  }

  lemma HandleDescends(net: Net, f: Fleet, i: nat, a: Action)
    requires Faithful(net) && FleetInv(net, f) && Inv(f.w.s) && i < |f.clients|
    requires CanAct(f.w.s.store, f.w.s.conns[i].task, a)
    ensures var c := f.w.s.conns[i];
            Descends(f, i, f.clients[i], c.(task := Act(f.w.s.store, i, c.task, a).1), f.w.hists[i])
  {
    var c, H := f.w.s.conns[i], f.w.hists[i];
    IdlePipesAreEmpty(net, f, i);
    HandlesMovesWell(net, f.w, i, a);
    assert CopyInRange(f.w.s.store.pages, c.task);
    ActAdvances(f.w.s.store, i, c.task, a, c, H);
  }

  lemma ReplyDescends(net: Net, f: Fleet, i: nat)
    requires Faithful(net) && FleetInv(net, f) && i < |f.clients| && f.w.s.conns[i].task.Replying?
    ensures var c, H := f.w.s.conns[i], f.w.hists[i];
            var wire := c.outbound.wire + Framing.Frame(net.responses, c.task.resp);
            Descends(f, i, f.clients[i], c.(task := Idle, outbound := c.outbound.(wire := wire)),
                     H.(answered := H.answered + [c.task.resp]))
  {
    IdlePipesAreEmpty(net, f, i);
  }

  lemma ServeDescends(net: Net, f: Fleet, step: Step)
    requires Faithful(net) && FleetInv(net, f) && Inv(f.w.s) && CanDo(f, Serves(step))
    ensures var i, w' := step.i, Moved(net, f.w, Does(step));
            Descends(f, i, f.clients[i], w'.s.conns[i], w'.hists[i])
  {
    match step
    case ServerReceives(i, k) => ReceiveDescends(net, f, i, k);
    case ServerTakes(i) =>
      ServerTakesMovesWell(net, f.w, i);
      var r := Take(net.requests.reader, f.w.s.conns[i].inbound.ctx);
      TakeDescends(net, f, i, r.value.0, r.value.1);
    case Handles(i, a) => HandleDescends(net, f, i, a);
    case Replies(i) => ReplyDescends(net, f, i);
    case ClientReceives(i, k) => ReceiveDescends(net, f, i, k);
  }

  /** What a client does next brings it to a later phase, or to a later chunk. */
  lemma ClientAdvances(c: Client, H: Hist)
    requires ClientInv(c, H)
    ensures Request(c).Some? ==> BytesLeft(c.(pc := Sent(c.pc))) == BytesLeft(c) && PhaseLeft(Sent(c.pc)) < PhaseLeft(c.pc)
    ensures Awaits(c.pc) ==> forall m ::
              var c' := c.(pc := Received(c, m));
              !c'.pc.GaveUp? ==>
                BytesLeft(c') < BytesLeft(c) || (BytesLeft(c') == BytesLeft(c) && PhaseLeft(c'.pc) < PhaseLeft(c.pc))
  {
  }

  lemma GetDescends(net: Net, f: Fleet, i: nat, c': Conn, H': Hist)
    requires Faithful(net) && FleetInv(net, f) && CanDo(f, Gets(i))
    ensures Descends(f, i, Did(net, f, Gets(i)).clients[i], c', H')
  {
    var c, H := f.clients[i], f.w.hists[i];
    assert ClientInv(c, H) && ConnInv(net, Alone(f.w.s), f.w.s.conns[i], H);
    ClientTakesMovesWell(net, f.w, i);
    GetKeepsClient(c, H);
    ClientAdvances(c, H);
  }

  lemma SendDescends(f: Fleet, i: nat, c': Conn, H': Hist)
    requires i < |f.clients| == |f.w.hists| == |f.w.s.conns|
    requires ClientInv(f.clients[i], f.w.hists[i]) && Request(f.clients[i]).Some?
    ensures var c := f.clients[i];
            Descends(f, i, c.(pc := Sent(c.pc)), c', H')
  {
    ClientAdvances(f.clients[i], f.w.hists[i]);
  }

  lemma EndDescends(f: Fleet, i: nat)
    requires i < |f.clients| == |f.w.hists| == |f.w.s.conns|
    requires f.clients[i].pc.Ready? && f.clients[i].pc.at >= |f.clients[i].data|
    ensures var c := f.clients[i];
            Descends(f, i, c.(pc := Finished(c.pc.handle)), f.w.s.conns[i], f.w.hists[i])
  {
  }

  function Actor(a: Deed): nat {
    match a
    case Sends(i) => i
    case Gets(i) => i
    case Ends(i) => i
    case Serves(step) => step.i
  }

  lemma DeedDescends(net: Net, f: Fleet, a: Deed)
    requires Faithful(net) && FleetInv(net, f) && Inv(f.w.s) && CanDo(f, a)
    ensures var i, f' := Actor(a), Did(net, f, a);
            Descends(f, i, f'.clients[i], f'.w.s.conns[i], f'.w.hists[i])
  {
    var i, f' := Actor(a), Did(net, f, a);
    assert ClientInv(f.clients[i], f.w.hists[i]);
    match a
    case Sends(_) => SendDescends(f, i, f'.w.s.conns[i], f'.w.hists[i]);
    case Gets(_) => GetDescends(net, f, i, f'.w.s.conns[i], f'.w.hists[i]);
    case Ends(_) => EndDescends(f, i);
    case Serves(step) => ServeDescends(net, f, step);
  }

  lemma OneRankChanges(f: Fleet, f': Fleet, i: nat)
    requires i < |f.clients| == |f.w.hists| == |f.w.s.conns|
    requires |f'.clients| == |f'.w.hists| == |f'.w.s.conns| == |f.clients|
    requires f'.clients == f.clients[i := f'.clients[i]]
    requires f'.w.hists == f.w.hists[i := f'.w.hists[i]] && f'.w.s.conns == f.w.s.conns[i := f'.w.s.conns[i]]
    requires Descends(f, i, f'.clients[i], f'.w.s.conns[i], f'.w.hists[i])
    ensures Below(Total(Ranks(f')), Total(Ranks(f)))
  {
    var r := RankOf(f'.clients[i], f'.w.s.conns[i], f'.w.hists[i]);
    TotalDescends(Ranks(f), i, r);
    assert Ranks(f') == Ranks(f)[i := r];
  }

  /** Every step of a run lowers the total rank. */
  lemma EveryStepDescends(net: Net, f: Fleet, a: Deed)
    requires Faithful(net) && FleetInv(net, f) && Inv(f.w.s) && CanDo(f, a)
    ensures var f' := Did(net, f, a);
            |f'.clients| == |f'.w.hists| == |f'.w.s.conns| && Below(Total(Ranks(f')), Total(Ranks(f)))
  {
    DeedDescends(net, f, a);
    OneRankChanges(f, Did(net, f, a), Actor(a));
  }

  // ----- each client allocates once

  /** The client's one allocation has been made. */
  predicate HasPage(c: Conn, H: Hist) {
    |H.answered| > 0 || c.task.Replying?
  }

  function Tally(bs: seq<bool>): nat {
    if bs == [] then 0 else (if bs[0] then 1 else 0) + Tally(bs[1..])
  }

  lemma {:induction false} TallyBound(bs: seq<bool>)
    ensures Tally(bs) <= |bs|
  {
    if bs != [] {
      TallyBound(bs[1..]);
    }
  }

  lemma {:induction false} TallyChanges(bs: seq<bool>, i: nat, b: bool)
    requires i < |bs|
    ensures Tally(bs[i := b]) + (if bs[i] then 1 else 0) == Tally(bs) + (if b then 1 else 0)
  {
    if i > 0 {
      assert bs[i := b][1..] == bs[1..][i - 1 := b];
      TallyChanges(bs[1..], i - 1, b);
    } else {
      assert bs[i := b][1..] == bs[1..];
    }
  }

  function Owners(s: State, hists: seq<Hist>): seq<bool>
    requires |s.conns| == |hists|
  {
    seq(|hists|, i requires 0 <= i < |hists| => HasPage(s.conns[i], hists[i]))
  }

  /** There are no more pages than clients whose allocation has been made. */
  predicate Sparse(w: World) {
    |w.s.conns| == |w.hists| && |w.s.store.pages| <= Tally(Owners(w.s, w.hists))
  }

  lemma ActAllocates(store: Store, i: nat, t: Task, a: Action)
    requires CanAct(store, t, a)
    ensures var (store', t') := Act(store, i, t, a);
            && |store'.pages| == |store.pages| + (if a.Insert? then 1 else 0)
            && (a.Insert? ==> t.Inserting? && t'.Replying?) && !t.Replying?
  {
    match a
    case StoreByte => PageCount(store.pages, t.handle, store.pages[t.handle][t.offset + t.done := t.buf[t.done]]);
    case Insert(h) => PageCount(store.pages, h, seq(MappedLength(t.size), _ => 0));
    case _ =>
  }

  lemma PageCount(pages: Pages, h: nat, page: seq<Byte>)
    ensures |pages[h := page]| == |pages| + (if h in pages then 0 else 1)
  {
    assert pages[h := page].Keys == pages.Keys + {h};
  }

  /** A client that is being allocated a page has not been given one before. */
  lemma InsertsOnce(net: Net, f: Fleet, i: nat)
    requires FleetInv(net, f) && i < |f.clients|
    ensures f.w.s.conns[i].task.Inserting? ==> !HasPage(f.w.s.conns[i], f.w.hists[i])
  {
    assert ClientInv(f.clients[i], f.w.hists[i]) && ConnInv(net, Alone(f.w.s), f.w.s.conns[i], f.w.hists[i]);
  }

  lemma OwnPage(net: Net, f: Fleet, move: Move)
    requires NetWellFormed(net) && FleetInv(net, f) && CanMove(f.w, move)
    ensures var i, w, w' := StepOf(net, move).i, f.w, Moved(net, f.w, move);
            var had, has := HasPage(w.s.conns[i], w.hists[i]), HasPage(w'.s.conns[i], w'.hists[i]);
            (had ==> has) && |w'.s.store.pages| <= |w.s.store.pages| + (if has && !had then 1 else 0)
  {
    var i := StepOf(net, move).i;
    InsertsOnce(net, f, i);
    if move.Does? && move.step.Handles? {
      ActAllocates(f.w.s.store, i, f.w.s.conns[i].task, move.step.action);
    }
  }

  lemma MoveKeepsSparse(net: Net, f: Fleet, move: Move)
    requires NetWellFormed(net) && FleetInv(net, f) && CanMove(f.w, move) && Sparse(f.w)
    ensures Sparse(Moved(net, f.w, move))
  {
    var i, w, w' := StepOf(net, move).i, f.w, Moved(net, f.w, move);
    OwnPage(net, f, move);
    var has := HasPage(w'.s.conns[i], w'.hists[i]);
    TallyChanges(Owners(w.s, w.hists), i, has);
    OneOwnerChanges(w.s, w.hists, w'.s, w'.hists, i);
  }

  lemma OneOwnerChanges(s: State, hists: seq<Hist>, s': State, hists': seq<Hist>, i: nat)
    requires i < |s.conns| == |hists| == |s'.conns| == |hists'|
    requires s'.conns == s.conns[i := s'.conns[i]] && hists' == hists[i := hists'[i]]
    ensures Owners(s', hists') == Owners(s, hists)[i := HasPage(s'.conns[i], hists'[i])]
  {
  }

  lemma DeedKeepsSparse(net: Net, f: Fleet, a: Deed)
    requires NetWellFormed(net) && FleetInv(net, f) && CanDo(f, a) && Sparse(f.w)
    ensures Sparse(Did(net, f, a).w)
  {
    match a
    case Sends(i) => MoveKeepsSparse(net, f, Submits(i, Request(f.clients[i]).value));
    case Gets(i) => MoveKeepsSparse(net, f, Does(ClientTakes(i)));
    case Ends(_) =>
    case Serves(step) => MoveKeepsSparse(net, f, Does(step));
  }

  // ----- whole runs

  /** What holds after every run of any clients: in particular, no more pages than clients. */
  ghost predicate Running(net: Net, clients: seq<Client>, f: Fleet) {
    && FleetInv(net, f) && Inv(f.w.s) && Sparse(f.w)
    && |f.clients| == |f.w.hists| == |f.w.s.conns| == |clients|
  }

  lemma DeedKeepsRunning(net: Net, clients: seq<Client>, f: Fleet, a: Deed)
    requires Faithful(net) && Running(net, clients, f) && CanDo(f, a)
    ensures Running(net, clients, Did(net, f, a))
    ensures Below(Total(Ranks(Did(net, f, a))), Total(Ranks(f)))
  {
    DeedKeepsFleet(net, f, a);
    DeedKeepsLock(net, f, a);
    DeedKeepsSparse(net, f, a);
    EveryStepDescends(net, f, a);
  }

  lemma {:induction false} RunsAreRunning(net: Net, clients: seq<Client>, deeds: seq<Deed>)
    requires Faithful(net) && AllBegin(clients) && Run(net, clients, deeds).Some?
    ensures Running(net, clients, Run(net, clients, deeds).value)
  {
    if deeds == [] {
      RunKeepsFleet(net, clients, deeds);
      InitInv(|clients|);
    } else {
      RunsAreRunning(net, clients, deeds[..|deeds| - 1]);
      DeedKeepsRunning(net, clients, Run(net, clients, deeds[..|deeds| - 1]).value, deeds[|deeds| - 1]);
    }
  }

  lemma RoomLeft(net: Net, clients: seq<Client>, f: Fleet)
    requires Running(net, clients, f) && |clients| < TWO64
    ensures |f.w.s.store.pages| < TWO64
  {
    TallyBound(Owners(f.w.s, f.w.hists));
  }

  ghost function Left(net: Net, clients: seq<Client>, deeds: seq<Deed>): Rank
    requires Faithful(net) && AllBegin(clients) && Run(net, clients, deeds).Some?
  {
    RunsAreRunning(net, clients, deeds);
    Total(Ranks(Run(net, clients, deeds).value))
  }

  lemma OneMoreDeed(net: Net, clients: seq<Client>, deeds: seq<Deed>, a: Deed)
    requires Faithful(net) && AllBegin(clients) && Run(net, clients, deeds).Some?
    requires Run(net, clients, deeds + [a]).Some? || CanDo(Run(net, clients, deeds).value, a)
    ensures Run(net, clients, deeds + [a]).Some?
    ensures Below(Left(net, clients, deeds + [a]), Left(net, clients, deeds))
  {
    assert (deeds + [a])[..|deeds|] == deeds;
    RunsAreRunning(net, clients, deeds);
    DeedKeepsRunning(net, clients, Run(net, clients, deeds).value, a);
  }

  /** Every client is done, and its buffer is on its page. */
  ghost predicate Succeeded(clients: seq<Client>, f: Fleet) {
    && |f.clients| == |clients|
    && forall i :: 0 <= i < |clients| ==> Delivered(clients[i], f.clients[i], f.w.s.store.pages)
  }

  predicate Delivered(c: Client, c': Client, pages: Pages) {
    c'.pc.Finished? && c'.pc.handle in pages && c.data <= pages[c'.pc.handle]
  }

  lemma FinishedIsSuccess(net: Net, clients: seq<Client>, deeds: seq<Deed>)
    requires Faithful(net) && AllBegin(clients) && Run(net, clients, deeds).Some?
    requires var f := Run(net, clients, deeds).value;
             forall i :: 0 <= i < |f.clients| ==> f.clients[i].pc.Finished?
    ensures Succeeded(clients, Run(net, clients, deeds).value)
  {
    var f := Run(net, clients, deeds).value;
    RunsAreRunning(net, clients, deeds);
    forall i | 0 <= i < |clients| ensures Delivered(clients[i], f.clients[i], f.w.s.store.pages) {
      EveryReadBackSucceeds(net, clients, deeds, i, i);
    }
  }

  /** A run of fewer than 2^64 clients that can go no further has succeeded. */
  lemma StandstillIsSuccess(net: Net, clients: seq<Client>, deeds: seq<Deed>)
    requires Faithful(net) && AllBegin(clients) && |clients| < TWO64 && Run(net, clients, deeds).Some?
    requires forall a :: !CanDo(Run(net, clients, deeds).value, a)
    ensures Succeeded(clients, Run(net, clients, deeds).value)
  {
    var f := Run(net, clients, deeds).value;
    RunsAreRunning(net, clients, deeds);
    RoomLeft(net, clients, f);
    if i :| 0 <= i < |f.clients| && !f.clients[i].pc.Finished? {
      var a := NeverStuck(net, f, i);
    }
    FinishedIsSuccess(net, clients, deeds);
  }

  /** Every run of fewer than 2^64 clients can be continued to success. */
  lemma {:induction false} EveryRunCanSucceed(net: Net, clients: seq<Client>, deeds: seq<Deed>) returns (more: seq<Deed>)
    requires Faithful(net) && AllBegin(clients) && |clients| < TWO64 && Run(net, clients, deeds).Some?
    ensures Run(net, clients, deeds + more).Some?
    ensures Succeeded(clients, Run(net, clients, deeds + more).value)
  {
    var ok := (ds: seq<Deed>) => Run(net, clients, ds).Some?;
    var done := (ds: seq<Deed>) => ok(ds) && Succeeded(clients, Run(net, clients, ds).value);
    var rank := (ds: seq<Deed>) => if ok(ds) then Left(net, clients, ds) else Rank(0, 0, 0, 0);
    forall ds | ok(ds) && !done(ds) ensures exists a :: Lowers(ok, rank, ds, a) {
      var f := Run(net, clients, ds).value;
      if forall i :: 0 <= i < |f.clients| ==> f.clients[i].pc.Finished? {
        FinishedIsSuccess(net, clients, ds);
      } else {
        var i :| 0 <= i < |f.clients| && !f.clients[i].pc.Finished?;
        var a := PossibleDeed(net, clients, ds, i);
        assert Lowers(ok, rank, ds, a);
      }
    }
    more := Continued(ok, done, rank, deeds, rank(deeds));
  }

  /** `a` can follow the steps `ds`, and leaves less to do. */
  ghost predicate Lowers<A(!new)>(ok: seq<A> -> bool, rank: seq<A> -> Rank, ds: seq<A>, a: A) {
    ok(ds + [a]) && Below(rank(ds + [a]), rank(ds))
  }

  /** Where a step that leaves less to do is always possible, the end is reached. */
  lemma {:induction false} Continued<A(!new)>(
    ok: seq<A> -> bool, done: seq<A> -> bool, rank: seq<A> -> Rank, ds: seq<A>, left: Rank)
    returns (more: seq<A>)
    requires forall ds | ok(ds) && !done(ds) :: exists a :: Lowers(ok, rank, ds, a)
    requires ok(ds) && left == rank(ds)
    ensures ok(ds + more) && done(ds + more)
    decreases left.bytes, left.phase, left.stage, left.steps
  {
    if done(ds) {
      more := [];
      assert ds + more == ds;
    } else {
      var a :| Lowers(ok, rank, ds, a);
      var rest := Continued(ok, done, rank, ds + [a], rank(ds + [a]));
      more := [a] + rest;
      assert ds + more == ds + [a] + rest;
    }
  }

  lemma PossibleDeed(net: Net, clients: seq<Client>, deeds: seq<Deed>, i: nat) returns (a: Deed)
    requires Faithful(net) && AllBegin(clients) && |clients| < TWO64 && Run(net, clients, deeds).Some?
    requires i < |Run(net, clients, deeds).value.clients| && !Run(net, clients, deeds).value.clients[i].pc.Finished?
    ensures Run(net, clients, deeds + [a]).Some?
    ensures Below(Left(net, clients, deeds + [a]), Left(net, clients, deeds))
  {
    var f := Run(net, clients, deeds).value;
    RunsAreRunning(net, clients, deeds);
    RoomLeft(net, clients, f);
    a := NeverStuck(net, f, i);
    OneMoreDeed(net, clients, deeds, a);
  }

  function Prefix(plan: nat -> Deed, n: nat): seq<Deed> {
    seq(n, i requires 0 <= i => plan(i))
  }

  /** No run goes on for ever: whatever endless sequence of steps is planned, one of them comes
      at which it is not possible. */
  lemma {:induction false} EveryRunEnds(net: Net, clients: seq<Client>, plan: nat -> Deed, n: nat) returns (m: nat)
    requires Faithful(net) && AllBegin(clients) && Run(net, clients, Prefix(plan, n)).Some?
    ensures m > n && Run(net, clients, Prefix(plan, m)).None?
    decreases Left(net, clients, Prefix(plan, n)).bytes, Left(net, clients, Prefix(plan, n)).phase,
              Left(net, clients, Prefix(plan, n)).stage, Left(net, clients, Prefix(plan, n)).steps
  {
    assert Prefix(plan, n + 1) == Prefix(plan, n) + [plan(n)];
    if Run(net, clients, Prefix(plan, n + 1)).None? {
      m := n + 1;
    } else {
      OneMoreDeed(net, clients, Prefix(plan, n), plan(n));
      m := EveryRunEnds(net, clients, plan, n + 1);
    }
  }
}
