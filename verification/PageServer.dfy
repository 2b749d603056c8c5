/**
 The page store behind many connections. Each connection is served by its own task: read a
 request, take the store's lock (exclusive for Alloc, shared for Read and Write), copy byte
 by byte, reply. Steps of different tasks interleave freely, and clients may send any bytes.
 */
module PageServer {
  import opened Delimited
  import opened Widths
  import opened Messages
  import opened Reader
  import opened Framing
  import Bits

  type PageSize = p: nat | 0 < p < TWO64 && TWO64 % p == 0 witness 4096

  /** The size of a page of memory, which the program asks the system for: it may be anything
      that divides 2^64. */
  const PAGE_SIZE: PageSize

  /** The length of the mapping made for a request of `size` bytes, in 64-bit arithmetic. */
  function MappedLength(size: nat): nat {
    RoundedUp(size, PAGE_SIZE)
  }

  function RoundedUp(size: nat, page: nat): nat
    requires page > 0
  {
    ((size / page + if size % page > 0 then 1 else 0) * page) % TWO64
  }

  /** The two directions of a connection. */
  datatype Net = Net(requests: Link<Message>, responses: Link<Message>)

  ghost predicate NetWellFormed(net: Net) {
    WellFormed(net.requests.reader) && WellFormed(net.responses.reader)
  }

  // ----- state

  type Pages = map<nat, seq<Byte>>

  /** The shared part: the pages, and who is inside their lock. */
  datatype Store = Store(pages: Pages, readers: set<nat>, writer: Option<nat>)

  datatype Task =
    | Idle
    | Waiting(req: Message)
    | Inserting(size: U64)
    | CopyOut(handle: U64, offset: U64, len: U64, out: seq<Byte>)
    | CopyIn(handle: U64, offset: U64, buf: seq<Byte>, done: nat)
    | Replying(resp: Message, shared: bool)
    | Ended
    | Panicked

  datatype Conn = Conn(task: Task, inbound: Pipe, outbound: Pipe)

  datatype State = State(store: Store, conns: seq<Conn>)

  predicate HoldsShared(t: Task) {
    t.CopyOut? || t.CopyIn? || (t.Replying? && t.shared)
  }

  const IDLE_CONN := Conn(Idle, Pipe(FRESH, []), Pipe(FRESH, []))

  function Init(n: nat): State {
    State(Store(map[], {}, None), seq(n, _ => IDLE_CONN))
  }

  // ----- handlers

  const BAD_HANDLE: Message := Err(InvalidHandle, [0x49, 0x6e, 0x76, 0x61, 0x6c, 0x69, 0x64, 0x20,
                                                   0x68, 0x61, 0x6e, 0x64, 0x6c, 0x65])
  const BAD_RANGE: Message := Err(ArgumentOutOfRange, [0x4f, 0x66, 0x66, 0x73, 0x65, 0x74, 0x20, 0x69, 0x73, 0x20, 0x6f,
                                                       0x75, 0x74, 0x20, 0x6f, 0x66, 0x20, 0x72, 0x61, 0x6e, 0x67, 0x65])

  /** What the two error replies say. */
  predicate SaysBadHandle(m: Message) {
    m.Err? && m.error == InvalidHandle && Spells(m.message, "Invalid handle")
  }

  predicate SaysBadRange(m: Message) {
    m.Err? && m.error == ArgumentOutOfRange && Spells(m.message, "Offset is out of range")
  }

  lemma ErrorReplies()
    ensures SaysBadHandle(BAD_HANDLE) && SaysBadRange(BAD_RANGE)
  {
  }

  /** The range check adds in 64 bits, so the sum may wrap. */
  predicate RejectsRange(offset: nat, len: nat, pageLength: nat) {
    (offset + len) % TWO64 > pageLength
  }

  function Min(a: int, b: int): int {
    if a < b then a else b
  }

  /** What a Read or Write handler does on obtaining the shared lock. A wrapped range passes
      the check: reading it panics, and writing it copies only what lies on the page. */
  function Begin(pages: Pages, req: Message): Task
    requires req.Read? || req.Write?
  {
    if req.handle !in pages then Replying(BAD_HANDLE, true)
    else
      var length := |pages[req.handle]|;
      match req
      case Read(h, offset, len) =>
        if RejectsRange(offset, len, length) then Replying(BAD_RANGE, true)
        else if offset + len > length then Panicked
        else CopyOut(h, offset, len, [])
      case Write(h, offset, buf) =>
        if RejectsRange(offset, |buf|, length) then Replying(BAD_RANGE, true)
        else CopyIn(h, offset, if offset < length then buf[..Min(|buf|, length - offset)] else [], 0)
  }

  // ----- steps of a handler

  datatype Action =
    | LockShared
    | LockExclusive
    | Insert(handle: U64)
    | MapFails
    | LoadByte
    | StoreByte
    | FinishCopy

  predicate CanAct(store: Store, t: Task, a: Action) {
    match a
    case LockShared => t.Waiting? && (t.req.Read? || t.req.Write?) && store.writer.None?
    case LockExclusive => t.Waiting? && t.req.Alloc? && store.writer.None? && store.readers == {}
    case Insert(h) => t.Inserting? && MappedLength(t.size) > 0 && h !in store.pages
    case MapFails => t.Inserting? && MappedLength(t.size) == 0
    case LoadByte =>
      && t.CopyOut? && |t.out| < t.len
      && t.handle in store.pages && t.offset + |t.out| < |store.pages[t.handle]|
    case StoreByte =>
      && t.CopyIn? && t.done < |t.buf|
      && t.handle in store.pages && t.offset + t.done < |store.pages[t.handle]|
    case FinishCopy => (t.CopyOut? && |t.out| == t.len) || (t.CopyIn? && t.done == |t.buf|)
  }

  function Act(store: Store, i: nat, t: Task, a: Action): (Store, Task)
    requires CanAct(store, t, a)
  {
    match a
    case LockShared =>
      var t' := Begin(store.pages, t.req);
      (if t'.Panicked? then store else store.(readers := store.readers + {i}), t')
    case LockExclusive => (store.(writer := Some(i)), Inserting(t.req.size))
    case Insert(h) =>
      (store.(pages := store.pages[h := seq(MappedLength(t.size), _ => 0)], writer := None),
       Replying(OkWithHandle(h), false))
    case MapFails => (store.(writer := None), Panicked)
    case LoadByte => (store, t.(out := t.out + [store.pages[t.handle][t.offset + |t.out|]]))
    case StoreByte =>
      var page := store.pages[t.handle][t.offset + t.done := t.buf[t.done]];
      (store.(pages := store.pages[t.handle := page]), t.(done := t.done + 1))
    case FinishCopy =>
      (store,
       Replying(if t.CopyOut? then OkWithBuffer(t.handle, t.offset, t.out) else OkWithHandle(t.handle), true))
  }

  // ----- steps of the whole system

  datatype Step =
    | ClientWrites(i: nat, bytes: seq<Byte>)
    | ServerReceives(i: nat, k: nat)
    | ServerTakes(i: nat)
    | Hangup(i: nat)
    | Handles(i: nat, action: Action)
    | Replies(i: nat)
    | ClientReceives(i: nat, k: nat)
    | ClientTakes(i: nat)

  /** A waiting reader may be handed any non-empty part of what is in flight. */
  predicate CanReceive(pipe: Pipe, k: nat) {
    GetState(pipe.ctx) != Done && 0 < k <= |pipe.wire| && |pipe.ctx.buffer| + k < TWO32
  }

  function Drawn(link: Link<Message>, pipe: Pipe, k: nat): Pipe
    requires WellFormed(link.reader) && k <= |pipe.wire|
  {
    Pipe(Receive(link.reader, pipe.ctx, pipe.wire[..k]), pipe.wire[k..])
  }

  predicate Enabled(s: State, step: Step) {
    step.i < |s.conns| &&
    var c := s.conns[step.i];
    match step
    case ClientWrites(_, _) => true
    case ServerReceives(_, k) => c.task.Idle? && CanReceive(c.inbound, k)
    case ServerTakes(_) => c.task.Idle? && GetState(c.inbound.ctx) == Done
    case Hangup(_) => c.task.Idle? && GetState(c.inbound.ctx) != Done && c.inbound.wire == []
    case Handles(_, a) => CanAct(s.store, c.task, a)
    case Replies(_) => c.task.Replying?
    case ClientReceives(_, k) => CanReceive(c.outbound, k)
    case ClientTakes(_) => GetState(c.outbound.ctx) == Done
  }

  /** The new store and the new state of the connection that takes the step. */
  function Effect(net: Net, s: State, step: Step): (Store, Conn)
    requires NetWellFormed(net)
    requires Enabled(s, step)
  {
    var c := s.conns[step.i];
    match step
    case ClientWrites(_, bytes) => (s.store, c.(inbound := c.inbound.(wire := c.inbound.wire + bytes)))
    case ServerReceives(_, k) => (s.store, c.(inbound := Drawn(net.requests, c.inbound, k)))
    case ServerTakes(_) =>
      (match Take(net.requests.reader, c.inbound.ctx)
       case None => (s.store, c.(task := Ended))
       case Some((m, ctx)) => (s.store, c.(task := Waiting(m), inbound := c.inbound.(ctx := ctx))))
    case Hangup(_) => (s.store, c.(task := Ended))
    case Handles(i, a) =>
      var (store, t) := Act(s.store, i, c.task, a);
      (store, c.(task := t))
    case Replies(i) =>
      var wire := c.outbound.wire + Framing.Frame(net.responses, c.task.resp);
      (s.store.(readers := s.store.readers - {i}), c.(task := Idle, outbound := c.outbound.(wire := wire)))
    case ClientReceives(_, k) => (s.store, c.(outbound := Drawn(net.responses, c.outbound, k)))
    case ClientTakes(_) =>
      (match Take(net.responses.reader, c.outbound.ctx)
       case None => (s.store, c)
       case Some((_, ctx)) => (s.store, c.(outbound := c.outbound.(ctx := ctx))))
  }

  function Next(net: Net, s: State, step: Step): State
    requires NetWellFormed(net)
    requires Enabled(s, step)
  {
    var (store, c) := Effect(net, s, step);
    State(store, s.conns[step.i := c])
  }

  // ----- what every step keeps, whatever the clients send

  predicate CopyInRange(pages: Pages, t: Task) {
    match t
    case CopyOut(h, offset, len, out) => h in pages && offset + len <= |pages[h]| && |out| <= len
    case CopyIn(h, offset, buf, done) =>
      h in pages && (buf == [] || offset + |buf| <= |pages[h]|) && done <= |buf|
    case _ => true
  }

  ghost predicate CopiesInRange(s: State) {
    forall i :: 0 <= i < |s.conns| ==> CopyInRange(s.store.pages, s.conns[i].task)
  }

  /** The lock records exactly who is inside: one inserting task alone, or any copies. */
  ghost predicate LockExact(s: State) {
    && (forall i :: i in s.store.readers <==> 0 <= i < |s.conns| && HoldsShared(s.conns[i].task))
    && (forall i :: 0 <= i < |s.conns| && s.conns[i].task.Inserting? ==> s.store.writer == Some(i))
    && (s.store.writer.Some? ==>
          && s.store.readers == {}
          && s.store.writer.value < |s.conns|
          && s.conns[s.store.writer.value].task.Inserting?)
  }

  ghost predicate Inv(s: State) {
    CopiesInRange(s) && LockExact(s)
  }

  /** No page is ever removed or resized. */
  ghost predicate PagesGrow(before: Pages, after: Pages) {
    forall h :: h in before ==> h in after && |after[h]| == |before[h]|
  }

  lemma ActKeepsRange(store: Store, i: nat, t: Task, a: Action)
    requires CanAct(store, t, a) && CopyInRange(store.pages, t)
    ensures var (store', t') := Act(store, i, t, a);
            PagesGrow(store.pages, store'.pages) && CopyInRange(store'.pages, t')
  {
  }

  /** How an action moves its task with respect to the lock. */
  lemma ActMovesLock(store: Store, i: nat, t: Task, a: Action)
    requires CanAct(store, t, a)
    ensures var (store', t') := Act(store, i, t, a);
            && (HoldsShared(t) ==> HoldsShared(t') && store'.readers == store.readers && store'.writer == store.writer)
            && (t.Inserting? ==> !HoldsShared(t') && !t'.Inserting?
                                 && store'.readers == store.readers && store'.writer == None)
            && (t.Waiting? ==> store.writer.None? && t' != t
                               && (if t'.Inserting? then store.readers == store'.readers == {} && store'.writer == Some(i)
                                   else store'.writer.None?
                                        && store'.readers == store.readers + (if HoldsShared(t') then {i} else {})))
  {
  }

  lemma StepKeepsCopiesInRange(net: Net, s: State, step: Step)
    requires NetWellFormed(net)
    requires CopiesInRange(s) && Enabled(s, step)
    ensures CopiesInRange(Next(net, s, step))
    ensures PagesGrow(s.store.pages, Next(net, s, step).store.pages)
  {
    var s', c := Next(net, s, step), s.conns[step.i];
    assert CopyInRange(s.store.pages, c.task);
    if step.Handles? {
      ActKeepsRange(s.store, step.i, c.task, step.action);
    }
    forall j | 0 <= j < |s.conns| ensures CopyInRange(s'.store.pages, s'.conns[j].task) {
      assert CopyInRange(s.store.pages, s.conns[j].task);
    }
  }

  lemma StepKeepsLockExact(net: Net, s: State, step: Step)
    requires NetWellFormed(net)
    requires LockExact(s) && Enabled(s, step)
    ensures LockExact(Next(net, s, step))
  {
    if step.Handles? {
      ActMovesLock(s.store, step.i, s.conns[step.i].task, step.action);
    }
  }

  // ----- whole runs

  /** The state after a sequence of steps; None if one of them was not enabled. */
  ghost function After(net: Net, n: nat, steps: seq<Step>): Option<State>
    requires NetWellFormed(net)
  {
    if steps == [] then Some(Init(n))
    else
      var step := steps[|steps| - 1];
      match After(net, n, steps[..|steps| - 1])
      case None => None
      case Some(s) => if Enabled(s, step) then Some(Next(net, s, step)) else None
  }

  datatype Cell = Cell(handle: nat, offset: nat, value: Byte)

  /** The byte that a step stores into a page, if it stores one. */
  function Stored(s: State, step: Step): seq<Cell>
    requires Enabled(s, step)
  {
    if step.Handles? && step.action.StoreByte? then
      var t := s.conns[step.i].task;
      [Cell(t.handle, t.offset + t.done, t.buf[t.done])]
    else []
  }

  ghost function History(net: Net, n: nat, steps: seq<Step>): seq<Cell>
    requires NetWellFormed(net) && After(net, n, steps).Some?
  {
    if steps == [] then []
    else
      var front := steps[..|steps| - 1];
      History(net, n, front) + Stored(After(net, n, front).value, steps[|steps| - 1])
  }

  /** The byte last stored in a cell, or zero. */
  function Latest(history: seq<Cell>, handle: nat, offset: nat): Byte {
    if history == [] then 0
    else
      var last := history[|history| - 1];
      if last.handle == handle && last.offset == offset then last.value
      else Latest(history[..|history| - 1], handle, offset)
  }

  ghost predicate PagesAreLatest(pages: Pages, history: seq<Cell>) {
    && (forall c :: c in history ==> c.handle in pages)
    && (forall h, o :: h in pages && 0 <= o < |pages[h]| ==> pages[h][o] == Latest(history, h, o))
  }

  lemma {:induction false} UnwrittenIsZero(history: seq<Cell>, h: nat, o: nat)
    requires forall c :: c in history ==> c.handle != h
    ensures Latest(history, h, o) == 0
  {
    if history != [] {
      UnwrittenIsZero(history[..|history| - 1], h, o);
    }
  }

  lemma StepKeepsLatest(net: Net, s: State, step: Step, history: seq<Cell>)
    requires NetWellFormed(net)
    requires Enabled(s, step) && PagesAreLatest(s.store.pages, history)
    ensures PagesAreLatest(Next(net, s, step).store.pages, history + Stored(s, step))
  {
    var pages, pages' := s.store.pages, Next(net, s, step).store.pages;
    var history' := history + Stored(s, step);
    if step.Handles? && step.action.StoreByte? {
      assert history'[..|history'| - 1] == history;
    } else {
      assert history' == history;
      forall h, o | h in pages' && 0 <= o < |pages'[h]| ensures pages'[h][o] == Latest(history', h, o) {
        if h !in pages {
          UnwrittenIsZero(history, h, o);
        }
      }
    }
  }

  lemma InitInv(n: nat)
    ensures Inv(Init(n))
  {
  }

  /** Over every run of every number of clients sending whatever they like: the lock is exact,
      copies stay on their pages, and each byte of each page is the one last stored there, or
      zero if none was. */
  lemma {:induction false} RunsKeepStore(net: Net, n: nat, steps: seq<Step>)
    requires NetWellFormed(net)
    requires After(net, n, steps).Some?
    ensures Inv(After(net, n, steps).value)
    ensures PagesAreLatest(After(net, n, steps).value.store.pages, History(net, n, steps))
  {
    if steps == [] {
      InitInv(n);
    } else {
      var front, step := steps[..|steps| - 1], steps[|steps| - 1];
      RunsKeepStore(net, n, front);
      var s := After(net, n, front).value;
      StepKeepsCopiesInRange(net, s, step);
      StepKeepsLockExact(net, s, step);
      StepKeepsLatest(net, s, step, History(net, n, front));
    }
  }

  /** Handles are never taken back: a page once handed out keeps its length for ever. */
  lemma {:induction false} RunsNeverShrink(net: Net, n: nat, steps: seq<Step>, more: seq<Step>)
    requires NetWellFormed(net)
    requires After(net, n, steps + more).Some?
    ensures After(net, n, steps).Some?
    ensures PagesGrow(After(net, n, steps).value.store.pages, After(net, n, steps + more).value.store.pages)
  {
    if more == [] {
      assert steps + more == steps;
    } else {
      var front := more[..|more| - 1];
      assert (steps + more)[..|steps + more| - 1] == steps + front;
      RunsNeverShrink(net, n, steps, front);
      RunsKeepStore(net, n, steps + front);
      StepKeepsCopiesInRange(net, After(net, n, steps + front).value, more[|more| - 1]);
    }
  }

  /** In every reachable state, an insertion uses a fresh handle and finds no copy in progress.
      It adds one page of zeros, the least whole number of pages that holds what was asked for,
      and changes no other. */
  lemma InsertExcludesCopies(net: Net, n: nat, steps: seq<Step>, i: nat, h: U64)
    requires NetWellFormed(net)
    requires After(net, n, steps).Some? && Enabled(After(net, n, steps).value, Handles(i, Insert(h)))
    ensures var s := After(net, n, steps).value;
            var page, size := Next(net, s, Handles(i, Insert(h))).store.pages[h], s.conns[i].task.size;
            && h !in s.store.pages
            && (forall j :: 0 <= j < |s.conns| ==> !HoldsShared(s.conns[j].task))
            && Next(net, s, Handles(i, Insert(h))).store.pages == s.store.pages[h := page]
            && |page| % PAGE_SIZE == 0 && size <= |page| < size + PAGE_SIZE
            && forall o :: 0 <= o < |page| ==> page[o] == 0
  {
    RunsKeepStore(net, n, steps);
    MappedLengthExact(After(net, n, steps).value.conns[i].task.size);
  }

  // ----- the end of a connection

  predicate Over(t: Task) {
    t.Ended? || t.Panicked?
  }

  /** A request whose body is refused ends its connection without a reply, and so does a close. */
  lemma RefusalEnds(net: Net, s: State, i: nat)
    requires NetWellFormed(net) && i < |s.conns|
    ensures var c := s.conns[i];
            Enabled(s, ServerTakes(i)) &&
            net.requests.reader.body(c.inbound.ctx.header.value, c.inbound.ctx.buffer).None? ==>
              Next(net, s, ServerTakes(i)) == State(s.store, s.conns[i := c.(task := Ended)])
    ensures Enabled(s, Hangup(i)) ==>
              Next(net, s, Hangup(i)) == State(s.store, s.conns[i := s.conns[i].(task := Ended)])
  {
  }

  /** A connection that is over stays so: it holds no lock, reads nothing and writes nothing. */
  lemma {:induction false} OverForGood(net: Net, n: nat, steps: seq<Step>, more: seq<Step>, i: nat)
    requires NetWellFormed(net) && After(net, n, steps + more).Some?
    ensures After(net, n, steps).Some?
    ensures var s, s' := After(net, n, steps).value, After(net, n, steps + more).value;
            |s.conns| == |s'.conns| && (i < |s.conns| && Over(s.conns[i].task) ==>
              && s'.conns[i].task == s.conns[i].task && s'.conns[i].inbound.ctx == s.conns[i].inbound.ctx
              && |s'.conns[i].outbound.wire| <= |s.conns[i].outbound.wire| && i !in s'.store.readers)
  {
    if more == [] {
      assert steps + more == steps;
      RunsKeepStore(net, n, steps);
    } else {
      var front := more[..|more| - 1];
      assert (steps + more)[..|steps + more| - 1] == steps + front;
      OverForGood(net, n, steps, front, i);
      RunsKeepStore(net, n, steps + more);
    }
  }

  /** A byte that a read loads is the byte last stored in that cell of the page, or zero. */
  lemma LoadsAreLatest(net: Net, n: nat, steps: seq<Step>, i: nat)
    requires NetWellFormed(net)
    requires After(net, n, steps).Some? && Enabled(After(net, n, steps).value, Handles(i, LoadByte))
    ensures var s := After(net, n, steps).value;
            var t := s.conns[i].task;
            var t' := Act(s.store, i, t, LoadByte).1;
            t'.CopyOut? && t'.out == t.out + [Latest(History(net, n, steps), t.handle, t.offset + |t.out|)]
  {
    RunsKeepStore(net, n, steps);
    LoadTakesLatest(After(net, n, steps).value.store, i, After(net, n, steps).value.conns[i].task, History(net, n, steps));
  }

  lemma LoadTakesLatest(store: Store, i: nat, t: Task, history: seq<Cell>)
    requires CanAct(store, t, LoadByte) && PagesAreLatest(store.pages, history)
    ensures var t' := Act(store, i, t, LoadByte).1;
            t'.CopyOut? && t'.out == t.out + [Latest(history, t.handle, t.offset + |t.out|)]
  {
  }

  /** A byte of an existing page changes only when some task stores the next byte of a write it
      has accepted, inside that write's range. */
  lemma ChangesAreAcceptedWrites(net: Net, s: State, step: Step, h: nat, o: nat)
    requires NetWellFormed(net)
    requires Enabled(s, step)
    requires h in s.store.pages && o < |s.store.pages[h]|
    ensures var pages', t := Next(net, s, step).store.pages, s.conns[step.i].task;
            && h in pages' && |pages'[h]| == |s.store.pages[h]|
            && (pages'[h][o] != s.store.pages[h][o] ==>
                  && step.Handles? && step.action.StoreByte?
                  && t.CopyIn? && h == t.handle && t.offset <= o < t.offset + |t.buf|
                  && pages'[h][o] == t.buf[o - t.offset])
  {
  }

  // ----- sizes and ranges in 64-bit arithmetic

  /** At every page size that divides 2^64, a mapping is the least whole number of pages that
      holds the request; it comes out empty exactly for size zero and for sizes that overflow. */
  lemma RoundedUpExact(size: U64, page: nat, count: nat)
    requires page > 0 && page * count == TWO64
    ensures RoundedUp(size, page) == 0 <==> size == 0 || size > TWO64 - page
    ensures RoundedUp(size, page) % page == 0
    ensures RoundedUp(size, page) > 0 ==> size <= RoundedUp(size, page) < size + page
  {
    var m := LeastPages(size, page, count);
    WrapsToZero(size, page, m);
  }

  lemma LeastPages(size: U64, page: nat, count: nat) returns (m: nat)
    requires page > 0 && page * count == TWO64
    ensures RoundedUp(size, page) == m % TWO64 && m % page == 0
    ensures size <= m < size + page && (m == 0 <==> size == 0) && (m == TWO64 || m <= TWO64 - page)
  {
    var q := size / page + if size % page > 0 then 1 else 0;
    m := q * page;
    LeastPagesOf(size, page, q, count, TWO64);
  }

  lemma LeastPagesOf(size: nat, page: nat, q: nat, count: nat, total: nat)
    requires page > 0 && page * count == total && size < total
    requires q == size / page + if size % page > 0 then 1 else 0
    ensures var m := q * page;
            && m % page == 0 && size <= m < size + page && (m == 0 <==> size == 0)
            && (m == total || m <= total - page)
  {
    LeastMultiple(size, page, q);
    MultipleOf(page, q);
    WithinCount(page, q, count, total);
  }

  lemma WithinCount(page: nat, q: nat, count: nat, total: nat)
    requires page > 0 && page * count == total && page * q < total + page
    ensures page * q == total || page * q <= total - page
  {
    Monotone(page, q + 1, count);
    Monotone(page, count + 1, q);
    assert page * (q + 1) == page * q + page && page * (count + 1) == total + page;
  }

  lemma LeastMultiple(size: nat, page: nat, q: nat)
    requires page > 0 && q == size / page + if size % page > 0 then 1 else 0
    ensures size <= page * q < size + page && (page * q == 0 <==> size == 0)
  {
    assert size == page * (size / page) + size % page;
    if size % page > 0 {
      assert page * q == page * (size / page) + page;
    }
  }

  lemma Monotone(page: nat, a: nat, b: nat)
    ensures a <= b ==> page * a <= page * b
  {
    if a <= b {
      assert page * b == page * a + page * (b - a);
    }
  }

  lemma MultipleOf(page: nat, q: nat)
    requires page > 0
    ensures (page * q) % page == 0
  {
    Bits.DivisionUnique(page * q, page, q, 0);
  }

  lemma WrapsToZero(size: U64, page: nat, m: nat)
    requires size <= m < size + page && (m == 0 <==> size == 0)
    requires m == TWO64 || m <= TWO64 - page
    ensures m % TWO64 == (if m == TWO64 then 0 else m)
    ensures m % TWO64 == 0 <==> size == 0 || size > TWO64 - page
  {
  }

  /** The server panics on an allocation exactly when its mapping comes out empty. */
  lemma MappedLengthExact(size: U64)
    ensures MappedLength(size) == 0 <==> size == 0 || size > TWO64 - PAGE_SIZE
    ensures MappedLength(size) % PAGE_SIZE == 0
    ensures MappedLength(size) > 0 ==> size <= MappedLength(size) < size + PAGE_SIZE
  {
    WholePages(PAGE_SIZE);
    RoundedUpExact(size, PAGE_SIZE, TWO64 / PAGE_SIZE);
  }

  lemma WholePages(page: PageSize)
    ensures page * (TWO64 / page) == TWO64 && page <= TWO64 / 2
  {
    var count := TWO64 / page;
    assert TWO64 == page * count + TWO64 % page;
    Monotone(page, 2, count);
    assert count != 1;
  }

  /** The range check is right exactly when the wrapped sum does not fall back onto the page. */
  lemma RangeCheckExact(offset: U64, len: U64, pageLength: U64)
    ensures (RejectsRange(offset, len, pageLength) <==> offset + len > pageLength)
            <==> !(offset + len >= TWO64 && offset + len - TWO64 <= pageLength)
  {
  }

  /** When it does, a read panics, and a write stores only the bytes that lie on the page and is
      acknowledged; otherwise an accepted request covers its whole range. */
  lemma WrappedRequests(pages: Pages, req: Message)
    requires req.Read? || req.Write?
    requires req.handle in pages && |pages[req.handle]| < TWO64
    requires req.Write? ==> |req.buf| < TWO64
    ensures var length := |pages[req.handle]|;
            var end := req.offset + if req.Read? then req.len else |req.buf|;
            var t := Begin(pages, req);
            if end >= TWO64 && end - TWO64 <= length then
              (if req.Read? then t.Panicked?
               else t == CopyIn(req.handle, req.offset,
                                req.buf[..if req.offset < length then length - req.offset else 0], 0))
            else if end > length then t.Replying? && SaysBadRange(t.resp)
            else if req.Read? then t == CopyOut(req.handle, req.offset, req.len, [])
            else t == CopyIn(req.handle, req.offset, req.buf, 0)
  {
    ErrorReplies();
  }
}
