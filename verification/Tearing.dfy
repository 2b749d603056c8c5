/**
 Copies of one page, byte by byte: a read and a write that interleave, as two sequences of
 bytes. When the bytes read can only be the old or the new ones.
 */
module ByteCopies {
  import opened Delimited

  /** A write of `buf` at `to` and a read of `len` bytes at `from`. */
  datatype Pair = Pair(to: nat, buf: seq<Byte>, from: nat, len: nat)

  ghost predicate OnPage(p: Pair, page: seq<Byte>) {
    p.to + |p.buf| <= |page| && p.from + p.len <= |page|
  }

  /** The page now, how many bytes have been stored, and the bytes loaded. */
  datatype Copies = Copies(page: seq<Byte>, done: nat, out: seq<Byte>)

  /** The copies after a schedule, in which true stands for a store and false for a load; None
      if one of them was not possible. */
  function Interleaved(p: Pair, page: seq<Byte>, schedule: seq<bool>): Option<Copies> {
    if schedule == [] then Some(Copies(page, 0, []))
    else
      var n := |schedule| - 1;
      match Interleaved(p, page, schedule[..n])
      case None => None
      case Some(c) => if schedule[n] then Store(p, c) else Load(p, c)
  }

  function Store(p: Pair, c: Copies): Option<Copies> {
    if c.done < |p.buf| && p.to + c.done < |c.page| then
      Some(Copies(c.page[p.to + c.done := p.buf[c.done]], c.done + 1, c.out))
    else None
  }

  function Load(p: Pair, c: Copies): Option<Copies> {
    if |c.out| < p.len && p.from + |c.out| < |c.page| then
      Some(c.(out := c.out + [c.page[p.from + |c.out|]]))
    else None
  }

  /** The byte at `o` once the first `done` bytes of the write are stored. */
  function ByteAt(p: Pair, page: seq<Byte>, done: nat, o: nat): Byte
    requires o < |page| && done <= |p.buf|
  {
    if p.to <= o < p.to + done then p.buf[o - p.to] else page[o]
  }

  predicate Shared(p: Pair, o: nat) {
    p.to <= o < p.to + |p.buf| && p.from <= o < p.from + p.len
  }

  /** A cell in both ranges whose byte the write changes. */
  predicate Contested(p: Pair, page: seq<Byte>, o: nat) {
    Shared(p, o) && o < |page| && p.buf[o - p.to] != page[o]
  }

  /** `out` is the range that was asked for, with the first `done` bytes of the write in it. */
  ghost predicate Shows(p: Pair, page: seq<Byte>, done: nat, out: seq<Byte>)
    requires OnPage(p, page) && done <= |p.buf|
  {
    |out| == p.len && forall k :: 0 <= k < p.len ==> out[k] == ByteAt(p, page, done, p.from + k)
  }

  ghost predicate OldOrNew(p: Pair, page: seq<Byte>, out: seq<Byte>)
    requires OnPage(p, page)
  {
    |out| == p.len ==> Shows(p, page, 0, out) || Shows(p, page, |p.buf|, out)
  }

  /** However the two copies interleave, a completed read has the old bytes or the new ones. */
  ghost predicate Atomic(p: Pair, page: seq<Byte>)
    requires OnPage(p, page)
  {
    forall schedule | Interleaved(p, page, schedule).Some? ::
      OldOrNew(p, page, Interleaved(p, page, schedule).value.out)
  }

  /** Each byte loaded is the old or the new byte of its cell. */
  ghost predicate HalfWay(p: Pair, page: seq<Byte>, c: Copies)
    requires OnPage(p, page)
  {
    && |c.page| == |page| && c.done <= |p.buf| && |c.out| <= p.len
    && (forall o :: 0 <= o < |page| ==> c.page[o] == ByteAt(p, page, c.done, o))
    && (forall k :: 0 <= k < |c.out| ==> OldOrNewByte(p, page, p.from + k, c.out[k]))
  }

  predicate OldOrNewByte(p: Pair, page: seq<Byte>, o: nat, b: Byte)
    requires o < |page|
  {
    b == page[o] || b == ByteAt(p, page, |p.buf|, o)
  }

  lemma {:induction false} AlwaysHalfWay(p: Pair, page: seq<Byte>, schedule: seq<bool>)
    requires OnPage(p, page) && Interleaved(p, page, schedule).Some?
    ensures HalfWay(p, page, Interleaved(p, page, schedule).value)
  {
    if schedule != [] {
      AlwaysHalfWay(p, page, schedule[..|schedule| - 1]);
    }
  }

  lemma OneContestedIsAtomic(p: Pair, page: seq<Byte>, c: Copies)
    requires OnPage(p, page) && HalfWay(p, page, c)
    requires forall a, b :: Contested(p, page, a) && Contested(p, page, b) ==> a == b
    ensures OldOrNew(p, page, c.out)
  {
    if |c.out| == p.len && !Shows(p, page, 0, c.out) {
      var k :| 0 <= k < p.len && c.out[k] != page[p.from + k];
      assert OldOrNewByte(p, page, p.from + k, c.out[k]) && Contested(p, page, p.from + k);
      forall i | 0 <= i < p.len ensures c.out[i] == ByteAt(p, page, |p.buf|, p.from + i) {
        assert OldOrNewByte(p, page, p.from + i, c.out[i]);
        assert i != k ==> !Contested(p, page, p.from + i);
      }
    }
  }

  // ----- a schedule that mixes

  function Times(b: bool, n: nat): (s: seq<bool>)
    ensures |s| == n
  {
    if n == 0 then [] else Times(b, n - 1) + [b]
  }

  lemma {:induction false} StoresFirst(p: Pair, page: seq<Byte>, n: nat)
    requires OnPage(p, page) && n <= |p.buf|
    ensures var c := Interleaved(p, page, Times(true, n));
            c.Some? && c.value.done == n && c.value.out == []
  {
    if n > 0 {
      StoresFirst(p, page, n - 1);
      AlwaysHalfWay(p, page, Times(true, n - 1));
      assert Times(true, n)[..n - 1] == Times(true, n - 1);
    }
  }

  lemma {:induction false} LoadsAfter(p: Pair, page: seq<Byte>, n: nat, k: nat)
    requires OnPage(p, page) && n <= |p.buf| && k <= p.len
    ensures var c := Interleaved(p, page, Times(true, n) + Times(false, k));
            c.Some? && Loaded(p, page, n, k, c.value)
  {
    var stores := Times(true, n);
    if k == 0 {
      StoresFirst(p, page, n);
      assert stores + [] == stores;
    } else {
      var front := stores + Times(false, k - 1);
      LoadsAfter(p, page, n, k - 1);
      AlwaysHalfWay(p, page, front);
      LoadedOneMore(p, page, n, k - 1, Interleaved(p, page, front).value);
      assert stores + Times(false, k) == front + [false];
      OneLoad(p, page, front);
    }
  }

  ghost predicate Loaded(p: Pair, page: seq<Byte>, n: nat, k: nat, c: Copies)
    requires OnPage(p, page) && n <= |p.buf| && k <= p.len
  {
    c.done == n && |c.out| == k && forall i :: 0 <= i < k ==> c.out[i] == ByteAt(p, page, n, p.from + i)
  }

  lemma LoadedOneMore(p: Pair, page: seq<Byte>, n: nat, k: nat, c: Copies)
    requires OnPage(p, page) && n <= |p.buf| && k < p.len && HalfWay(p, page, c) && Loaded(p, page, n, k, c)
    ensures Load(p, c).Some? && Loaded(p, page, n, k + 1, Load(p, c).value)
  {
  }

  lemma OneLoad(p: Pair, page: seq<Byte>, schedule: seq<bool>)
    requires Interleaved(p, page, schedule).Some?
    ensures Interleaved(p, page, schedule + [false]) == Load(p, Interleaved(p, page, schedule).value)
  {
    assert (schedule + [false])[..|schedule|] == schedule;
  }

  lemma TwoContestedMix(p: Pair, page: seq<Byte>, a: nat, b: nat)
    requires OnPage(p, page) && a < b && Contested(p, page, a) && Contested(p, page, b)
    ensures !Atomic(p, page)
  {
    var n := a + 1 - p.to;
    var schedule := Times(true, n) + Times(false, p.len);
    LoadsAfter(p, page, n, p.len);
    var out := Interleaved(p, page, schedule).value.out;
    assert out[a - p.from] == ByteAt(p, page, n, p.from + (a - p.from)) == p.buf[a - p.to];
    assert out[b - p.from] == ByteAt(p, page, n, p.from + (b - p.from)) == page[b];
    assert !OldOrNew(p, page, out);
  }

  /** A read is atomic against a concurrent write if and only if the write changes at most one
      of the cells that both name. */
  lemma AtomicIffOneContested(p: Pair, page: seq<Byte>)
    requires OnPage(p, page)
    ensures Atomic(p, page) <==> forall a, b :: Contested(p, page, a) && Contested(p, page, b) ==> a == b
  {
    if forall a, b :: Contested(p, page, a) && Contested(p, page, b) ==> a == b {
      forall schedule | Interleaved(p, page, schedule).Some?
        ensures OldOrNew(p, page, Interleaved(p, page, schedule).value.out)
      {
        AlwaysHalfWay(p, page, schedule);
        OneContestedIsAtomic(p, page, Interleaved(p, page, schedule).value);
      }
    } else {
      var a: nat, b: nat :| Contested(p, page, a) && Contested(p, page, b) && a != b;
      TwoContestedMix(p, page, if a < b then a else b, if a < b then b else a);
    }
  }

  /** A page that the write changes in every cell. */
  function Opposite(p: Pair, length: nat): (page: seq<Byte>)
    ensures |page| == length
    ensures forall o :: p.to <= o < p.to + |p.buf| && o < length ==> page[o] != p.buf[o - p.to]
  {
    seq(length, o requires 0 <= o => if p.to <= o < p.to + |p.buf| && p.buf[o - p.to] == 0 then 1 else 0)
  }

  /** Whatever the page contains, a read is atomic against a concurrent write if and only if
      their ranges share at most one cell. */
  lemma AtomicIffOneShared(p: Pair, length: nat)
    requires p.to + |p.buf| <= length && p.from + p.len <= length
    ensures (forall page: seq<Byte> | |page| == length :: Atomic(p, page))
            <==> forall a, b :: Shared(p, a) && Shared(p, b) ==> a == b
  {
    if forall a, b :: Shared(p, a) && Shared(p, b) ==> a == b {
      forall page: seq<Byte> | |page| == length ensures Atomic(p, page) {
        AtomicIffOneContested(p, page);
      }
    } else {
      var a: nat, b: nat :| Shared(p, a) && Shared(p, b) && a != b;
      var page := Opposite(p, length);
      assert Contested(p, page, a) && Contested(p, page, b);
      AtomicIffOneContested(p, page);
    }
  }
}

/**
 The same on the server, where a read and a write of one page hold the lock together: when a
 reply is certain to be the old or the new contents, and a run in which it is neither.
 */
module Tearing {
  import opened Delimited
  import opened Widths
  import opened Messages
  import opened Reader
  import opened Framing
  import opened PageServer
  import opened PageSpec
  import Bytes = ByteCopies

  /** A write and a read of the page `h` that have both been accepted and not yet begun. */
  ghost predicate Meeting(store: Store, w: Task, r: Task, h: U64) {
    && w.CopyIn? && w.handle == h && w.done == 0
    && r.CopyOut? && r.handle == h && r.out == []
    && InRange(store.pages, h, w.offset, |w.buf|) && InRange(store.pages, h, r.offset, r.len)
  }

  function PairOf(w: Task, r: Task): Bytes.Pair
    requires w.CopyIn? && r.CopyOut?
  {
    Bytes.Pair(w.offset, w.buf, r.offset, r.len)
  }

  datatype Copying = Copying(store: Store, w: Task, r: Task)

  /** The two tasks after a schedule of their StoreByte and LoadByte actions. */
  function Scheduled(store: Store, w: Task, r: Task, schedule: seq<bool>): Option<Copying> {
    if schedule == [] then Some(Copying(store, w, r))
    else
      var n := |schedule| - 1;
      match Scheduled(store, w, r, schedule[..n])
      case None => None
      case Some(c) => if schedule[n] then StoreOnce(c) else LoadOnce(c)
  }

  function StoreOnce(c: Copying): Option<Copying> {
    if !CanAct(c.store, c.w, StoreByte) then None
    else
      var (store, w) := Act(c.store, 0, c.w, StoreByte);
      Some(Copying(store, w, c.r))
  }

  function LoadOnce(c: Copying): Option<Copying> {
    if CanAct(c.store, c.r, LoadByte) then Some(c.(r := Act(c.store, 0, c.r, LoadByte).1)) else None
  }

  /** The tasks are where the byte copies are. */
  ghost predicate Mirrors(w: Task, r: Task, h: U64, c: Copying, b: Bytes.Copies)
    requires w.CopyIn? && r.CopyOut?
  {
    && c.w == w.(done := b.done) && c.r == r.(out := b.out) && w.handle == r.handle == h
    && h in c.store.pages && c.store.pages[h] == b.page
  }

  lemma StoreMirrors(w: Task, r: Task, h: U64, c: Copying, b: Bytes.Copies)
    requires w.CopyIn? && r.CopyOut? && Mirrors(w, r, h, c, b)
    ensures StoreOnce(c).Some? <==> Bytes.Store(PairOf(w, r), b).Some?
    ensures StoreOnce(c).Some? ==> Mirrors(w, r, h, StoreOnce(c).value, Bytes.Store(PairOf(w, r), b).value)
  {
  }

  lemma LoadMirrors(w: Task, r: Task, h: U64, c: Copying, b: Bytes.Copies)
    requires w.CopyIn? && r.CopyOut? && Mirrors(w, r, h, c, b)
    ensures LoadOnce(c).Some? <==> Bytes.Load(PairOf(w, r), b).Some?
    ensures LoadOnce(c).Some? ==> Mirrors(w, r, h, LoadOnce(c).value, Bytes.Load(PairOf(w, r), b).value)
  {
  }

  lemma {:induction false} ScheduleMirrors(store: Store, w: Task, r: Task, h: U64, schedule: seq<bool>)
    requires Meeting(store, w, r, h)
    ensures var c, b := Scheduled(store, w, r, schedule), Bytes.Interleaved(PairOf(w, r), store.pages[h], schedule);
            (c.Some? <==> b.Some?) && (c.Some? ==> Mirrors(w, r, h, c.value, b.value))
  {
    if schedule != [] {
      var front := schedule[..|schedule| - 1];
      ScheduleMirrors(store, w, r, h, front);
      var c, b := Scheduled(store, w, r, front), Bytes.Interleaved(PairOf(w, r), store.pages[h], front);
      if c.Some? {
        StoreMirrors(w, r, h, c.value, b.value);
        LoadMirrors(w, r, h, c.value, b.value);
      }
    }
  }

  /** The bytes a completed read replies with, before the write or after it. */
  ghost predicate RepliesOldOrNew(page: seq<Byte>, w: Task, r: Task, c: Copying)
    requires w.CopyIn? && w.offset + |w.buf| <= |page| && r.CopyOut? && r.offset + r.len <= |page|
  {
    c.r.CopyOut? && |c.r.out| == r.len ==>
      || c.r.out == page[r.offset..r.offset + r.len]
      || c.r.out == Splice(page, w.offset, w.buf)[r.offset..r.offset + r.len]
  }

  ghost predicate AtomicRead(store: Store, w: Task, r: Task, h: U64)
    requires Meeting(store, w, r, h)
  {
    forall schedule | Scheduled(store, w, r, schedule).Some? ::
      RepliesOldOrNew(store.pages[h], w, r, Scheduled(store, w, r, schedule).value)
  }

  lemma SameVerdict(page: seq<Byte>, w: Task, r: Task, out: seq<Byte>)
    requires w.CopyIn? && w.offset + |w.buf| <= |page| && r.CopyOut? && r.offset + r.len <= |page|
    requires |out| == r.len
    ensures out == page[r.offset..r.offset + r.len] <==> Bytes.Shows(PairOf(w, r), page, 0, out)
    ensures out == Splice(page, w.offset, w.buf)[r.offset..r.offset + r.len]
            <==> Bytes.Shows(PairOf(w, r), page, |w.buf|, out)
  {
    var before, after := page[r.offset..r.offset + r.len], Splice(page, w.offset, w.buf)[r.offset..r.offset + r.len];
    assert forall k :: 0 <= k < r.len ==> before[k] == Bytes.ByteAt(PairOf(w, r), page, 0, r.offset + k);
    assert forall k :: 0 <= k < r.len ==> after[k] == Bytes.ByteAt(PairOf(w, r), page, |w.buf|, r.offset + k);
  }

  lemma ReadIsAtomicIff(store: Store, w: Task, r: Task, h: U64)
    requires Meeting(store, w, r, h)
    ensures AtomicRead(store, w, r, h) <==> Bytes.Atomic(PairOf(w, r), store.pages[h])
  {
    var p, page := PairOf(w, r), store.pages[h];
    forall schedule
      ensures Scheduled(store, w, r, schedule).Some? <==> Bytes.Interleaved(p, page, schedule).Some?
      ensures Scheduled(store, w, r, schedule).Some? ==>
                (RepliesOldOrNew(page, w, r, Scheduled(store, w, r, schedule).value)
                 <==> Bytes.OldOrNew(p, page, Bytes.Interleaved(p, page, schedule).value.out))
    {
      ScheduleMirrors(store, w, r, h, schedule);
      if Scheduled(store, w, r, schedule).Some? {
        var out := Bytes.Interleaved(p, page, schedule).value.out;
        if |out| == r.len {
          SameVerdict(page, w, r, out);
        }
      }
    }
  }

  /** A read that meets a write of the same page replies with the old or the new contents of
      its range under every interleaving, if and only if the write changes at most one of the
      cells that both name. */
  lemma AtomicIffOneContested(store: Store, w: Task, r: Task, h: U64)
    requires Meeting(store, w, r, h)
    ensures var p, page := PairOf(w, r), store.pages[h];
            AtomicRead(store, w, r, h)
            <==> forall a, b :: Bytes.Contested(p, page, a) && Bytes.Contested(p, page, b) ==> a == b
  {
    ReadIsAtomicIff(store, w, r, h);
    Bytes.AtomicIffOneContested(PairOf(w, r), store.pages[h]);
  }

  function WithPage(store: Store, h: U64, page: seq<Byte>): Store {
    store.(pages := store.pages[h := page])
  }

  /** For all contents of the page, that is, if and only if the ranges share at most one cell. */
  lemma AtomicIffOneShared(store: Store, w: Task, r: Task, h: U64)
    requires Meeting(store, w, r, h)
    ensures (forall page: seq<Byte> | |page| == |store.pages[h]| ::
               Meeting(WithPage(store, h, page), w, r, h) && AtomicRead(WithPage(store, h, page), w, r, h))
            <==> forall a, b :: Bytes.Shared(PairOf(w, r), a) && Bytes.Shared(PairOf(w, r), b) ==> a == b
  {
    var p, length := PairOf(w, r), |store.pages[h]|;
    forall page: seq<Byte> | |page| == length
      ensures Meeting(WithPage(store, h, page), w, r, h)
      ensures AtomicRead(WithPage(store, h, page), w, r, h) <==> Bytes.Atomic(p, page)
    {
      ReadIsAtomicIff(WithPage(store, h, page), w, r, h);
    }
    Bytes.AtomicIffOneShared(p, length);
  }

  // ----- a run with a torn reply

  /** A run, and the state that it ends in. */
  ghost predicate Ends(net: Net, n: nat, steps: seq<Step>, s: State)
    requires NetWellFormed(net)
  {
    After(net, n, steps) == Some(s)
  }

  lemma Then(net: Net, n: nat, steps: seq<Step>, s: State, step: Step)
    requires NetWellFormed(net) && Ends(net, n, steps, s) && Enabled(s, step)
    ensures Ends(net, n, steps + [step], Next(net, s, step))
  {
    assert (steps + [step])[..|steps|] == steps;
  }

  lemma ThenActs(net: Net, n: nat, steps: seq<Step>, s: State, i: nat, a: Action)
    requires NetWellFormed(net) && Ends(net, n, steps, s)
    requires i < |s.conns| && CanAct(s.store, s.conns[i].task, a)
    ensures var (store, t) := Act(s.store, i, s.conns[i].task, a);
            Ends(net, n, steps + [Handles(i, a)], State(store, s.conns[i := s.conns[i].(task := t)]))
  {
    Then(net, n, steps, s, Handles(i, a));
  }

  ghost predicate Sent(net: Net, req: Message) {
    Carries(net.requests, req) && |Frame(net.requests, req)| < TWO32
  }

  /** What arrives when the frame of a request is sent to an idle reader in one piece. */
  lemma FrameArrives(link: Link<Message>, m: Message)
    requires WellFormed(link.reader) && Carries(link, m) && |Frame(link, m)| < TWO32
    ensures var pipe := Drawn(link, Pipe(FRESH, Frame(link, m)), |Frame(link, m)|);
            && CanReceive(Pipe(FRESH, Frame(link, m)), |Frame(link, m)|)
            && pipe.wire == [] && GetState(pipe.ctx) == Done
            && Take(link.reader, pipe.ctx) == Some((m, FRESH))
  {
    var f := Frame(link, m);
    assert Stream(link, [m]) == f by {
      assert [m][1..] == [] && f + [] == f;
    }
    assert LocalAt(link.reader.header, []);
    assert [] + f == f;
    assert Holds(link, Pipe(FRESH, f), [m]);
    ReceiveKeepsHolds(link, Pipe(FRESH, f), [m], |f|);
    var pipe := Drawn(link, Pipe(FRESH, f), |f|);
    HeldMessageIsReady(link, pipe, [m]);
    TakeKeepsHolds(link, pipe, [m]);
    var ctx := Take(link.reader, pipe.ctx).value.1;
    assert [m][1..] == [];
    assert ctx.buffer + [] == ctx.buffer;
  }

  /** An idle connection can be brought to hold any request that its link carries. */
  lemma RequestArrives(net: Net, n: nat, steps: seq<Step>, s: State, i: nat, req: Message) returns (steps': seq<Step>)
    requires NetWellFormed(net) && Ends(net, n, steps, s) && Sent(net, req)
    requires i < |s.conns| && s.conns[i].task.Idle? && s.conns[i].inbound == Pipe(FRESH, [])
    ensures Ends(net, n, steps', State(s.store, s.conns[i := s.conns[i].(task := Waiting(req))]))
  {
    var f, c := Frame(net.requests, req), s.conns[i];
    FrameArrives(net.requests, req);
    Then(net, n, steps, s, ClientWrites(i, f));
    steps' := steps + [ClientWrites(i, f)];
    assert [] + f == f;
    var s1 := State(s.store, s.conns[i := c.(inbound := Pipe(FRESH, f))]);
    Then(net, n, steps', s1, ServerReceives(i, |f|));
    steps' := steps' + [ServerReceives(i, |f|)];
    var drawn := Drawn(net.requests, Pipe(FRESH, f), |f|);
    var s2 := State(s.store, s.conns[i := c.(inbound := drawn)]);
    assert Next(net, s1, ServerReceives(i, |f|)) == s2;
    Then(net, n, steps', s2, ServerTakes(i));
    steps' := steps' + [ServerTakes(i)];
    assert Next(net, s2, ServerTakes(i)).conns == s.conns[i := c.(task := Waiting(req))];
  }

  /** One client's page of zeros, with its connection idle again. */
  lemma PageAllocated(net: Net, h: U64) returns (steps: seq<Step>, s: State)
    requires NetWellFormed(net) && Sent(net, Alloc(2))
    ensures Ends(net, 2, steps, s)
    ensures MappedLength(2) >= 2 && s.store == Store(map[h := seq(MappedLength(2), _ => 0)], {}, None)
    ensures |s.conns| == 2 && s.conns[1] == IDLE_CONN
    ensures s.conns[0].task.Idle? && s.conns[0].inbound == Pipe(FRESH, [])
  {
    MappedLengthExact(2);
    WholePages(PAGE_SIZE);
    assert Ends(net, 2, [], Init(2));
    steps := RequestArrives(net, 2, [], Init(2), 0, Alloc(2));
    s := State(Init(2).store, Init(2).conns[0 := IDLE_CONN.(task := Waiting(Alloc(2)))]);
    ThenActs(net, 2, steps, s, 0, LockExclusive);
    steps := steps + [Handles(0, LockExclusive)];
    s := State(Store(map[], {}, Some(0)), s.conns[0 := IDLE_CONN.(task := Inserting(2))]);
    ThenActs(net, 2, steps, s, 0, Insert(h));
    steps := steps + [Handles(0, Insert(h))];
    var page: seq<Byte> := seq(MappedLength(2), _ => 0);
    s := State(Store(map[h := page], {}, None), s.conns[0 := IDLE_CONN.(task := Replying(OkWithHandle(h), false))]);
    Then(net, 2, steps, s, Replies(0));
    steps, s := steps + [Replies(0)], Next(net, s, Replies(0));
  }

  /** A write and a read of the page, both accepted. */
  lemma BothAccepted(net: Net, h: U64, a: Byte, b: Byte) returns (steps: seq<Step>, s: State)
    requires NetWellFormed(net)
    requires Sent(net, Alloc(2)) && Sent(net, Write(h, 0, [a, b])) && Sent(net, Read(h, 0, 2))
    ensures Ends(net, 2, steps, s) && |s.conns| == 2
    ensures MappedLength(2) >= 2 && s.store.pages == map[h := seq(MappedLength(2), _ => 0)]
    ensures s.conns[0].task == CopyIn(h, 0, [a, b], 0) && s.conns[1].task == CopyOut(h, 0, 2, [])
  {
    steps, s := PageAllocated(net, h);
    var w, r := Write(h, 0, [a, b]), Read(h, 0, 2);
    steps := RequestArrives(net, 2, steps, s, 0, w);
    s := State(s.store, s.conns[0 := s.conns[0].(task := Waiting(w))]);
    steps := RequestArrives(net, 2, steps, s, 1, r);
    s := State(s.store, s.conns[1 := s.conns[1].(task := Waiting(r))]);
    ThenActs(net, 2, steps, s, 0, LockShared);
    steps := steps + [Handles(0, LockShared)];
    assert [a, b][..2] == [a, b];
    s := State(s.store.(readers := {} + {0}), s.conns[0 := s.conns[0].(task := CopyIn(h, 0, [a, b], 0))]);
    ThenActs(net, 2, steps, s, 1, LockShared);
    steps := steps + [Handles(1, LockShared)];
    s := State(s.store.(readers := s.store.readers + {1}), s.conns[1 := s.conns[1].(task := CopyOut(h, 0, 2, []))]);
  }

  /** A run of two connections that ends in a torn reply: one writes two bytes over zeros, the
      other reads both cells, and the answer is the first byte written and the second zero,
      which is neither the old contents nor the new. */
  lemma TornRun(net: Net, h: U64, a: Byte, b: Byte) returns (steps: seq<Step>)
    requires NetWellFormed(net) && a != 0 && b != 0
    requires Sent(net, Alloc(2)) && Sent(net, Write(h, 0, [a, b])) && Sent(net, Read(h, 0, 2))
    ensures After(net, 2, steps).Some?
    ensures var s := After(net, 2, steps).value;
            |s.conns| == 2 && s.conns[1].task == Replying(OkWithBuffer(h, 0, [a, 0]), true)
    ensures [a, 0] != [0, 0] && [a, 0] != [a, b]
  {
    var s;
    steps, s := BothAccepted(net, h, a, b);
    ThenActs(net, 2, steps, s, 0, StoreByte);
    var (store, w) := Act(s.store, 0, s.conns[0].task, StoreByte);
    steps, s := steps + [Handles(0, StoreByte)], State(store, s.conns[0 := s.conns[0].(task := w)]);
    ThenActs(net, 2, steps, s, 1, LoadByte);
    steps := steps + [Handles(1, LoadByte)];
    assert Act(s.store, 1, s.conns[1].task, LoadByte) == (s.store, CopyOut(h, 0, 2, [a])) by {
      assert [] + [a] == [a];
    }
    s := State(s.store, s.conns[1 := s.conns[1].(task := CopyOut(h, 0, 2, [a]))]);
    ThenActs(net, 2, steps, s, 1, LoadByte);
    steps := steps + [Handles(1, LoadByte)];
    assert [a] + [0] == [a, 0];
    s := State(s.store, s.conns[1 := s.conns[1].(task := CopyOut(h, 0, 2, [a, 0]))]);
    ThenActs(net, 2, steps, s, 1, FinishCopy);
    steps := steps + [Handles(1, FinishCopy)];
    assert [a, 0][0] != [0, 0][0] && [a, 0][1] != [a, b][1];
  }
}
