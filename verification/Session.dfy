/**
 What a throughput client says and what it makes of the answers: the list of its requests,
 written out from its buffer, its chunk size and its handle, and the answers with which it
 goes on, whoever gives them.
 */
module Session {
  import opened Delimited
  import opened Widths
  import opened Messages
  import opened PageServer
  import opened Isolation
  import opened Throughput

  // ----- the script

  /** Where the chunk that begins at `at` ends. */
  function Until(data: seq<Byte>, chunk: nat, at: nat): nat {
    if at + chunk < |data| then at + chunk else |data|
  }

  /** A write and a read of every chunk from `at` on. */
  function Exchanges(data: seq<Byte>, chunk: nat, h: U64, at: nat): seq<Message>
    requires |data| < TWO64 && chunk > 0
    decreases if at < |data| then |data| - at else 0
  {
    if at >= |data| then []
    else
      [Write(h, at, data[at..Until(data, chunk, at)]), Read(h, at, Until(data, chunk, at) - at)]
      + Exchanges(data, chunk, h, at + chunk)
  }

  function Script(data: seq<Byte>, chunk: nat, h: U64): seq<Message>
    requires |data| < TWO64 && chunk > 0
  {
    [Alloc(|data|)] + Exchanges(data, chunk, h, 0)
  }

  // ----- the answers

  /** The answer to a read is the chunk that was written. */
  predicate Matches(data: seq<Byte>, chunk: nat, at: nat, reply: Message)
    requires at <= |data|
  {
    reply.OkWithBuffer? && reply.buf == data[at..Until(data, chunk, at)]
  }

  /** One answer to each write, whatever it is, and one to each read, which matches. */
  predicate Passes(data: seq<Byte>, chunk: nat, at: nat, replies: seq<Message>)
    requires chunk > 0
    decreases if at < |data| then |data| - at else 0
  {
    if at >= |data| then replies == []
    else |replies| >= 2 && Matches(data, chunk, at, replies[1]) && Passes(data, chunk, at + chunk, replies[2..])
  }

  /** Some read has an answer that does not match, and those before it do. */
  predicate Fails(data: seq<Byte>, chunk: nat, at: nat, replies: seq<Message>)
    requires chunk > 0
    decreases if at < |data| then |data| - at else 0
  {
    at < |data| && |replies| >= 2 &&
    (!Matches(data, chunk, at, replies[1]) || Fails(data, chunk, at + chunk, replies[2..]))
  }

  // ----- a client in conversation

  /** Sends and receives in turn, until the answers are used up or there is nothing to send: the
      client then, and what it has sent. */
  function Talk(c: Client, replies: seq<Message>): (Client, seq<Message>)
    decreases |replies|
  {
    if replies == [] || Request(c).None? then (c, [])
    else
      var (c', sent) := Talk(Answered(c, replies[0]), replies[1..]);
      (c', [Request(c).value] + sent)
  }

  /** The client after it has sent its request and received an answer. */
  function Answered(c: Client, reply: Message): Client {
    var waiting := c.(pc := Sent(c.pc));
    c.(pc := Received(waiting, reply))
  }

  predicate Settled(c: Client) {
    c.pc.Ready? && c.pc.at >= |c.data|
  }

  lemma AfterWrite(c: Client, reply: Message)
    requires Configured(c) && c.pc.Ready? && c.pc.at < |c.data|
    ensures var h, at := c.pc.handle, c.pc.at;
            && Request(c) == Some(Write(h, at, c.data[at..Until(c.data, c.chunk, at)]))
            && Answered(c, reply) == c.(pc := Written(h, at))
  {
  }

  lemma AfterRead(c: Client, reply: Message)
    requires Configured(c) && c.pc.Written? && c.pc.at < |c.data|
    ensures var h, at := c.pc.handle, c.pc.at;
            && Request(c) == Some(Read(h, at, Until(c.data, c.chunk, at) - at))
            && Answered(c, reply)
               == c.(pc := if Matches(c.data, c.chunk, at, reply) then Ready(h, at + c.chunk) else GaveUp)
  {
  }

  lemma TalkTwice(c: Client, replies: seq<Message>)
    requires |replies| >= 2 && Request(c).Some? && Request(Answered(c, replies[0])).Some?
    ensures var c1 := Answered(c, replies[0]);
            var rest := Talk(Answered(c1, replies[1]), replies[2..]);
            Talk(c, replies) == (rest.0, [Request(c).value, Request(c1).value] + rest.1)
  {
    var c1 := Answered(c, replies[0]);
    var rest := Talk(Answered(c1, replies[1]), replies[2..]);
    assert replies[1..][1..] == replies[2..] && replies[1..][0] == replies[1];
    assert Talk(c1, replies[1..]) == (rest.0, [Request(c1).value] + rest.1);
    assert [Request(c).value] + ([Request(c1).value] + rest.1) == [Request(c).value, Request(c1).value] + rest.1;
  }

  /** What `ReadyClient` says of one conversation. */
  ghost predicate Scripted(c: Client, replies: seq<Message>, c': Client, sent: seq<Message>)
    requires Configured(c) && c.pc.Ready?
  {
    var h, at := c.pc.handle, c.pc.at;
    && c'.data == c.data && c'.chunk == c.chunk
    && sent <= Exchanges(c.data, c.chunk, h, at)
    && (c'.pc.GaveUp? <==> Fails(c.data, c.chunk, at, replies))
    && (Settled(c') ==> c'.pc.handle == h && sent == Exchanges(c.data, c.chunk, h, at))
    && (Settled(c') && |sent| == |replies| <==> Passes(c.data, c.chunk, at, replies))
  }

  lemma ExchangeScripted(c: Client, replies: seq<Message>, c': Client, sent: seq<Message>)
    requires Configured(c) && c.pc.Ready? && c.pc.at < |c.data| && |replies| >= 2
    requires var h, at := c.pc.handle, c.pc.at;
             if Matches(c.data, c.chunk, at, replies[1])
             then Scripted(c.(pc := Ready(h, at + c.chunk)), replies[2..], c', sent)
             else c' == c.(pc := GaveUp) && sent == []
    ensures var h, at := c.pc.handle, c.pc.at;
            var two := [Write(h, at, c.data[at..Until(c.data, c.chunk, at)]),
                        Read(h, at, Until(c.data, c.chunk, at) - at)];
            Scripted(c, replies, c', two + sent)
  {
    var h, at := c.pc.handle, c.pc.at;
    var all, later := Exchanges(c.data, c.chunk, h, at), Exchanges(c.data, c.chunk, h, at + c.chunk);
    assert all[2..] == later;
    assert all == all[..2] + later;
  }

  /** A client that is ready at `at`, given any answers at all: it gives up exactly when some
      read is answered with anything but the chunk written; it gets through exactly when there
      is an answer to everything and every read's answer matches; and what it sends is the
      exchanges from there, as far as it gets. */
  lemma {:induction false} ReadyClient(c: Client, replies: seq<Message>)
    requires Configured(c) && c.pc.Ready?
    ensures Scripted(c, replies, Talk(c, replies).0, Talk(c, replies).1)
    decreases |replies|
  {
    var h, at := c.pc.handle, c.pc.at;
    if at < |c.data| && |replies| >= 2 {
      if Matches(c.data, c.chunk, at, replies[1]) {
        ReadyClient(c.(pc := Ready(h, at + c.chunk)), replies[2..]);
      }
      WholeExchange(c, replies);
    } else if at < |c.data| && |replies| == 1 {
      HalfExchange(c, replies);
    }
  }

  lemma WholeExchange(c: Client, replies: seq<Message>)
    requires Configured(c) && c.pc.Ready? && c.pc.at < |c.data| && |replies| >= 2
    requires Matches(c.data, c.chunk, c.pc.at, replies[1]) ==>
               var c2 := c.(pc := Ready(c.pc.handle, c.pc.at + c.chunk));
               Scripted(c2, replies[2..], Talk(c2, replies[2..]).0, Talk(c2, replies[2..]).1)
    ensures Scripted(c, replies, Talk(c, replies).0, Talk(c, replies).1)
  {
    var c', sent := TalkExchange(c, replies);
    ExchangeScripted(c, replies, c', sent);
  }

  /** The requests of one exchange, and the rest of the conversation. */
  lemma TalkExchange(c: Client, replies: seq<Message>) returns (c': Client, sent: seq<Message>)
    requires Configured(c) && c.pc.Ready? && c.pc.at < |c.data| && |replies| >= 2
    ensures var h, at := c.pc.handle, c.pc.at;
            && (if Matches(c.data, c.chunk, at, replies[1])
                then (c', sent) == Talk(c.(pc := Ready(h, at + c.chunk)), replies[2..])
                else c' == c.(pc := GaveUp) && sent == [])
            && var two := [Write(h, at, c.data[at..Until(c.data, c.chunk, at)]),
                           Read(h, at, Until(c.data, c.chunk, at) - at)];
            Talk(c, replies) == (c', two + sent)
  {
    var h, at := c.pc.handle, c.pc.at;
    AfterWrite(c, replies[0]);
    AfterRead(c.(pc := Written(h, at)), replies[1]);
    TalkTwice(c, replies);
    var c2 := c.(pc := if Matches(c.data, c.chunk, at, replies[1]) then Ready(h, at + c.chunk) else GaveUp);
    c', sent := Talk(c2, replies[2..]).0, Talk(c2, replies[2..]).1;
  }

  lemma HalfExchange(c: Client, replies: seq<Message>)
    requires Configured(c) && c.pc.Ready? && c.pc.at < |c.data| && |replies| == 1
    ensures Scripted(c, replies, Talk(c, replies).0, Talk(c, replies).1)
  {
    AfterWrite(c, replies[0]);
    assert replies[1..] == [];
    assert Talk(c, replies) == (c.(pc := Written(c.pc.handle, c.pc.at)), [Request(c).value] + []);
    assert Exchanges(c.data, c.chunk, c.pc.handle, c.pc.at)[0] == Request(c).value;
  }

  /** From the beginning: it gives up exactly when it is given no handle or some read's answer
      does not match; it gets through exactly when it is given a handle and all answers match,
      and then it has sent the whole script. */
  lemma WholeConversation(c: Client, replies: seq<Message>)
    requires Configured(c) && c.pc.Begin? && replies != []
    ensures var (c', sent) := Talk(c, replies);
            && (c'.pc.GaveUp? <==> !replies[0].OkWithHandle? || Fails(c.data, c.chunk, 0, replies[1..]))
            && (replies[0].OkWithHandle? ==> sent <= Script(c.data, c.chunk, replies[0].handle))
            && (Settled(c') ==> replies[0].OkWithHandle? && c'.pc.handle == replies[0].handle
                                && sent == Script(c.data, c.chunk, c'.pc.handle))
            && (Settled(c') && |sent| == |replies|
                <==> replies[0].OkWithHandle? && Passes(c.data, c.chunk, 0, replies[1..]))
  {
    var c1 := Answered(c, replies[0]);
    assert Talk(c, replies) == (Talk(c1, replies[1..]).0, [Alloc(|c.data|)] + Talk(c1, replies[1..]).1);
    if replies[0].OkWithHandle? {
      ReadyClient(c1, replies[1..]);
    }
  }

  lemma {:induction false} OneMoreAnswer(c: Client, replies: seq<Message>, reply: Message)
    ensures var (c', sent) := Talk(c, replies);
            Talk(c, replies + [reply])
            == if Request(c').None? then (c', sent) else (Answered(c', reply), sent + [Request(c').value])
    decreases |replies|
  {
    if replies == [] {
      assert [] + [reply] == [reply] && [reply][1..] == [];
      if Request(c).Some? {
        var c1, req := Answered(c, reply), Request(c).value;
        assert Talk(c1, []) == (c1, []);
        assert Talk(c, [reply]) == (c1, [req] + []) && [req] + [] == [] + [req];
      }
    } else if Request(c).Some? {
      assert (replies + [reply])[1..] == replies[1..] + [reply];
      var c1, req := Answered(c, replies[0]), Request(c).value;
      OneMoreAnswer(c1, replies[1..], reply);
      var (c', sent) := Talk(c1, replies[1..]);
      assert Request(c').Some? ==> [req] + (sent + [Request(c').value]) == [req] + sent + [Request(c').value];
    }
  }

  // ----- in every run

  /** The client stands where its conversation so far has brought it: between two exchanges,
      waiting for an answer, or finished. */
  predicate Stands(c0: Client, c: Client, H: Hist) {
    var (c', sent) := Talk(c0, H.got);
    || (c == c' && H.sent == sent)
    || (Request(c').Some? && c == c'.(pc := Sent(c'.pc)) && H.sent == sent + [Request(c').value])
    || (Settled(c') && c == c'.(pc := Finished(c'.pc.handle)) && H.sent == sent)
  }

  ghost predicate Each(clients: seq<Client>, now: seq<Client>, hists: seq<Hist>) {
    && |clients| == |now| == |hists|
    && forall i :: 0 <= i < |clients| ==> Stands(clients[i], now[i], hists[i])
  }

  ghost predicate AllStand(clients: seq<Client>, f: Fleet) {
    Each(clients, f.clients, f.w.hists)
  }

  /** Only one client and its history change. */
  lemma OneStands(clients: seq<Client>, f: Fleet, i: nat, c: Client, H: Hist)
    requires AllStand(clients, f) && i < |clients| && Stands(clients[i], c, H)
    ensures Each(clients, f.clients[i := c], f.w.hists[i := H])
  {
  }

  lemma GetStands(c0: Client, c: Client, H: Hist, reply: Message)
    requires Stands(c0, c, H) && Awaits(c.pc) && !Awaits(c0.pc)
    ensures Stands(c0, c.(pc := Received(c, reply)), H.(got := H.got + [reply]))
  {
    OneMoreAnswer(c0, H.got, reply);
    TalkNeverWaits(c0, H.got);
  }

  lemma {:induction false} TalkNeverWaits(c: Client, replies: seq<Message>)
    ensures Awaits(Talk(c, replies).0.pc) ==> Awaits(c.pc)
    decreases |replies|
  {
    if replies != [] && Request(c).Some? {
      TalkNeverWaits(Answered(c, replies[0]), replies[1..]);
    }
  }

  lemma SendStands(net: Net, clients: seq<Client>, f: Fleet, i: nat)
    requires NetWellFormed(net) && AllStand(clients, f) && CanDo(f, Sends(i))
    ensures AllStand(clients, Did(net, f, Sends(i)))
  {
    var c, H := f.clients[i], f.w.hists[i];
    assert Stands(clients[i], c, H);
    var c', H' := c.(pc := Sent(c.pc)), H.(sent := H.sent + [Request(c).value]);
    OneStands(clients, f, i, c', H');
  }

  lemma NextReply(net: Net, f: Fleet, i: nat) returns (reply: Message)
    requires Faithful(net) && FleetInv(net, f) && CanDo(f, Gets(i))
    ensures var c, H, f' := f.clients[i], f.w.hists[i], Did(net, f, Gets(i));
            && f'.clients == f.clients[i := c.(pc := Received(c, reply))]
            && f'.w.hists == f.w.hists[i := H.(got := H.got + [reply])]
  {
    ClientTakesMovesWell(net, f.w, i);
    reply := f.w.hists[i].answered[|f.w.hists[i].got|];
    GotReply(net, f, i, reply);
  }

  lemma GetsStand(net: Net, clients: seq<Client>, f: Fleet, i: nat)
    requires Faithful(net) && FleetInv(net, f) && AllBegin(clients) && AllStand(clients, f) && CanDo(f, Gets(i))
    ensures AllStand(clients, Did(net, f, Gets(i)))
  {
    var c, H := f.clients[i], f.w.hists[i];
    var reply := NextReply(net, f, i);
    assert Stands(clients[i], c, H);
    GetStands(clients[i], c, H, reply);
    OneStands(clients, f, i, c.(pc := Received(c, reply)), H.(got := H.got + [reply]));
  }

  lemma EndStands(net: Net, clients: seq<Client>, f: Fleet, i: nat)
    requires NetWellFormed(net) && AllStand(clients, f) && CanDo(f, Ends(i))
    ensures AllStand(clients, Did(net, f, Ends(i)))
  {
    var c, H := f.clients[i], f.w.hists[i];
    assert Stands(clients[i], c, H);
    OneStands(clients, f, i, c.(pc := Finished(c.pc.handle)), H);
    assert f.w.hists[i := H] == f.w.hists;
  }

  lemma ServeStands(net: Net, clients: seq<Client>, f: Fleet, step: Step)
    requires NetWellFormed(net) && AllStand(clients, f) && CanDo(f, Serves(step))
    ensures AllStand(clients, Did(net, f, Serves(step)))
  {
    var i := step.i;
    var c, H := f.clients[i], f.w.hists[i];
    assert Stands(clients[i], c, H);
    OneStands(clients, f, i, c, Recorded(net, f.w, Does(step)));
    assert f.clients[i := c] == f.clients;
  }

  lemma DeedStands(net: Net, clients: seq<Client>, f: Fleet, a: Deed)
    requires Faithful(net) && FleetInv(net, f) && AllBegin(clients) && AllStand(clients, f) && CanDo(f, a)
    ensures AllStand(clients, Did(net, f, a))
  {
    match a
    case Sends(i) => SendStands(net, clients, f, i);
    case Gets(i) => GetsStand(net, clients, f, i);
    case Ends(i) => EndStands(net, clients, f, i);
    case Serves(step) => ServeStands(net, clients, f, step);
  }

  lemma {:induction false} RunStands(net: Net, clients: seq<Client>, deeds: seq<Deed>)
    requires Faithful(net) && AllBegin(clients) && Run(net, clients, deeds).Some?
    ensures AllStand(clients, Run(net, clients, deeds).value)
  {
    if deeds != [] {
      var front := deeds[..|deeds| - 1];
      RunStands(net, clients, front);
      RunKeepsFleet(net, clients, front);
      DeedStands(net, clients, Run(net, clients, front).value, deeds[|deeds| - 1]);
    }
  }

  /** In every run of any clients, a client that has finished has sent its whole script, to the
      handle it was given, and has received a matching answer to every read. */
  lemma FinishedHasReadBack(net: Net, clients: seq<Client>, deeds: seq<Deed>, i: nat)
    requires Faithful(net) && AllBegin(clients) && Run(net, clients, deeds).Some? && i < |clients|
    ensures var f := Run(net, clients, deeds).value;
            && |f.clients| == |f.w.hists| == |clients|
            && (f.clients[i].pc.Finished? ==>
                  var d, n, h, H := clients[i].data, clients[i].chunk, f.clients[i].pc.handle, f.w.hists[i];
                  && H.sent == Script(d, n, h)
                  && H.got != [] && H.got[0] == OkWithHandle(h) && Passes(d, n, 0, H.got[1..]))
  {
    var f := Run(net, clients, deeds).value;
    RunStands(net, clients, deeds);
    RunKeepsFleet(net, clients, deeds);
    var c, H := f.clients[i], f.w.hists[i];
    assert Stands(clients[i], c, H) && ClientInv(c, H);
    if c.pc.Finished? {
      FinishedStands(clients[i], c, H);
    }
  }

  lemma FinishedStands(c0: Client, c: Client, H: Hist)
    requires Configured(c0) && c0.pc.Begin? && Stands(c0, c, H) && c.pc.Finished? && |H.sent| == |H.got|
    ensures H.sent == Script(c0.data, c0.chunk, c.pc.handle)
    ensures H.got != [] && H.got[0] == OkWithHandle(c.pc.handle) && Passes(c0.data, c0.chunk, 0, H.got[1..])
  {
    NeverFinishesTalking(c0, H.got);
    if H.got != [] {
      WholeConversation(c0, H.got);
    }
  }

  lemma {:induction false} NeverFinishesTalking(c: Client, replies: seq<Message>)
    ensures Talk(c, replies).0.pc.Finished? ==> c.pc.Finished?
    decreases |replies|
  {
    if replies != [] && Request(c).Some? {
      NeverFinishesTalking(Answered(c, replies[0]), replies[1..]);
    }
  }
}
