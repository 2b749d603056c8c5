/**
 The whole service on bolt's own wire format.
 */
module Service {
  import opened Delimited
  import opened Widths
  import opened Wire
  import opened Messages
  import opened PageServer
  import opened Isolation
  import opened Throughput
  import opened Completion
  import Bolt
  import Tearing

  function BoltNet(): (net: Net)
    ensures NetWellFormed(net)
  {
    Bolt.LinkWellFormed(Requests);
    Bolt.LinkWellFormed(Responses);
    Net(Bolt.LinkFor(Requests), Bolt.LinkFor(Responses))
  }

  lemma BodySize(m: Message)
    ensures |Body(m)| <= 36 + if m.Write? || m.OkWithBuffer? then |m.buf| else if m.Err? then |m.message| else 0
  {
    var ts := Fields(m);
    EncodingSize(ts);
    assert PayloadTotal(ts) == if m.Write? || m.OkWithBuffer? then |m.buf| else if m.Err? then |m.message| else 0 by {
      assert PayloadTotal(ts) == |Payload(ts[0])| + PayloadTotal(ts[1..]);
      assert PayloadTotal(ts[1..]) == |Payload(ts[1])| + PayloadTotal(ts[1..][1..]);
      if |ts| > 2 {
        assert PayloadTotal(ts[1..][1..]) == |Payload(ts[2])| + PayloadTotal(ts[1..][1..][1..]);
      }
    }
  }

  /** bolt frames carry everything that the isolation and completion theorems ask of a network. */
  lemma BoltNetIsFaithful()
    ensures Faithful(BoltNet())
  {
    forall m | SmallRequest(m) ensures Framing.Carries(BoltNet().requests, m) {
      BodySize(m);
      Bolt.SendableIsCarried(Requests, m);
    }
    forall m | SmallResponse(m) ensures Framing.Carries(BoltNet().responses, m) {
      BodySize(m);
      Bolt.SendableIsCarried(Responses, m);
    }
  }

  /** End to end, on bytes: every run of any fewer than 2^64 throughput clients can be
      continued until each has finished with its buffer on its own page, and a run that can go
      no further has got there. */
  lemma ThroughputSucceeds(clients: seq<Client>, deeds: seq<Deed>) returns (more: seq<Deed>)
    requires AllBegin(clients) && |clients| < TWO64 && Run(BoltNet(), clients, deeds).Some?
    ensures Run(BoltNet(), clients, deeds + more).Some?
    ensures Succeeded(clients, Run(BoltNet(), clients, deeds + more).value)
    ensures (forall a :: !CanDo(Run(BoltNet(), clients, deeds).value, a)) ==>
              Succeeded(clients, Run(BoltNet(), clients, deeds).value)
  {
    BoltNetIsFaithful();
    more := EveryRunCanSucceed(BoltNet(), clients, deeds);
    if forall a :: !CanDo(Run(BoltNet(), clients, deeds).value, a) {
      StandstillIsSuccess(BoltNet(), clients, deeds);
    }
  }

  /** And no run goes on for ever. */
  lemma ThroughputEnds(clients: seq<Client>, plan: nat -> Deed) returns (m: nat)
    requires AllBegin(clients)
    ensures Run(BoltNet(), clients, Prefix(plan, m)).None?
  {
    BoltNetIsFaithful();
    m := EveryRunEnds(BoltNet(), clients, plan, 0);
  }

  lemma RequestIsSent(req: Message)
    requires SmallRequest(req) && (req.Write? ==> |req.buf| < 4096)
    ensures Tearing.Sent(BoltNet(), req)
  {
    BoltNetIsFaithful();
    BodySize(req);
    Bolt.HeaderSize(HeaderOf(req));
  }

  /** On bolt's own bytes, a CALL header ends the connection whatever body follows, and without a
      reply. */
  lemma CallEndsConnection(s: State, i: nat, m: Message)
    requires i < |s.conns| && m.Invoke? && Enabled(s, ServerTakes(i))
    requires s.conns[i].inbound.ctx.header == Some(HeaderOf(m))
    ensures Next(BoltNet(), s, ServerTakes(i)) == State(s.store, s.conns[i := s.conns[i].(task := Ended)])
  {
    InvokeIsRefused(m, s.conns[i].inbound.ctx.buffer);
    RefusalEnds(BoltNet(), s, i);
  }

  /** A torn reply on bolt's own bytes: two bytes are written over zeros while both cells are
      read, and the reply has the first of them and a zero, neither the old nor the new. */
  lemma TornReply(h: U64, a: Byte, b: Byte) returns (steps: seq<Step>)
    requires a != 0 && b != 0
    ensures After(BoltNet(), 2, steps).Some?
    ensures var s := After(BoltNet(), 2, steps).value;
            |s.conns| == 2 && s.conns[1].task == Replying(OkWithBuffer(h, 0, [a, 0]), true)
    ensures [a, 0] != [0, 0] && [a, 0] != [a, b]
  {
    RequestIsSent(Alloc(2));
    RequestIsSent(Write(h, 0, [a, b]));
    RequestIsSent(Read(h, 0, 2));
    steps := Tearing.TornRun(BoltNet(), h, a, b);
  }
}
