/**
 bolt's own frames on the generic reader: they are carried faithfully when the length field
 is right, and exactly the frames that understate their body are not.
 */
module Bolt {
  import opened Delimited
  import opened Widths
  import opened Wire
  import opened Messages
  import opened Reader
  import opened Chunking
  import Framing

  type Link = Framing.Link<Message>

  function LinkFor(side: Side): Link {
    Framing.Link(
      Protocol(DecodeHeader, (h: Header, s) => DecodeBody(side, h.kind, s)),
      HeaderOf, m => EncodeHeader(HeaderOf(m)), Body)
  }

  lemma LinkWellFormed(side: Side)
    ensures WellFormed(LinkFor(side).reader)
  {
    var p := LinkFor(side).reader;
    forall s ensures LocalAt(p.header, s) {
      forall u | p.header(s).Some? && s[..p.header(s).value.1] <= u ensures p.header(u) == p.header(s) {
        HeaderLocal(s, u);
      }
    }
    forall h, s ensures BodyLocalAt(p, h, s) {
      forall u | p.body(h, s).Some? && s[..p.body(h, s).value.1] <= u ensures p.body(h, u) == p.body(h, s) {
        BodyLocal(side, h.kind, s, u);
      }
    }
  }

  lemma HeaderRead(h: Header, s: seq<Byte>)
    requires |h.kind| < TWO32 && h.length < TWO32
    ensures EncodeHeader(h) != []
    ensures EncodeHeader(h) <= s ==> DecodeHeader(s) == Some((h, |EncodeHeader(h)|))
    ensures s < EncodeHeader(h) ==> DecodeHeader(s) == None
  {
    var e := EncodeHeader(h);
    HeaderRoundTrip(h, []);
    assert e + [] == e;
    if e <= s {
      assert s == e + s[|e|..];
      HeaderRoundTrip(h, s[|e|..]);
    } else if s < e {
      assert s == e[..|s|];
      HeaderPrefixFails(h, |s|);
    }
  }

  lemma BodyRead(side: Side, m: Message, s: seq<Byte>)
    requires Encodable(side, m)
    ensures Body(m) <= s ==> DecodeBody(side, Kind(m), s) == Some((m, |Body(m)|))
  {
    if Body(m) <= s {
      var rest := s[|Body(m)|..];
      assert s == Body(m) + rest;
      BodyRoundTrip(side, m, rest);
    }
  }

  lemma HeaderSize(h: Header)
    requires |h.kind| < 100
    ensures 0 < |EncodeHeader(h)| < 128
  {
    var ts := [Arr(2), Str(h.kind), UInt(h.length)];
    EncodingSize(ts);
    assert ts[1..] == [Str(h.kind), UInt(h.length)] && ts[1..][1..] == [UInt(h.length)];
    assert PayloadTotal([UInt(h.length)]) == 0;
  }

  lemma SendableIsCarried(side: Side, m: Message)
    requires Sendable(side, m)
    ensures Framing.Carries(LinkFor(side), m)
  {
    var link := LinkFor(side);
    HeaderSize(HeaderOf(m));
    forall s ensures Framing.ReadsFrame(link, m, s) {
      HeaderRead(HeaderOf(m), s);
      BodyRead(side, m, s);
    }
  }

  /** Any messages with sound lengths, sent as frames and cut up in any way, are read back in
      order; a stream that stops early yields the messages that arrived whole. */
  lemma MessagesRoundTrip(side: Side, ms: seq<Message>, j: nat, chunks: seq<seq<Byte>>, broken: bool, bound: nat)
    requires forall i :: 0 <= i < |ms| ==> Sendable(side, ms[i]) && |Framing.Frame(LinkFor(side), ms[i])| <= bound
    requires var s := Framing.Stream(LinkFor(side), ms);
             j <= |s| && Chunks(chunks, s[..j])
    requires Fit(FRESH, chunks, bound)
    ensures WellFormed(LinkFor(side).reader)
    ensures ReadAll(LinkFor(side).reader, FRESH, chunks, broken)
         == (ms[..Framing.WholeFrames(LinkFor(side), ms, j)], if broken then SocketError else Disconnected)
  {
    LinkWellFormed(side);
    forall i | 0 <= i < |ms|
      ensures Framing.Carries(LinkFor(side), ms[i]) && |Framing.Frame(LinkFor(side), ms[i])| <= bound
    {
      SendableIsCarried(side, ms[i]);
    }
    Framing.DeliveredInOrder(LinkFor(side), ms, j, chunks, broken, bound);
  }

  /** A frame of one body is honest exactly when its length field does not understate the
      body. By ReadAlikeIffHonest, a frame that does is read or refused depending on chunking. */
  lemma HonestIffNotUnderstated(side: Side, m: Message, length: nat)
    requires Encodable(side, m) && length < TWO32
    ensures WellFormed(LinkFor(side).reader)
    ensures Honest(LinkFor(side).reader, None, EncodeHeader(Header(Kind(m), length)) + Body(m), 0)
            <==> length >= |Body(m)|
  {
    LinkWellFormed(side);
    var h := Header(Kind(m), length);
    var s := EncodeHeader(h) + Body(m);
    HeaderRead(h, s);
    BodyRead(side, m, Body(m));
    Framing.LoneFrameHonestIffCovered(LinkFor(side).reader, s, h, |EncodeHeader(h)|, Body(m));
  }

  /** `s` is dishonest: arriving in one piece it is read as the message `m`, and cut in two
      after `cut` bytes it is refused. */
  ghost predicate DependsOnChunks<M(!new)>(p: Protocol<M>, s: seq<Byte>, cut: nat, m: M, broken: bool)
    requires WellFormed(p)
  {
    && 0 < cut < |s| && !Honest(p, None, s, 0)
    && ReadAll(p, FRESH, [s], broken) == ([m], if broken then SocketError else Disconnected)
    && ReadAll(p, FRESH, [s[..cut], s[cut..]], broken) == ([], BadFormat)
  }

  /** The writer itself sends such a frame when a body reaches 2^32 bytes: its reading depends
      on whether it is cut after its header and the announced number of bytes. */
  lemma OversizedFrameDependsOnChunks(side: Side, m: Message, broken: bool)
    requires Encodable(side, m) && |Body(m)| >= TWO32
    ensures WellFormed(LinkFor(side).reader)
    ensures DependsOnChunks(LinkFor(side).reader, EncodeHeader(HeaderOf(m)) + Body(m),
                            |EncodeHeader(HeaderOf(m))| + |Body(m)| % TWO32, m, broken)
  {
    var h := HeaderOf(m);
    LinkWellFormed(side);
    HeaderRead(h, EncodeHeader(h) + Body(m));
    BodyRead(side, m, Body(m));
    UnderstatedFrame(LinkFor(side).reader, h, EncodeHeader(h), Body(m), m, broken);
  }

  lemma UnderstatedFrame<M(!new)>(p: Protocol<M>, h: Header, e: seq<Byte>, b: seq<Byte>, m: M, broken: bool)
    requires WellFormed(p) && p.header(e + b) == Some((h, |e|)) && p.body(h, b) == Some((m, |b|))
    requires h.length == |b| % TWO32 && |b| >= TWO32
    ensures DependsOnChunks(p, e + b, |e| + h.length, m, broken)
  {
    assert (e + b)[|e|..] == b;
    Framing.LoneFrameHonestIffCovered(p, e + b, h, |e|, b);
    FrameInOnePiece(p, h, e, b, m, broken);
    UnderstatedFrameCut(p, h, e, b, m, broken);
  }

  lemma FrameInOnePiece<M(!new)>(p: Protocol<M>, h: Header, e: seq<Byte>, b: seq<Byte>, m: M, broken: bool)
    requires WellFormed(p) && p.header(e + b) == Some((h, |e|)) && p.body(h, b) == Some((m, |b|))
    requires h.length == |b| % TWO32
    ensures ReadAll(p, FRESH, [e + b], broken) == ([m], if broken then SocketError else Disconnected)
  {
    var s := e + b;
    assert FRESH.buffer + s == s && s[|e|..] == b;
    assert Receive(p, FRESH, s) == Ctx(b, Some(h));
    assert b[|b|..] == [];
    assert NextMessage(p, Ctx(b, Some(h)), [], broken) == (Delivered(m), FRESH, []);
    assert NextMessage(p, FRESH, [s], broken) == (Delivered(m), FRESH, []);
    assert ReadAll(p, FRESH, [], broken) == ([], if broken then SocketError else Disconnected) && [m] + [] == [m];
  }

  lemma UnderstatedFrameCut<M(!new)>(p: Protocol<M>, h: Header, e: seq<Byte>, b: seq<Byte>, m: M, broken: bool)
    requires WellFormed(p) && p.header(e + b) == Some((h, |e|)) && p.body(h, b) == Some((m, |b|))
    requires h.length < |b| && h.length < TWO32 && !Honest(p, None, e + b, 0)
    ensures var s, cut := e + b, |e| + h.length;
            0 < cut && ReadAll(p, FRESH, [s[..cut], s[cut..]], broken) == ([], BadFormat)
  {
    var s := e + b;
    assert LocalAt(p.header, s) && s[|e|..] == b;
    assert Cut(p, None, s, 0) == |e| + h.length;
    CutStreamRefused(p, s, broken);
    assert LocalAt(p.header, []);
    assert b[|b|..] == [] && Parse(p, None, []) == ([], false);
    assert Parse(p, None, s).0 == [m];
  }
}
