/**
 Self-delimiting codes: what one decoder needs so that a row of items can be decoded one
 after another, whatever follows them.
 */
module Delimited {
  type Byte = b: int | 0 <= b < 256

  datatype Option<+T> = None | Some(value: T)

  /** A decoder yields an item and the number of bytes it took. */
  type Decoder<!T> = seq<Byte> -> Option<(T, nat)>

  /** A successful decode takes at least one byte and looks only at the bytes it takes, so it
      succeeds alike on every string that starts with them. */
  ghost predicate Local<T(!new)>(dec: Decoder<T>) {
    forall s :: LocalAt(dec, s)
  }

  ghost predicate LocalAt<T(!new)>(dec: Decoder<T>, s: seq<Byte>) {
    dec(s).Some? ==>
      && 1 <= dec(s).value.1 <= |s|
      && forall u :: s[..dec(s).value.1] <= u ==> dec(u) == dec(s)
  }

  /** Decoding `t` followed by anything gives `t` back and stops where its encoding ends. */
  ghost predicate Inverts<T(!new)>(enc: T -> seq<Byte>, dec: Decoder<T>, t: T) {
    forall rest :: dec(enc(t) + rest) == Some((t, |enc(t)|))
  }

  function Concat<T>(enc: T -> seq<Byte>, ts: seq<T>): seq<Byte> {
    if ts == [] then [] else enc(ts[0]) + Concat(enc, ts[1..])
  }

  function DecodeMany<T>(dec: Decoder<T>, s: seq<Byte>, k: nat): (r: Option<(seq<T>, nat)>)
    ensures r.Some? ==> |r.value.0| == k && r.value.1 <= |s|
    decreases k
  {
    if k == 0 then Some(([], 0))
    else match dec(s)
      case None => None
      case Some((t, n)) =>
        if |s| < n then None
        else match DecodeMany(dec, s[n..], k - 1)
          case None => None
          case Some((ts, m)) => Some(([t] + ts, n + m))
  }

  lemma {:induction false} ManyLocal<T(!new)>(dec: Decoder<T>, s: seq<Byte>, u: seq<Byte>, k: nat)
    requires Local(dec)
    requires DecodeMany(dec, s, k).Some?
    requires s[..DecodeMany(dec, s, k).value.1] <= u
    ensures k <= DecodeMany(dec, s, k).value.1
    ensures DecodeMany(dec, u, k) == DecodeMany(dec, s, k)
    decreases k
  {
    if k > 0 {
      var n := RestIsPrefix(dec, s, u, k);
      ManyLocal(dec, s[n..], u[n..], k - 1);
      SameFirst(dec, s, u, k, n);
    }
  }

  /** The first item is decoded from both alike, and leaves the same situation behind. */
  lemma RestIsPrefix<T(!new)>(dec: Decoder<T>, s: seq<Byte>, u: seq<Byte>, k: nat) returns (n: nat)
    requires Local(dec) && k > 0
    requires DecodeMany(dec, s, k).Some? && s[..DecodeMany(dec, s, k).value.1] <= u
    ensures dec(s).Some? && dec(u) == dec(s) && 1 <= n == dec(s).value.1 <= |s| && n <= |u|
    ensures DecodeMany(dec, s[n..], k - 1).Some? && s[n..][..DecodeMany(dec, s[n..], k - 1).value.1] <= u[n..]
    ensures DecodeMany(dec, s, k).value.1 == n + DecodeMany(dec, s[n..], k - 1).value.1
  {
    var m;
    n, m := ManyStep(dec, s, k);
    PrefixParts(s, u, n, m);
    LocalApplies(dec, s, u);
  }

  lemma ManyStep<T(!new)>(dec: Decoder<T>, s: seq<Byte>, k: nat) returns (n: nat, m: nat)
    requires k > 0 && DecodeMany(dec, s, k).Some?
    ensures dec(s).Some? && n == dec(s).value.1 && n <= |s| && DecodeMany(dec, s[n..], k - 1).Some?
    ensures m == DecodeMany(dec, s[n..], k - 1).value.1 && DecodeMany(dec, s, k).value.1 == n + m
  {
    n := dec(s).value.1;
    m := DecodeMany(dec, s[n..], k - 1).value.1;
  }

  lemma SameFirst<T(!new)>(dec: Decoder<T>, s: seq<Byte>, u: seq<Byte>, k: nat, n: nat)
    requires k > 0 && dec(s).Some? && dec(u) == dec(s) && n == dec(s).value.1 && n <= |s| && n <= |u|
    requires DecodeMany(dec, u[n..], k - 1) == DecodeMany(dec, s[n..], k - 1)
    ensures DecodeMany(dec, u, k) == DecodeMany(dec, s, k)
  {
  }

  lemma LocalApplies<T(!new)>(dec: Decoder<T>, s: seq<Byte>, u: seq<Byte>)
    requires Local(dec) && dec(s).Some? && dec(s).value.1 <= |s| && s[..dec(s).value.1] <= u
    ensures 1 <= dec(s).value.1 && dec(u) == dec(s)
  {
    assert LocalAt(dec, s);
  }

  lemma PrefixParts(s: seq<Byte>, u: seq<Byte>, n: nat, m: nat)
    requires n + m <= |s| && s[..n + m] <= u
    ensures s[..n] <= u && s[n..][..m] <= u[n..]
  {
    assert u[..n + m] == s[..n + m];
    assert s[..n] == s[..n + m][..n] == u[..n];
    assert s[n..][..m] == s[..n + m][n..] == u[..n + m][n..] == u[n..][..m];
  }

  lemma {:induction false} ManyRoundTrip<T(!new)>(enc: T -> seq<Byte>, dec: Decoder<T>, ts: seq<T>, rest: seq<Byte>)
    requires forall t :: t in ts ==> Inverts(enc, dec, t)
    ensures DecodeMany(dec, Concat(enc, ts) + rest, |ts|) == Some((ts, |Concat(enc, ts)|))
  {
    if ts != [] {
      var head, tail := enc(ts[0]), Concat(enc, ts[1..]) + rest;
      assert Inverts(enc, dec, ts[0]);
      assert Concat(enc, ts) + rest == head + tail;
      ManyRoundTrip(enc, dec, ts[1..], rest);
      assert (head + tail)[|head|..] == tail;
      FirstThenMany(dec, head + tail, |head|, ts[0], ts[1..], |Concat(enc, ts[1..])|, |ts|);
      assert [ts[0]] + ts[1..] == ts;
    }
  }

  lemma FirstThenMany<T(!new)>(dec: Decoder<T>, s: seq<Byte>, n: nat, t: T, ts: seq<T>, m: nat, k: nat)
    requires k > 0 && n <= |s| && dec(s) == Some((t, n)) && DecodeMany(dec, s[n..], k - 1) == Some((ts, m))
    ensures DecodeMany(dec, s, k) == Some(([t] + ts, n + m))
  {
  }
}

/**
 The part of the MessagePack format that bolt messages use: unsigned integers, strings,
 binary blobs and array headers. A struct is an array header followed by its fields, so
 every bolt header and body is a fixed number of tokens.
 */
module Wire {
  import opened Delimited
  import opened Widths
  import Bits

  // ----- big-endian numbers

  function Pow256(k: nat): (p: nat)
    ensures p > 0
  {
    if k == 0 then 1 else 256 * Pow256(k - 1)
  }

  function ToBigEndian(n: nat, k: nat): (s: seq<Byte>)
    ensures |s| == k
  {
    if k == 0 then [] else ToBigEndian(n / 256, k - 1) + [n % 256]
  }

  function FromBigEndian(s: seq<Byte>): nat {
    if s == [] then 0 else FromBigEndian(s[..|s| - 1]) * 256 + s[|s| - 1]
  }

  lemma {:induction false} FromBigEndianBound(s: seq<Byte>)
    ensures FromBigEndian(s) < Pow256(|s|)
  {
    if s != [] {
      FromBigEndianBound(s[..|s| - 1]);
    }
  }

  lemma {:induction false} BigEndianRoundTrip(n: nat, k: nat)
    requires n < Pow256(k)
    ensures FromBigEndian(ToBigEndian(n, k)) == n
  {
    if k > 0 {
      BigEndianRoundTrip(n / 256, k - 1);
      var s := ToBigEndian(n, k);
      assert s[..|s| - 1] == ToBigEndian(n / 256, k - 1);
    }
  }

  /** The most significant byte comes first. */
  lemma {:induction false} BigEndianDigit(n: nat, k: nat, i: nat)
    requires i < k
    ensures ToBigEndian(n, k)[i] == n / Pow256(k - 1 - i) % 256
  {
    if i < k - 1 {
      BigEndianDigit(n / 256, k - 1, i);
      Bits.DivisionCompose(n, 256, Pow256(k - 2 - i));
    }
  }

  // ----- tokens

  datatype Token =
    | UInt(n: nat)
    | Str(text: seq<Byte>)
    | Bin(data: seq<Byte>)
    | Arr(len: nat)

  datatype Family = UIntFamily | StrFamily | BinFamily | ArrFamily

  function FamilyOf(t: Token): Family {
    match t
    case UInt(_) => UIntFamily
    case Str(_) => StrFamily
    case Bin(_) => BinFamily
    case Arr(_) => ArrFamily
  }

  /** The number a token's head carries: the value itself, or a length. */
  function Number(t: Token): nat {
    match t
    case UInt(n) => n
    case Str(text) => |text|
    case Bin(data) => |data|
    case Arr(len) => len
  }

  function Payload(t: Token): seq<Byte> {
    match t
    case UInt(_) => []
    case Str(text) => text
    case Bin(data) => data
    case Arr(_) => []
  }

  /** Integers have at most 64 bits and every length at most 32. */
  predicate Representable(t: Token) {
    Number(t) < if t.UInt? then TWO64 else TWO32
  }

  /** What a first byte announces: a family and either a small number held in the byte
      itself (width 0) or the number of big-endian bytes that follow. */
  datatype Lead = Lead(family: Family, width: nat, small: nat)

  function ReadLead(tag: Byte): Option<Lead> {
    if tag < 0x80 then Some(Lead(UIntFamily, 0, tag))
    else if 0x90 <= tag < 0xa0 then Some(Lead(ArrFamily, 0, tag - 0x90))
    else if 0xa0 <= tag < 0xc0 then Some(Lead(StrFamily, 0, tag - 0xa0))
    else match tag
      case 0xc4 => Some(Lead(BinFamily, 1, 0))
      case 0xc5 => Some(Lead(BinFamily, 2, 0))
      case 0xc6 => Some(Lead(BinFamily, 4, 0))
      case 0xcc => Some(Lead(UIntFamily, 1, 0))
      case 0xcd => Some(Lead(UIntFamily, 2, 0))
      case 0xce => Some(Lead(UIntFamily, 4, 0))
      case 0xcf => Some(Lead(UIntFamily, 8, 0))
      case 0xd9 => Some(Lead(StrFamily, 1, 0))
      case 0xda => Some(Lead(StrFamily, 2, 0))
      case 0xdb => Some(Lead(StrFamily, 4, 0))
      case 0xdc => Some(Lead(ArrFamily, 2, 0))
      case 0xdd => Some(Lead(ArrFamily, 4, 0))
      case _ => None
  }

  /** The shortest head for a number: its tag and the width of the number that follows. */
  function ShortestLead(family: Family, n: nat): (Byte, nat) {
    match family
    case UIntFamily =>
      if n < 0x80 then (n, 0)
      else if n < 0x100 then (0xcc, 1)
      else if n < 0x1_0000 then (0xcd, 2)
      else if n < TWO32 then (0xce, 4)
      else (0xcf, 8)
    case StrFamily =>
      if n < 0x20 then (0xa0 + n, 0)
      else if n < 0x100 then (0xd9, 1)
      else if n < 0x1_0000 then (0xda, 2)
      else (0xdb, 4)
    case BinFamily =>
      if n < 0x100 then (0xc4, 1)
      else if n < 0x1_0000 then (0xc5, 2)
      else (0xc6, 4)
    case ArrFamily =>
      if n < 0x10 then (0x90 + n, 0)
      else if n < 0x1_0000 then (0xdc, 2)
      else (0xdd, 4)
  }

  function EncodeToken(t: Token): seq<Byte> {
    var (tag, width) := ShortestLead(FamilyOf(t), Number(t));
    [tag] + ToBigEndian(Number(t), width) + Payload(t)
  }

  function PayloadLength(family: Family, n: nat): nat {
    if family == StrFamily || family == BinFamily then n else 0
  }

  function MakeToken(family: Family, n: nat, payload: seq<Byte>): Token {
    match family
    case UIntFamily => UInt(n)
    case StrFamily => Str(payload)
    case BinFamily => Bin(payload)
    case ArrFamily => Arr(n)
  }

  /** The first token of `s` and the number of bytes it takes, or None when `s` ends too
      early or starts with a byte of another format. Longer-than-needed heads are accepted. */
  function DecodeToken(s: seq<Byte>): (r: Option<(Token, nat)>)
    ensures r.Some? ==> 1 <= r.value.1 <= |s|
  {
    if s == [] then None
    else match ReadLead(s[0])
      case None => None
      case Some(lead) =>
        if |s| < 1 + lead.width then None
        else
          var n := if lead.width == 0 then lead.small else FromBigEndian(s[1..1 + lead.width]);
          var start := 1 + lead.width;
          var end := start + PayloadLength(lead.family, n);
          if |s| < end then None
          else Some((MakeToken(lead.family, n, s[start..end]), end))
  }

  // ----- self-delimitation

  lemma TokenLocal(s: seq<Byte>, u: seq<Byte>)
    requires DecodeToken(s).Some?
    requires s[..DecodeToken(s).value.1] <= u
    ensures DecodeToken(u) == DecodeToken(s)
  {
    var n := DecodeToken(s).value.1;
    assert u[..n] == s[..n];
    var lead := ReadLead(s[0]).value;
    assert u[0] == u[..n][0] == s[0];
    assert s[1..1 + lead.width] == s[..n][1..1 + lead.width] == u[1..1 + lead.width];
    assert s[1 + lead.width..n] == s[..n][1 + lead.width..] == u[1 + lead.width..n];
  }

  /** Nothing but unsigned integers, strings, blobs and arrays is accepted: not nil, booleans,
      floats, signed integers, maps or extensions. */
  lemma OtherFormatsRefused(s: seq<Byte>)
    requires s != []
    ensures 0x80 <= s[0] < 0x90 || 0xc0 <= s[0] < 0xc4 || 0xc7 <= s[0] < 0xcc || 0xd0 <= s[0] < 0xd9 || 0xde <= s[0] ==>
              DecodeToken(s).None?
  {
  }

  lemma DecodeTokenLocal()
    ensures Local(DecodeToken)
  {
    forall s ensures LocalAt(DecodeToken, s) {
      forall u | DecodeToken(s).Some? && s[..DecodeToken(s).value.1] <= u
        ensures DecodeToken(u) == DecodeToken(s)
      {
        TokenLocal(s, u);
      }
    }
  }

  lemma Powers()
    ensures Pow256(1) == 0x100 && Pow256(2) == 0x1_0000
    ensures Pow256(4) == TWO32 && Pow256(8) == TWO64
  {
    assert Pow256(2) == 256 * Pow256(1);
    assert Pow256(4) == 256 * Pow256(3) == 256 * (256 * Pow256(2));
    assert Pow256(6) == 256 * Pow256(5) == 256 * (256 * Pow256(4));
    assert Pow256(8) == 256 * Pow256(7) == 256 * (256 * Pow256(6));
  }

  /** The head written for a number announces that number and leaves room for it. */
  lemma LeadRoundTrip(family: Family, n: nat)
    requires n < if family == UIntFamily then TWO64 else TWO32
    ensures var (tag, width) := ShortestLead(family, n);
            var lead := ReadLead(tag);
            && lead.Some?
            && lead.value.family == family
            && lead.value.width == width
            && (if width == 0 then lead.value.small == n else n < Pow256(width))
  {
    Powers();
  }

  lemma HeadedPayloadDecodes(
    tag: Byte, lead: Lead, number: seq<Byte>, n: nat, payload: seq<Byte>, rest: seq<Byte>)
    requires ReadLead(tag) == Some(lead) && |number| == lead.width
    requires n == if lead.width == 0 then lead.small else FromBigEndian(number)
    requires |payload| == PayloadLength(lead.family, n)
    ensures DecodeToken([tag] + number + payload + rest)
         == Some((MakeToken(lead.family, n, payload), 1 + |number| + |payload|))
  {
    TokenParts(tag, number, payload, rest);
    DecodesTo([tag] + number + payload + rest, lead, n, payload);
  }

  lemma DecodesTo(s: seq<Byte>, lead: Lead, n: nat, payload: seq<Byte>)
    requires s != [] && ReadLead(s[0]) == Some(lead) && |payload| == PayloadLength(lead.family, n)
    requires 1 + lead.width + |payload| <= |s|
    requires n == if lead.width == 0 then lead.small else FromBigEndian(s[1..1 + lead.width])
    requires payload == s[1 + lead.width..1 + lead.width + |payload|]
    ensures DecodeToken(s) == Some((MakeToken(lead.family, n, payload), 1 + lead.width + |payload|))
  {
  }

  lemma TokenParts(tag: Byte, number: seq<Byte>, payload: seq<Byte>, rest: seq<Byte>)
    ensures var s := [tag] + number + payload + rest;
            && s[0] == tag && s[1..1 + |number|] == number
            && s[1 + |number|..1 + |number| + |payload|] == payload
  {
  }

  lemma NumberedPayloadDecodes(tag: Byte, lead: Lead, n: nat, payload: seq<Byte>, rest: seq<Byte>)
    requires ReadLead(tag) == Some(lead) && |payload| == PayloadLength(lead.family, n)
    requires if lead.width == 0 then lead.small == n else n < Pow256(lead.width)
    ensures DecodeToken([tag] + ToBigEndian(n, lead.width) + payload + rest)
         == Some((MakeToken(lead.family, n, payload), 1 + lead.width + |payload|))
  {
    if lead.width > 0 {
      BigEndianRoundTrip(n, lead.width);
    }
    HeadedPayloadDecodes(tag, lead, ToBigEndian(n, lead.width), n, payload, rest);
  }

  lemma TokenRoundTrip(t: Token, rest: seq<Byte>)
    requires Representable(t)
    ensures DecodeToken(EncodeToken(t) + rest) == Some((t, |EncodeToken(t)|))
  {
    var (tag, width) := ShortestLead(FamilyOf(t), Number(t));
    LeadRoundTrip(FamilyOf(t), Number(t));
    NumberedPayloadDecodes(tag, ReadLead(tag).value, Number(t), Payload(t), rest);
  }

  lemma TokenInverts(t: Token)
    requires Representable(t)
    ensures Inverts(EncodeToken, DecodeToken, t)
  {
    forall rest ensures DecodeToken(EncodeToken(t) + rest) == Some((t, |EncodeToken(t)|)) {
      TokenRoundTrip(t, rest);
    }
  }

  function PayloadTotal(ts: seq<Token>): nat {
    if ts == [] then 0 else |Payload(ts[0])| + PayloadTotal(ts[1..])
  }

  lemma TokenSize(t: Token)
    ensures 0 < |EncodeToken(t)| <= 9 + |Payload(t)|
  {
  }

  /** Heads cost at most nine bytes a token. */
  lemma {:induction false} EncodingSize(ts: seq<Token>)
    ensures |ts| <= |Concat(EncodeToken, ts)| <= 9 * |ts| + PayloadTotal(ts)
  {
    if ts != [] {
      TokenSize(ts[0]);
      EncodingSize(ts[1..]);
    }
  }

  /** No other encoding that decodes to `t` is shorter than the one written. */
  lemma EncodingIsShortest(s: seq<Byte>)
    requires DecodeToken(s).Some?
    ensures Representable(DecodeToken(s).value.0)
    ensures |EncodeToken(DecodeToken(s).value.0)| <= DecodeToken(s).value.1
  {
    var lead := ReadLead(s[0]).value;
    if lead.width > 0 {
      FromBigEndianBound(s[1..1 + lead.width]);
    }
    NoShorterLead(s[0], lead, Number(DecodeToken(s).value.0));
  }

  lemma NoShorterLead(tag: Byte, lead: Lead, n: nat)
    requires ReadLead(tag) == Some(lead)
    requires if lead.width == 0 then n == lead.small else n < Pow256(lead.width)
    ensures n < if lead.family == UIntFamily then TWO64 else TWO32
    ensures ShortestLead(lead.family, n).1 <= lead.width
  {
    Powers();
  }
}
