/**
 bolt's frames byte by byte, as the MessagePack specification lays them out: the int, str, bin
 and array format families, with the kinds as text and the fields in their order. Nothing here
 refers to how frames are encoded or decoded.
 */
module Format {
  import opened Delimited
  import opened Widths
  import opened Wire
  import opened Messages
  import Framing
  import Bolt

  /** An unsigned integer in as few bytes as it takes. */
  function Unsigned(n: U64): seq<Byte> {
    if n < 0x80 then [n]
    else if n < 0x100 then [0xcc, n]
    else if n < 0x1_0000 then [0xcd] + TwoBytes(n)
    else if n < 0x1_0000_0000 then [0xce] + FourBytes(n)
    else [0xcf] + EightBytes(n)
  }

  function TwoBytes(n: nat): seq<Byte>
    requires n < 0x1_0000
  {
    [n / 0x100, n % 0x100]
  }

  function FourBytes(n: nat): seq<Byte>
    requires n < 0x1_0000_0000
  {
    [n / 0x100_0000 % 0x100, n / 0x1_0000 % 0x100, n / 0x100 % 0x100, n % 0x100]
  }

  function EightBytes(n: U64): seq<Byte> {
    [n / 0x100_0000_0000_0000 % 0x100, n / 0x1_0000_0000_0000 % 0x100, n / 0x100_0000_0000 % 0x100,
     n / 0x1_0000_0000 % 0x100, n / 0x100_0000 % 0x100, n / 0x1_0000 % 0x100, n / 0x100 % 0x100, n % 0x100]
  }

  function TextHead(n: nat): seq<Byte>
    requires n < 0x1_0000_0000
  {
    if n < 0x20 then [0xa0 + n]
    else if n < 0x100 then [0xd9, n]
    else if n < 0x1_0000 then [0xda] + TwoBytes(n)
    else [0xdb] + FourBytes(n)
  }

  function BlobHead(n: nat): seq<Byte>
    requires n < 0x1_0000_0000
  {
    if n < 0x100 then [0xc4, n]
    else if n < 0x1_0000 then [0xc5] + TwoBytes(n)
    else [0xc6] + FourBytes(n)
  }

  predicate Carriable(m: Message) {
    && (m.Write? || m.OkWithBuffer? ==> |m.buf| < 0x1_0000_0000)
    && (m.Err? ==> |m.message| < 0x1_0000_0000)
  }

  /** The body of a message: an array of its fields. */
  function Document(m: Message): seq<Byte>
    requires Carriable(m)
  {
    match m
    case Alloc(size) => [0x91] + Unsigned(size)
    case Write(handle, offset, buf) => [0x93] + Unsigned(handle) + Unsigned(offset) + (BlobHead(|buf|) + buf)
    case Read(handle, offset, len) => [0x93] + Unsigned(handle) + Unsigned(offset) + Unsigned(len)
    case Invoke(handle) => [0x91] + Unsigned(handle)
    case OkWithHandle(handle) => [0x91] + Unsigned(handle)
    case OkWithBuffer(handle, offset, buf) => [0x93] + Unsigned(handle) + Unsigned(offset) + (BlobHead(|buf|) + buf)
    case Err(Unknown, message) => [0x92, 0] + (TextHead(|message|) + message)
    case Err(InvalidHandle, message) => [0x92, 1] + (TextHead(|message|) + message)
    case Err(ArgumentOutOfRange, message) => [0x92, 2] + (TextHead(|message|) + message)
  }

  function Name(m: Message): string {
    match m
    case Alloc(_) => "ALLOC"
    case Write(_, _, _) => "WRITE"
    case Read(_, _, _) => "READ"
    case Invoke(_) => "CALL"
    case OkWithHandle(_) => "OK_H"
    case OkWithBuffer(_, _, _) => "OK_B"
    case Err(_, _) => "ERR"
  }

  lemma KindIsName(m: Message)
    ensures Spells(Kind(m), Name(m))
  {
  }

  // ----- tokens

  lemma OneDigit(n: nat)
    requires n < 0x100
    ensures ToBigEndian(n, 1) == [n]
  {
    BigEndianDigit(n, 1, 0);
    assert Pow256(0) == 1;
  }

  lemma TwoDigits(n: nat)
    requires n < 0x1_0000
    ensures ToBigEndian(n, 2) == TwoBytes(n)
  {
    Powers();
    BigEndianDigit(n, 2, 0);
    BigEndianDigit(n, 2, 1);
    assert Pow256(0) == 1;
  }

  lemma FourDigits(n: nat)
    requires n < 0x1_0000_0000
    ensures ToBigEndian(n, 4) == FourBytes(n)
  {
    Powers();
    assert Pow256(3) == 256 * Pow256(2) && Pow256(0) == 1;
    BigEndianDigit(n, 4, 0);
    BigEndianDigit(n, 4, 1);
    BigEndianDigit(n, 4, 2);
    BigEndianDigit(n, 4, 3);
  }

  lemma EightDigits(n: U64)
    ensures ToBigEndian(n, 8) == EightBytes(n)
  {
    Powers();
    assert Pow256(0) == 1 && Pow256(3) == 256 * Pow256(2) && Pow256(5) == 256 * Pow256(4);
    assert Pow256(6) == 256 * Pow256(5) && Pow256(7) == 256 * Pow256(6);
    var s := ToBigEndian(n, 8);
    assert s[0] == n / 0x100_0000_0000_0000 % 0x100 by { BigEndianDigit(n, 8, 0); }
    assert s[1] == n / 0x1_0000_0000_0000 % 0x100 by { BigEndianDigit(n, 8, 1); }
    assert s[2] == n / 0x100_0000_0000 % 0x100 by { BigEndianDigit(n, 8, 2); }
    assert s[3] == n / 0x1_0000_0000 % 0x100 by { BigEndianDigit(n, 8, 3); }
    assert s[4] == n / 0x100_0000 % 0x100 by { BigEndianDigit(n, 8, 4); }
    assert s[5] == n / 0x1_0000 % 0x100 by { BigEndianDigit(n, 8, 5); }
    assert s[6] == n / 0x100 % 0x100 by { BigEndianDigit(n, 8, 6); }
    assert s[7] == n % 0x100 by { BigEndianDigit(n, 8, 7); }
  }

  lemma UnsignedBytes(n: U64)
    ensures EncodeToken(UInt(n)) == Unsigned(n)
  {
    if 0x80 <= n < 0x100 {
      OneDigit(n);
    } else if 0x100 <= n < 0x1_0000 {
      TwoDigits(n);
    } else if 0x1_0000 <= n < 0x1_0000_0000 {
      FourDigits(n);
    } else if 0x1_0000_0000 <= n {
      EightDigits(n);
    }
  }

  lemma TextBytes(text: seq<Byte>)
    requires |text| < 0x1_0000_0000
    ensures EncodeToken(Str(text)) == TextHead(|text|) + text
  {
    var n := |text|;
    if 0x20 <= n < 0x100 {
      OneDigit(n);
    } else if 0x100 <= n < 0x1_0000 {
      TwoDigits(n);
    } else if 0x1_0000 <= n {
      FourDigits(n);
    }
  }

  lemma BlobBytes(data: seq<Byte>)
    requires |data| < 0x1_0000_0000
    ensures EncodeToken(Bin(data)) == BlobHead(|data|) + data
  {
    var n := |data|;
    if n < 0x100 {
      OneDigit(n);
    } else if n < 0x1_0000 {
      TwoDigits(n);
    } else {
      FourDigits(n);
    }
  }

  lemma ArrayByte(n: nat)
    requires n < 0x10
    ensures EncodeToken(Arr(n)) == [0x90 + n]
  {
  }

  // ----- bodies and frames

  lemma TwoTokens(a: Token, b: Token)
    ensures Concat(EncodeToken, [a, b]) == EncodeToken(a) + EncodeToken(b)
  {
    assert [a, b][1..] == [b] && [b][1..] == [];
    assert Concat(EncodeToken, [b]) == EncodeToken(b) + [] == EncodeToken(b);
  }

  lemma ThreeTokens(a: Token, b: Token, c: Token)
    ensures Concat(EncodeToken, [a, b, c]) == EncodeToken(a) + EncodeToken(b) + EncodeToken(c)
  {
    assert [a, b, c][1..] == [b, c];
    TwoTokens(b, c);
  }

  lemma FourTokens(a: Token, b: Token, c: Token, d: Token)
    ensures Concat(EncodeToken, [a, b, c, d]) == EncodeToken(a) + EncodeToken(b) + EncodeToken(c) + EncodeToken(d)
  {
    assert [a, b, c, d][1..] == [b, c, d];
    ThreeTokens(b, c, d);
  }

  lemma OneField(n: U64)
    ensures Concat(EncodeToken, [Arr(1), UInt(n)]) == [0x91] + Unsigned(n)
  {
    TwoTokens(Arr(1), UInt(n));
    ArrayByte(1);
    UnsignedBytes(n);
  }

  lemma ThreeFields(a: U64, b: U64, c: Token)
    ensures Concat(EncodeToken, [Arr(3), UInt(a), UInt(b), c]) == [0x93] + Unsigned(a) + Unsigned(b) + EncodeToken(c)
  {
    FourTokens(Arr(3), UInt(a), UInt(b), c);
    ArrayByte(3);
    UnsignedBytes(a);
    UnsignedBytes(b);
  }

  lemma ErrorFields(tag: U64, text: seq<Byte>)
    requires tag < 0x80 && |text| < 0x1_0000_0000
    ensures Concat(EncodeToken, [Arr(2), UInt(tag), Str(text)]) == [0x92, tag] + (TextHead(|text|) + text)
  {
    ThreeTokens(Arr(2), UInt(tag), Str(text));
    ArrayByte(2);
    UnsignedBytes(tag);
    TextBytes(text);
    assert [0x92] + [tag] == [0x92, tag];
  }

  /** The body written for a message is its document. */
  lemma BodyBytes(m: Message)
    requires Carriable(m)
    ensures Body(m) == Document(m)
  {
    match m
    case Alloc(size) => OneField(size);
    case Write(handle, offset, buf) => ThreeFields(handle, offset, Bin(buf)); BlobBytes(buf);
    case Read(handle, offset, len) => ThreeFields(handle, offset, UInt(len)); UnsignedBytes(len);
    case Invoke(handle) => OneField(handle);
    case OkWithHandle(handle) => OneField(handle);
    case OkWithBuffer(handle, offset, buf) => ThreeFields(handle, offset, Bin(buf)); BlobBytes(buf);
    case Err(Unknown, message) => ErrorFields(0, message);
    case Err(InvalidHandle, message) => ErrorFields(1, message);
    case Err(ArgumentOutOfRange, message) => ErrorFields(2, message);
  }

  lemma HeaderBytes(h: Header)
    requires |h.kind| < 0x20 && h.length < 0x1_0000_0000
    ensures EncodeHeader(h) == [0x92, 0xa0 + |h.kind|] + h.kind + Unsigned(h.length)
  {
    ThreeTokens(Arr(2), Str(h.kind), UInt(h.length));
    ArrayByte(2);
    TextBytes(h.kind);
    UnsignedBytes(h.length);
    assert [0x92] + ([0xa0 + |h.kind|] + h.kind) == [0x92, 0xa0 + |h.kind|] + h.kind;
  }

  /** What the writer puts on the stream for a message, whichever side it is on: the kind as
      text, the length of the body modulo 2^32, and the body. */
  lemma FrameBytes(side: Side, m: Message) returns (kind: seq<Byte>)
    requires Carriable(m)
    ensures Spells(kind, Name(m))
    ensures Framing.Frame(Bolt.LinkFor(side), m)
         == [0x92, 0xa0 + |kind|] + kind + Unsigned(|Document(m)| % 0x1_0000_0000) + Document(m)
  {
    kind := Kind(m);
    KindIsName(m);
    BodyBytes(m);
    HeaderBytes(HeaderOf(m));
  }
}
