/** WebSocket frames (RFC 6455 section 5.2) as a grammar on byte streams, and the
    header fields as websockets.c reads them. */
module Frames {
  import opened Bytes
  import opened Masks

  // ---- the header ----

  function Len7(b1: byte): nat { b1 % 128 }

  predicate IsMasked(b1: byte) { b1 / 128 == 1 }

  /** The length of the whole header, known from its second byte. */
  function HeadLength(b1: byte): (n: nat)
    ensures 2 <= n <= 14
  {
    2 + (if IsMasked(b1) then 4 else 0) + (if Len7(b1) < 126 then 0 else if Len7(b1) == 126 then 2 else 8)
  }

  predicate HeadThere(b: seq<byte>)
  {
    |b| >= 2 && |b| >= HeadLength(b[1])
  }

  function BigEndian(b: seq<byte>): nat
  {
    if b == [] then 0 else BigEndian(b[..|b| - 1]) * 0x100 + b[|b| - 1] as int
  }

  /** The payload length of RFC 6455 section 5.2. */
  function PayloadLength(b: seq<byte>): nat
    requires HeadThere(b)
  {
    if Len7(b[1]) < 126 then Len7(b[1])
    else if Len7(b[1]) == 126 then BigEndian(b[2..4])
    else BigEndian(b[2..10])
  }

  function FrameKey(b: seq<byte>): Key
    requires HeadThere(b)
  {
    if IsMasked(b[1]) then b[HeadLength(b[1]) - 4..HeadLength(b[1])] else [0, 0, 0, 0]
  }

  /** The receiver gives up on 64-bit lengths of 2^48 and more. */
  predicate TooBig(b: seq<byte>)
    requires HeadThere(b)
  {
    Len7(b[1]) == 127 && (b[2] != 0 || b[3] != 0)
  }

  /** The length as the receiver computes it: byte 5 of the header is used twice and byte 4
      lands in the wrong place. */
  function ReadLength(b: seq<byte>): nat
    requires HeadThere(b)
  {
    if Len7(b[1]) < 126 then Len7(b[1])
    else if Len7(b[1]) == 126 then b[2] as int * 0x100 + b[3] as int
    else b[4] as int * 0x1_0000_0000_0000 + b[5] as int * 0x100_0000_0000 + b[5] as int * 0x1_0000_0000
         + b[6] as int * 0x100_0000 + b[7] as int * 0x1_0000 + b[8] as int * 0x100 + b[9] as int
  }

  lemma BigEndian2(b: seq<byte>)
    requires |b| == 2
    ensures BigEndian(b) == b[0] as int * 0x100 + b[1] as int
  {
    assert BigEndian(b[..1]) == b[0] as int;
  }

  lemma BigEndian4(b: seq<byte>)
    requires |b| == 4
    ensures BigEndian(b) == b[0] as int * 0x100_0000 + b[1] as int * 0x1_0000 + b[2] as int * 0x100 + b[3] as int
  {
    assert b[..3][..2] == b[..2];
    BigEndian2(b[..2]);
  }

  lemma BigEndian8(b: seq<byte>)
    requires |b| == 8
    ensures BigEndian(b) == BigEndian(b[..4]) * 0x1_0000_0000 + BigEndian(b[4..])
  {
    BigEndian4(b[4..]);
    assert b[..7][..6] == b[..6] && b[..6][..5] == b[..5] && b[..5][..4] == b[..4];
    assert BigEndian(b[..5]) == BigEndian(b[..4]) * 0x100 + b[4] as int;
    assert BigEndian(b[..6]) == BigEndian(b[..5]) * 0x100 + b[5] as int;
    assert BigEndian(b[..7]) == BigEndian(b[..6]) * 0x100 + b[6] as int;
  }

  /** The lower four bytes of a 64-bit length. */
  function LowHalf(b: seq<byte>): word
    requires |b| >= 10
  {
    b[6] as int * 0x100_0000 + b[7] as int * 0x1_0000 + b[8] as int * 0x100 + b[9] as int
  }

  lemma LongLength(b: seq<byte>)
    requires HeadThere(b) && !TooBig(b) && Len7(b[1]) == 127
    ensures PayloadLength(b) == b[4] as int * 0x100_0000_0000 + b[5] as int * 0x1_0000_0000 + LowHalf(b)
  {
    var s := b[2..10];
    BigEndian8(s);
    BigEndian4(s[..4]);
    BigEndian4(s[4..]);
    assert s[0] == 0 && s[1] == 0 && s[2] == b[4] && s[3] == b[5];
    assert BigEndian(s[4..]) == LowHalf(b);
  }

  /** For headers that are not rejected the receiver's length is the real one exactly when the
      length is below 2^32. */
  lemma ReadLengthExact(b: seq<byte>)
    requires HeadThere(b) && !TooBig(b)
    ensures ReadLength(b) == PayloadLength(b) <==> PayloadLength(b) < 0x1_0000_0000
  {
    if Len7(b[1]) == 126 {
      BigEndian2(b[2..4]);
    } else if Len7(b[1]) == 127 {
      LongLength(b);
    }
  }

  /** What becomes of any 64-bit length: its byte of weight 2^32 counts for 2^40 as well, and the one of
      weight 2^40 for 2^48 instead. */
  lemma ReadLengthIs(b: seq<byte>)
    requires HeadThere(b) && !TooBig(b) && Len7(b[1]) == 127
    ensures var p := PayloadLength(b);
      ReadLength(b) == p / 0x100_0000_0000 * 0x1_0000_0000_0000
                       + p / 0x1_0000_0000 % 0x100 * 0x101_0000_0000 + p % 0x1_0000_0000
  {
    hide PayloadLength, LowHalf, TooBig;
    LongLength(b);
    Regrouped(b[4], b[5], LowHalf(b));
    LongRead(b);
  }

  lemma Regrouped(b4: byte, b5: byte, lo: word)
    ensures var p := b4 as int * 0x100_0000_0000 + b5 as int * 0x1_0000_0000 + lo as int;
      p / 0x100_0000_0000 == b4 && p / 0x1_0000_0000 % 0x100 == b5 && p % 0x1_0000_0000 == lo
  {
    var p := b4 as int * 0x100_0000_0000 + b5 as int * 0x1_0000_0000 + lo as int;
    assert p / 0x1_0000_0000 == b4 as int * 0x100 + b5 as int;
  }

  lemma LongRead(b: seq<byte>)
    requires HeadThere(b) && Len7(b[1]) == 127
    ensures ReadLength(b) == b[4] as int * 0x1_0000_0000_0000 + b[5] as int * 0x101_0000_0000 + LowHalf(b)
  {
  }

  // ---- streams of frames ----

  /** Frame lengths the receiver can handle: header and payload together below 2^31. */
  const FRAME_LIMIT := 0x7fff_fff0

  /** The unmasked payload bytes that the stream b, which starts at a frame boundary, contains.
      The last frame may be incomplete. */
  function Payloads(b: seq<byte>): seq<byte>
    decreases |b|, 0
  {
    if !HeadThere(b) || TooBig(b) then []
    else FramePayloads(b[HeadLength(b[1])..], PayloadLength(b), IsMasked(b[1]), FrameKey(b))
  }

  /** The same for the stream behind the header of a frame of len payload bytes. */
  function FramePayloads(body: seq<byte>, len: nat, masked: bool, key: Key): seq<byte>
    decreases |body|, 1
  {
    if |body| < len then Unmask(body, masked, key, 0)
    else Unmask(body[..len], masked, key, 0) + Payloads(body[len..])
  }

  /** No frame of the stream, up to the first rejected one, is longer than FRAME_LIMIT. */
  predicate Supported(b: seq<byte>)
    decreases |b|
  {
    if !HeadThere(b) || TooBig(b) then true
    else
      var end := HeadLength(b[1]) + PayloadLength(b);
      PayloadLength(b) < FRAME_LIMIT && (|b| >= end ==> Supported(b[end..]))
  }

  /** Every frame of the stream, header included, is at most n bytes long. */
  predicate FramesWithin(b: seq<byte>, n: nat)
    decreases |b|
  {
    if !HeadThere(b) || TooBig(b) then true
    else
      var end := HeadLength(b[1]) + PayloadLength(b);
      end <= n && (|b| >= end ==> FramesWithin(b[end..], n))
  }

  /** Every frame but the last one of the stream is. */
  predicate OthersWithin(b: seq<byte>, n: nat)
    decreases |b|
  {
    if !HeadThere(b) || TooBig(b) then true
    else
      var end := HeadLength(b[1]) + PayloadLength(b);
      |b| > end ==> end <= n && OthersWithin(b[end..], n)
  }
}
