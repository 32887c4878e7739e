/** The sending half of the WebSocket layer: one frame, cut into pieces that fit the send buffer. */
module WsSend {
  import opened Bytes
  import opened Frames
  import opened Masks
  import opened Sums
  import opened WsReceive

  // ---- encoding frames (RFC 6455 section 5.2) ----

  function Pow256(k: nat): nat { if k == 0 then 1 else 0x100 * Pow256(k - 1) }

  function BigEndianBytes(n: nat, k: nat): (b: seq<byte>)
    ensures |b| == k
  {
    if k == 0 then [] else BigEndianBytes(n / 0x100, k - 1) + [n % 0x100]
  }

  lemma {:induction false} BigEndianInverse(n: nat, k: nat)
    requires n < Pow256(k)
    ensures BigEndian(BigEndianBytes(n, k)) == n
  {
    if k > 0 {
      BigEndianInverse(n / 0x100, k - 1);
      var b := BigEndianBytes(n, k);
      assert b[..k - 1] == BigEndianBytes(n / 0x100, k - 1);
    }
  }

  /** The second header byte and the extended length: 7, 16 or 64 bits, the shortest that holds
      the length. */
  function LengthField(n: nat, masked: bool): (b: seq<byte>)
    ensures |b| >= 1
  {
    var m := if masked then 128 else 0;
    if n < 126 then [m + n]
    else if n < 0x1_0000 then [m + 126] + BigEndianBytes(n, 2)
    else [m + 127] + BigEndianBytes(n, 8)
  }

  function FrameHead(b0: byte, masked: bool, key: Key, n: nat): (h: seq<byte>)
    ensures |h| >= 2
  {
    [b0] + LengthField(n, masked) + if masked then key else []
  }

  function EncodeFrame(b0: byte, masked: bool, key: Key, data: seq<byte>): seq<byte>
  {
    FrameHead(b0, masked, key, |data|) + Unmask(data, masked, key, 0)
  }

  /** A header announces what it was made from, whatever follows. */
  lemma HeadParsed(b0: byte, masked: bool, key: Key, n: nat, rest: seq<byte>)
    requires n < 0x1_0000_0000_0000
    ensures var h := FrameHead(b0, masked, key, n);
      var s := h + rest;
      && HeadThere(s) && !TooBig(s) && s[0] == b0
      && HeadLength(s[1]) == |h| && IsMasked(s[1]) == masked && PayloadLength(s) == n
      && (masked ==> FrameKey(s) == key)
  {
    var h := FrameHead(b0, masked, key, n);
    var s := h + rest;
    assert s[0] == b0 && s[1] == h[1];
    if n < 126 {
      assert masked ==> s[2..6] == key;
    } else if n < 0x1_0000 {
      assert s[2..4] == BigEndianBytes(n, 2);
      assert Pow256(2) == 0x1_0000;
      BigEndianInverse(n, 2);
      assert masked ==> s[4..8] == key;
    } else {
      LongHead(b0, masked, key, n, rest);
    }
  }

  lemma LongHead(b0: byte, masked: bool, key: Key, n: nat, rest: seq<byte>)
    requires 0x1_0000 <= n < 0x1_0000_0000_0000
    ensures var s := FrameHead(b0, masked, key, n) + rest;
      s[2..10] == BigEndianBytes(n, 8) && BigEndian(s[2..10]) == n && s[2] == 0 && s[3] == 0
      && (masked ==> s[10..14] == key)
  {
    var s := FrameHead(b0, masked, key, n) + rest;
    assert s[2..10] == BigEndianBytes(n, 8);
    assert Pow256(8) == 0x100 * (0x100 * Pow256(6)) && Pow256(6) == 0x1_0000_0000_0000;
    BigEndianInverse(n, 8);
    LeadingZeros(n);
    assert masked ==> s[10..14] == key;
  }

  lemma LeadingZeros(n: nat)
    requires n < 0x1_0000_0000_0000
    ensures BigEndianBytes(n, 8)[0] == 0 && BigEndianBytes(n, 8)[1] == 0
  {
    hide BigEndianBytes;
    var n1 := n / 0x100;
    var n2 := n1 / 0x100;
    var n3 := n2 / 0x100;
    var n4 := n3 / 0x100;
    var n5 := n4 / 0x100;
    var n6 := n5 / 0x100;
    assert n6 == 0;
    LastByte(n, 7); LastByte(n1, 6); LastByte(n2, 5); LastByte(n3, 4); LastByte(n4, 3); LastByte(n5, 2);
    LastByte(n6, 1); LastByte(n6 / 0x100, 0);
  }

  lemma LastByte(n: nat, k: nat)
    ensures BigEndianBytes(n, k + 1) == BigEndianBytes(n / 0x100, k) + [n % 0x100]
  {
  }

  /** Parsing inverts encoding: a frame contributes exactly its data to the payload stream,
      masked or not, and the stream goes on behind it. */
  lemma FrameParsed(b0: byte, masked: bool, key: Key, data: seq<byte>, rest: seq<byte>)
    requires |data| < 0x1_0000_0000_0000
    ensures Payloads(EncodeFrame(b0, masked, key, data) + rest) == data + Payloads(rest)
    ensures |data| < FRAME_LIMIT && Supported(rest) ==> Supported(EncodeFrame(b0, masked, key, data) + rest)
    ensures forall bl :: (|EncodeFrame(b0, masked, key, data)| <= bl && FramesWithin(rest, bl)
      ==> FramesWithin(EncodeFrame(b0, masked, key, data) + rest, bl))
  {
    hide *;
    var s, n := EncodeFrame(b0, masked, key, data) + rest, |FrameHead(b0, masked, key, |data|)|;
    FrameAt(b0, masked, key, data, rest);
    FirstPayload(s, n, masked, key, data, rest);
    assert s[n + |data|..] == rest by { Behind(s, n, Unmask(data, masked, key, 0), rest); }
    StreamGoesOn(s, rest);
  }

  /** Where the parts of a frame are in the stream that begins with it. */
  lemma FrameAt(b0: byte, masked: bool, key: Key, data: seq<byte>, rest: seq<byte>)
    requires |data| < 0x1_0000_0000_0000
    ensures var s, n := EncodeFrame(b0, masked, key, data) + rest, |FrameHead(b0, masked, key, |data|)|;
      && HeadThere(s) && !TooBig(s) && HeadLength(s[1]) == n && IsMasked(s[1]) == masked && PayloadLength(s) == |data|
      && (masked ==> FrameKey(s) == key) && |EncodeFrame(b0, masked, key, data)| == n + |data|
      && s[n..] == Unmask(data, masked, key, 0) + rest
  {
    hide FrameHead, HeadLength, PayloadLength, FrameKey, IsMasked, TooBig, Unmask, HeadThere;
    var h, body := FrameHead(b0, masked, key, |data|), Unmask(data, masked, key, 0) + rest;
    assert EncodeFrame(b0, masked, key, data) + rest == h + body;
    HeadParsed(b0, masked, key, |data|, body);
  }

  lemma FirstPayload(s: seq<byte>, n: nat, masked: bool, key: Key, data: seq<byte>, rest: seq<byte>)
    requires HeadThere(s) && !TooBig(s) && HeadLength(s[1]) == n
    requires IsMasked(s[1]) == masked && PayloadLength(s) == |data|
    requires n <= |s| && (masked ==> FrameKey(s) == key)
    requires s[n..] == Unmask(data, masked, key, 0) + rest
    ensures Payloads(s) == data + Payloads(rest)
  {
    hide HeadLength, PayloadLength, FrameKey, IsMasked, TooBig, Unmask, HeadThere;
    assert s[n..][..|data|] == Unmask(data, masked, key, 0) && s[n..][|data|..] == rest;
    DataBack(data, masked, key, FrameKey(s));
  }

  lemma Behind(s: seq<byte>, n: nat, p: seq<byte>, rest: seq<byte>)
    requires n <= |s| && s[n..] == p + rest
    ensures s[n + |p|..] == rest
  {
    assert s[n + |p|..] == s[n..][|p|..];
  }

  lemma StreamGoesOn(s: seq<byte>, rest: seq<byte>)
    requires HeadThere(s) && !TooBig(s) && |s| >= HeadLength(s[1]) + PayloadLength(s)
    requires s[HeadLength(s[1]) + PayloadLength(s)..] == rest
    ensures PayloadLength(s) < FRAME_LIMIT && Supported(rest) ==> Supported(s)
    ensures forall bl :: (HeadLength(s[1]) + PayloadLength(s) <= bl && FramesWithin(rest, bl) ==> FramesWithin(s, bl))
  {
    hide HeadLength, PayloadLength, TooBig, HeadThere;
  }

  lemma DataBack(data: seq<byte>, masked: bool, key: Key, key': Key)
    requires masked ==> key' == key
    ensures Unmask(Unmask(data, masked, key, 0), masked, key', 0) == data
  {
    if masked {
      UnmaskTwice(data, key, 0);
    }
  }

  const HELLO: seq<byte> := [0x48, 0x65, 0x6c, 0x6c, 0x6f]

  /** The examples of RFC 6455 section 5.7: "Hello" unmasked and masked, and the headers of 256 bytes
      and of 64 KiB. */
  lemma FrameExamples()
    ensures EncodeFrame(0x81, false, [0, 0, 0, 0], HELLO) == [0x81, 0x05, 0x48, 0x65, 0x6c, 0x6c, 0x6f]
    ensures var wire := [0x81, 0x85, 0x37, 0xfa, 0x21, 0x3d, 0x7f, 0x9f, 0x4d, 0x51, 0x58];
      EncodeFrame(0x81, true, [0x37, 0xfa, 0x21, 0x3d], HELLO) == wire && Payloads(wire) == HELLO
    ensures FrameHead(0x82, false, [0, 0, 0, 0], 256) == [0x82, 0x7e, 0x01, 0x00]
    ensures FrameHead(0x82, false, [0, 0, 0, 0], 0x1_0000) == [0x82, 0x7f, 0, 0, 0, 0, 0, 1, 0, 0]
  {
    hide Unmask, Payloads, BigEndianBytes, Supported, FramesWithin;
    MaskedHello();
    HeadBytes(0x82, 256);
    HeadBytes(0x82, 0x1_0000);
    LengthOf64KiB();
    PlainHello();
  }

  lemma PlainHello()
    ensures Unmask(HELLO, false, [0, 0, 0, 0], 0) == HELLO
  {
  }

  lemma MaskedHello()
    ensures var wire := [0x81, 0x85, 0x37, 0xfa, 0x21, 0x3d, 0x7f, 0x9f, 0x4d, 0x51, 0x58];
      EncodeFrame(0x81, true, [0x37, 0xfa, 0x21, 0x3d], HELLO) == wire && Payloads(wire) == HELLO
  {
    hide Unmask, Payloads, Supported, FramesWithin;
    var key: Key := [0x37, 0xfa, 0x21, 0x3d];
    var wire := EncodeFrame(0x81, true, key, HELLO);
    HelloUnmasked();
    UnmaskTwice([0x7f, 0x9f, 0x4d, 0x51, 0x58], key, 0);
    FrameParsed(0x81, true, key, HELLO, []);
    assert wire + [] == wire && Payloads([]) == [] by { NoPayload(); }
    assert HELLO + [] == HELLO;
  }

  lemma NoPayload()
    ensures Payloads([]) == []
  {
  }

  lemma LengthOf64KiB()
    ensures BigEndianBytes(0x1_0000, 8) == [0, 0, 0, 0, 0, 1, 0, 0]
  {
    hide BigEndianBytes;
    LastByte(0x1_0000, 7);
    LastByte(0x100, 6);
    LastByte(1, 5);
    NoDigitsLeft(5);
  }

  lemma {:induction false} NoDigitsLeft(k: nat)
    ensures BigEndianBytes(0, k) == seq(k, _ => 0)
  {
    if k > 0 {
      NoDigitsLeft(k - 1);
    }
  }

  /** What a client sends: frames with arbitrary first bytes and keys. */
  datatype ClientFrame = ClientFrame(b0: byte, masked: bool, key: Key, data: seq<byte>)

  function WireOf(fs: seq<ClientFrame>): seq<byte>
  {
    if fs == [] then []
    else EncodeFrame(fs[0].b0, fs[0].masked, fs[0].key, fs[0].data) + WireOf(fs[1..])
  }

  function DataOf(fs: seq<ClientFrame>): seq<byte>
  {
    if fs == [] then [] else fs[0].data + DataOf(fs[1..])
  }

  /** Together with the receiver's contract: whatever a client sends in frames is owed, byte by
      byte, to the caller of the receiver. */
  lemma {:induction false} StreamParsed(fs: seq<ClientFrame>)
    requires forall i :: 0 <= i < |fs| ==> |fs[i].data| < FRAME_LIMIT
    ensures Payloads(WireOf(fs)) == DataOf(fs) && Supported(WireOf(fs))
  {
    if fs != [] {
      StreamParsed(fs[1..]);
      FrameParsed(fs[0].b0, fs[0].masked, fs[0].key, fs[0].data, WireOf(fs[1..]));
    }
  }

  // ---- the QAP packet header (Rsrv.h:80-88) ----

  const CMD_RESP := 0x1_0000
  const CMD_OOB := 0x2_0000

  /** rsp with the response flag, unless it is out-of-band. */
  function Command(rsp: word): word
  {
    if rsp / CMD_OOB % 2 == 1 || rsp / CMD_RESP % 2 == 1 then rsp else rsp + CMD_RESP
  }

  /** The command bit by bit: bit 16 is set unless bit 17 is, and every other bit is that of rsp. */
  lemma CommandBits(rsp: word)
    ensures var c := Command(rsp);
      && c % 0x1_0000 == rsp % 0x1_0000 && c / 0x2_0000 == rsp / 0x2_0000
      && c / 0x1_0000 % 2 == if rsp / 0x2_0000 % 2 == 1 then rsp / 0x1_0000 % 2 else 1
  {
  }

  function PacketHeader(rsp: word, len: nat): (h: seq<byte>)
    ensures |h| == 16
  {
    WordBytes(Command(rsp)) + WordBytes(len % 0x1_0000_0000) + WordBytes(0)
    + WordBytes(len / 0x1_0000_0000 % 0x1_0000_0000)
  }

  /** The receiving client finds the command and the whole 64-bit length in the header. The command
      is rsp with bit 16 set unless bit 17 is. */
  lemma PacketHeaderRead(rsp: word, len: nat)
    requires len < 0x1_0000_0000_0000_0000
    ensures var h := PacketHeader(rsp, len);
      WordAt(h, 0) == Command(rsp) && WordAt(h, 8) == 0
      && WordAt(h, 4) as int + 0x1_0000_0000 * WordAt(h, 12) as int == len
    ensures var c := WordAt(PacketHeader(rsp, len), 0);
      && c % 0x1_0000 == rsp % 0x1_0000 && c / 0x2_0000 == rsp / 0x2_0000
      && c / 0x1_0000 % 2 == if rsp / 0x2_0000 % 2 == 1 then rsp / 0x1_0000 % 2 else 1
  {
    hide WordBytes, Command;
    var h := PacketHeader(rsp, len);
    assert h[0..4] == WordBytes(Command(rsp)) && h[4..8] == WordBytes(len % 0x1_0000_0000);
    assert h[8..12] == WordBytes(0) && h[12..16] == WordBytes(len / 0x1_0000_0000 % 0x1_0000_0000);
    WordRead(h, 0, Command(rsp));
    CommandBits(rsp);
    WordRead(h, 4, len % 0x1_0000_0000);
    WordRead(h, 8, 0);
    WordRead(h, 12, len / 0x1_0000_0000 % 0x1_0000_0000);
  }

  /** What a receiver makes of the frame that carries a packet: the packet header and the body. */
  lemma PacketParsed(b0: byte, rsp: word, body: seq<byte>)
    requires |body| + 16 < 0x1_0000_0000_0000
    ensures Payloads(EncodeFrame(b0, false, [0, 0, 0, 0], PacketHeader(rsp, |body|) + body))
         == PacketHeader(rsp, |body|) + body
  {
    hide EncodeFrame, PacketHeader, Supported, FramesWithin;
    var frame := EncodeFrame(b0, false, [0, 0, 0, 0], PacketHeader(rsp, |body|) + body);
    FrameParsed(b0, false, [0, 0, 0, 0], PacketHeader(rsp, |body|) + body, []);
    assert frame + [] == frame && Payloads([]) == [];
  }

  // ---- sending ----

  /** What is written begins an unmasked frame with clear reserved bits: a final one of text or
      binary data from draft 4 on, and before that the text and binary opcodes of the drafts, which
      are 4 and 5, with the bit for more to come clear. */
  ghost predicate BeginsFrame(s: seq<byte>, ver: nat, binary: bool)
  {
    && (|s| > 0 ==> s[0] / 16 == (if ver < 4 then 0 else 8))
    && (|s| > 0 ==> s[0] % 16 == (if ver < 4 then 4 else 1) + if binary then 1 else 0)
    && (|s| > 1 ==> s[1] < 128)
  }

  lemma BeginningOf(frame: seq<byte>, n: nat, ver: nat, binary: bool)
    requires n <= |frame| && BeginsFrame(frame, ver, binary)
    ensures BeginsFrame(frame[..n], ver, binary)
  {
  }

  lemma FrameBegins(b0: byte, data: seq<byte>, ver: nat, binary: bool)
    requires b0 == (if ver < 4 then 4 else 129) + if binary then 1 else 0
    ensures BeginsFrame(EncodeFrame(b0, false, [0, 0, 0, 0], data), ver, binary)
  {
    hide Unmask, BigEndianBytes;
  }

  /** What has been written to the socket. */
  class OutWire {
    var sent: seq<byte>

    constructor ()
      ensures sent == []
    {
      sent := [];
    }

    /** send(2): writes a prefix of the n bytes, or fails. */
    method Send(src: array<byte>, n: nat) returns (k: int)
      requires n <= src.Length
      modifies this
      ensures k <= n && sent == old(sent) + src[..Min(n, if k < 0 then 0 else k)]
    {
      k := *;
      if k > n {
        k := n;
      }
      if k > 0 {
        sent := sent + src[..k];
      }
    }
  }

  class Sender {
    const sbuf: array<byte>
    const out: OutWire
    var ver: nat
    var binary: bool

    constructor (o: OutWire, sl: nat, version: nat)
      ensures out == o && sbuf.Length == sl && fresh(sbuf) && ver == version && !binary
    {
      sbuf, out, ver, binary := new byte[sl], o, version, false;
    }

    /** The first byte of every frame: final and text or binary, with the inverted FIN bit of
        the drafts below 4. */
    function FirstByte(): byte
      reads this
    {
      (if binary then 1 else 0) + (if ver < 4 then 0x04 else 0x81)
    }

    /** Stores consecutive bytes into the send buffer. */
    method Put(pl: nat, b: seq<byte>) returns (end: nat)
      requires pl + |b| <= sbuf.Length
      modifies sbuf
      ensures end == pl + |b| && sbuf[..end] == old(sbuf[..pl]) + b
    {
      for i := 0 to |b|
        invariant sbuf[..pl + i] == old(sbuf[..pl]) + b[..i]
      {
        sbuf[pl + i] := b[i];
      }
      end := pl + |b|;
    }

    /** Stores the eight bytes of a 64-bit length from the last to the first. */
    method PutLong(pl: nat, flen: nat) returns (end: nat)
      requires pl + 8 <= sbuf.Length
      modifies sbuf
      ensures end == pl + 8 && sbuf[..end] == old(sbuf[..pl]) + BigEndianBytes(flen, 8)
    {
      var i, l := 8, flen;
      while i > 0
        invariant 0 <= i <= 8 && sbuf[..pl] == old(sbuf[..pl])
        invariant BigEndianBytes(flen, 8) == BigEndianBytes(l, i) + sbuf[pl + i..pl + 8]
      {
        i := i - 1;
        ghost var tail := sbuf[pl + i + 1..pl + 8];
        sbuf[pl + i] := l % 0x100;
        assert sbuf[pl + i..pl + 8] == [l % 0x100] + tail;
        l := l / 0x100;
      }
      end := pl + 8;
      assert sbuf[..end] == sbuf[..pl] + sbuf[pl..end];
    }

    /** Builds the unmasked frame header for a payload of flen bytes. */
    method PutHead(flen: nat) returns (pl: nat)
      requires sbuf.Length >= 10
      modifies sbuf
      ensures pl <= 10 && pl == |FrameHead(FirstByte(), false, [0, 0, 0, 0], flen)| <= sbuf.Length
      ensures sbuf[..pl] == FrameHead(FirstByte(), false, [0, 0, 0, 0], flen)
      ensures flen < 0x1_0000 ==> pl <= 4
    {
      hide FrameHead, BigEndianBytes;
      HeadBytes(FirstByte(), flen);
      pl := Put(0, [FirstByte()]);
      if flen < 126 {
        pl := Put(pl, [flen]);
      } else if flen < 0x1_0000 {
        pl := Put(pl, [126, flen / 0x100, flen % 0x100]);
      } else {
        pl := Put(pl, [127]);
        pl := PutLong(pl, flen);
      }
    }

    /** The frame that carries a packet. */
    function PacketFrame(rsp: word, body: seq<byte>): seq<byte>
      reads this
    {
      EncodeFrame(FirstByte(), false, [0, 0, 0, 0], PacketHeader(rsp, |body|) + body)
    }

    /** WS_send_resp: sends a packet as one frame. If every write succeeds the bytes written are
        that frame, for any body and any buffer that holds the headers; otherwise they are a
        beginning of it. Version 0 sends nothing. */
    method SendResp(rsp: word, body: array<byte>) returns (ok: bool)
      requires sbuf.Length >= 26 && body != sbuf
      modifies sbuf, out
      ensures ok && ver > 0 ==> out.sent == old(out.sent) + PacketFrame(rsp, body[..])
      ensures old(out.sent) <= out.sent <= old(out.sent) + PacketFrame(rsp, body[..])
      ensures BeginsFrame(out.sent[|old(out.sent)|..], ver, binary)
      ensures ver == 0 ==> out.sent == old(out.sent)
    {
      hide FrameHead, PacketHeader, EncodeFrame, BeginsFrame;
      ok := true;
      if ver == 0 {
        SentBegins(old(out.sent), []);
        return;
      }
      var pl := PutHead(body.Length + 16);
      pl := Put(pl, PacketHeader(rsp, body.Length));
      FrameIs(FirstByte(), PacketHeader(rsp, body.Length), body[..]);
      ok := SendPieces(body, pl);
      SentBegins(old(out.sent), PacketHeader(rsp, body.Length) + body[..]);
    }

    /** So does what has been written of one of these frames. */
    lemma SentBegins(before: seq<byte>, data: seq<byte>)
      requires before <= out.sent <= before + EncodeFrame(FirstByte(), false, [0, 0, 0, 0], data)
      ensures BeginsFrame(out.sent[|before|..], ver, binary)
    {
      hide EncodeFrame, BeginsFrame;
      var frame := EncodeFrame(FirstByte(), false, [0, 0, 0, 0], data);
      FrameBegins(FirstByte(), data, ver, binary);
      BeginningOf(frame, |out.sent| - |before|, ver, binary);
      assert out.sent[|before|..] == frame[..|out.sent| - |before|];
    }

    /** Sends the first pl bytes of the buffer and the body behind them, as much at a time as the
        buffer holds, until all is sent or a write falls short. */
    method SendPieces(body: array<byte>, first: nat) returns (ok: bool)
      requires first <= sbuf.Length && sbuf.Length > 0 && body != sbuf
      modifies sbuf, out
      ensures ok ==> out.sent == old(out.sent) + (old(sbuf[..first]) + body[..])
      ensures old(out.sent) <= out.sent <= old(out.sent) + (old(sbuf[..first]) + body[..])
    {
      ok := true;
      var pl: nat, len: nat, off: nat := first, body.Length, 0;
      ghost var all := sbuf[..first] + body[..];
      assert body[off..] == body[..];
      while len + pl > 0
        invariant pl <= sbuf.Length && len + off == body.Length && old(out.sent) <= out.sent
        invariant out.sent + (sbuf[..pl] + body[off..]) == old(out.sent) + all
        decreases len + pl
      {
        ghost var pending, before := sbuf[..pl] + body[off..], out.sent;
        var here := FillBuffer(body, off, pl, len);
        var n := out.Send(sbuf, here);
        ghost var k := Min(here, if n < 0 then 0 else n);
        Prefixes(before, pending, k);
        assert sbuf[..k] == sbuf[..here][..k] == pending[..k];
        if n != here {
          return false;
        }
        off, len, pl := off + (here - pl), len - (here - pl), 0;
        assert pending[here..] == body[off..] == sbuf[..pl] + body[off..];
      }
      assert body[off..] == [];
    }

    /** WS_send_data for versions above 0: one frame, only if it fits the buffer and 16 bits of
        length. The result is the number of bytes given exactly when the frame was sent whole. */
    method SendData(data: array<byte>) returns (r: int)
      requires sbuf.Length >= 12 && data != sbuf && ver > 0
      modifies sbuf, out
      ensures data.Length >= sbuf.Length - 8 || data.Length >= 0x1_0000 ==> r == -1 && out.sent == old(out.sent)
      ensures var frame := EncodeFrame(FirstByte(), false, [0, 0, 0, 0], data[..]);
        && old(out.sent) <= out.sent <= old(out.sent) + frame
        && (r == data.Length <==> out.sent == old(out.sent) + frame)
      ensures BeginsFrame(out.sent[|old(out.sent)|..], ver, binary)
    {
      hide FrameHead, EncodeFrame, BeginsFrame;
      var len := data.Length;
      FrameIs(FirstByte(), [], data[..]);
      assert [] + data[..] == data[..];
      if len < sbuf.Length - 8 && len < 0x1_0000 {
        var pl := PutHead(len);
        ghost var head := sbuf[..pl];
        ghost var frame := EncodeFrame(FirstByte(), false, [0, 0, 0, 0], data[..]);
        assert head + [] == head && frame == head + data[..];
        CopyBody(data, 0, pl, len);
        assert data[0..len] == data[..];
        var n := out.Send(sbuf, len + pl);
        ghost var k := Min(len + pl, if n < 0 then 0 else n);
        Prefixes(old(out.sent), frame, k);
        assert sbuf[..len + pl] == frame && sbuf[..k] == frame[..k];
        assert out.sent == old(out.sent) + frame[..k];
        if k < |frame| {
          assert |out.sent| < |old(out.sent) + frame|;
        } else {
          assert frame[..k] == frame;
        }
        r := if n == len + pl then len
             else if 0 <= n < len + pl && n >= len then len - 1
             else n;
      } else {
        r := -1;
      }
      SentBegins(old(out.sent), data[..]);
    }

    /** Completes the send buffer from the body as far as both reach. */
    method FillBuffer(body: array<byte>, off: nat, pl: nat, len: nat) returns (here: nat)
      requires body != sbuf && off + len == body.Length && pl <= sbuf.Length
      modifies sbuf
      ensures pl <= here == Min(len + pl, sbuf.Length)
      ensures sbuf[..here] == (old(sbuf[..pl]) + body[off..])[..here]
    {
      here := Min(len + pl, sbuf.Length);
      ghost var head := sbuf[..pl];
      if here > pl {
        CopyBody(body, off, pl, here - pl);
      }
      assert (head + body[off..])[..here] == head + body[off..off + (here - pl)];
    }

    /** Puts n body bytes behind the first pl bytes of the send buffer. */
    method CopyBody(body: array<byte>, from: nat, pl: nat, n: nat)
      requires body != sbuf && from + n <= body.Length && pl + n <= sbuf.Length
      modifies sbuf
      ensures sbuf[..pl + n] == old(sbuf[..pl]) + body[from..from + n]
    {
      for i := 0 to n
        invariant sbuf[..pl + i] == old(sbuf[..pl]) + body[from..from + i]
      {
        sbuf[pl + i] := body[from + i];
      }
    }
  }

  /** The three forms of an unmasked header. */
  lemma HeadBytes(b0: byte, n: nat)
    ensures FrameHead(b0, false, [0, 0, 0, 0], n)
         == if n < 126 then [b0] + [n] else if n < 0x1_0000 then [b0] + [126, n / 0x100, n % 0x100]
            else [b0] + [127] + BigEndianBytes(n, 8)
  {
    hide LengthField, BigEndianBytes;
    LengthForms(n);
    var l := LengthField(n, false);
    assert FrameHead(b0, false, [0, 0, 0, 0], n) == [b0] + l;
    if n >= 0x1_0000 {
      Associates([b0], [127], BigEndianBytes(n, 8));
    }
  }

  lemma LengthForms(n: nat)
    ensures n < 126 ==> LengthField(n, false) == [n]
    ensures 126 <= n < 0x1_0000 ==> LengthField(n, false) == [126, n / 0x100, n % 0x100]
    ensures n >= 0x1_0000 ==> LengthField(n, false) == [127] + BigEndianBytes(n, 8)
  {
    hide BigEndianBytes;
    if 126 <= n < 0x1_0000 {
      TwoBytes(n);
    }
  }

  lemma TwoBytes(n: nat)
    requires n < 0x1_0000
    ensures BigEndianBytes(n, 2) == [n / 0x100, n % 0x100]
  {
    hide BigEndianBytes;
    LastByte(n, 1);
    LastByte(n / 0x100, 0);
    assert |BigEndianBytes(n / 0x100 / 0x100, 0)| == 0;
  }

  /** An unmasked frame is its header, the packet header and the body. */
  lemma FrameIs(b0: byte, header: seq<byte>, body: seq<byte>)
    ensures EncodeFrame(b0, false, [0, 0, 0, 0], header + body)
         == (FrameHead(b0, false, [0, 0, 0, 0], |header| + |body|) + header) + body
  {
    hide FrameHead;
    assert Unmask(header + body, false, [0, 0, 0, 0], 0) == header + body;
  }

  lemma Prefixes(before: seq<byte>, pending: seq<byte>, k: nat)
    requires k <= |pending|
    ensures before <= before + pending[..k] <= before + pending
    ensures (before + pending[..k]) + pending[k..] == before + pending
  {
    assert pending == pending[..k] + pending[k..];
  }
}
