/** WS_recv_data over a wire that delivers its bytes in arbitrary pieces (protocol version 13). */
module WsSocket {
  import opened Bytes
  import opened Frames
  import opened Masks
  import opened WsReceive

  // ---- the flag word (websockets.h:23-32) ----

  const F_INFRAME := 0x010
  const F_MASK := 0x020
  const F_IN_BIN := 0x040
  const F_OUT_BIN := 0x080

  /** The bit of value p, a power of two. */
  predicate Bit(f: nat, p: nat)
    requires p > 0
  {
    f / p % 2 == 1
  }

  /** f | p, f & ~p and f ^ p for a single bit. */
  function Raise(f: nat, p: nat): nat
    requires p > 0
  {
    if Bit(f, p) then f else f + p
  }

  function Clear(f: nat, p: nat): nat
    requires p > 0
  {
    if Bit(f, p) && f >= p then f - p else f
  }

  function Flip(f: nat, p: nat): nat
    requires p > 0
  {
    if Bit(f, p) then Clear(f, p) else f + p
  }

  function GET_MASK_ID(f: nat): nat { f % 4 }

  function GET_F_FT(f: nat): nat { f / 0x1000 % 16 }

  /** The low twelve bits with the frame type put above them. */
  function SET_F_FT(f: nat, ft: nat): nat { f % 0x1000 + ft % 16 * 0x1000 }

  /** Bits 2 to 15 with F_MASK set and the mask phase below them. */
  function SET_F_MASK(f: nat, m: nat): nat { Raise(f % 0x1_0000 / 4 * 4, F_MASK) + m % 4 }

  predicate InFrame(f: nat) { Bit(f, F_INFRAME) }

  predicate Masked(f: nat) { Bit(f, F_MASK) }

  /** The word as its upper part u, F_MASK, F_INFRAME, two unused bits and the phase. */
  function Word(u: nat, mask: nat, inFrame: nat, low: nat, m: nat): nat
  {
    64 * u + 32 * mask + 16 * inFrame + 4 * low + m
  }

  lemma Div2(q: nat, r: nat)
    requires r < 2
    ensures (2 * q + r) % 2 == r
  {
  }

  lemma Div4(q: nat, r: nat)
    requires r < 4
    ensures (4 * q + r) / 4 == q && (4 * q + r) % 4 == r
  {
  }

  lemma Div16(q: nat, r: nat)
    requires r < 16
    ensures (16 * q + r) / 16 == q
  {
  }

  lemma Div32(q: nat, r: nat)
    requires r < 32
    ensures (32 * q + r) / 32 == q
  {
  }

  lemma Div64(q: nat, r: nat)
    requires r < 64
    ensures (64 * q + r) / 64 == q
  {
  }

  lemma Fields(u: nat, mask: nat, inFrame: nat, low: nat, m: nat)
    requires mask < 2 && inFrame < 2 && low < 4 && m < 4
    ensures var f := Word(u, mask, inFrame, low, m);
      && Masked(f) == (mask == 1) && InFrame(f) == (inFrame == 1)
      && GET_MASK_ID(f) == m && f / 64 == u && f / 4 % 4 == low
      && GET_F_FT(f) == u / 64 % 16 && Bit(f, F_IN_BIN) == (u % 2 == 1) && Bit(f, F_OUT_BIN) == (u / 2 % 2 == 1)
  {
    var f := Word(u, mask, inFrame, low, m);
    var a, b := 4 * u + 2 * mask + inFrame, 2 * u + mask;
    Div64(u, 32 * mask + 16 * inFrame + 4 * low + m);
    Div32(b, 16 * inFrame + 4 * low + m);
    Div16(a, 4 * low + m);
    Div4(4 * a + low, m);
    Div4(a, low);
    Div2(b, inFrame);
    Div2(u, mask);
    UpperDigits(u, f - 64 * u);
    assert f / 128 == u / 2 by {
      assert f == 128 * (u / 2) + (64 * (u % 2) + (f - 64 * u));
    }
    assert f / 64 == u && f / 32 == b && f / 16 == a && f / 4 == 4 * a + low;
  }

  lemma UpperDigits(u: nat, r: nat)
    requires r < 64
    ensures (64 * u + r) / 0x1000 == u / 64
  {
    var v, w := u / 64, u % 64;
    assert 64 * u + r == 0x1000 * v + (64 * w + r);
  }

  lemma Split(f: nat) returns (u: nat, mask: nat, inFrame: nat, low: nat, m: nat)
    ensures mask < 2 && inFrame < 2 && low < 4 && m < 4 && f == Word(u, mask, inFrame, low, m)
  {
    u, mask, inFrame, low, m := f / 64, f / 32 % 2, f / 16 % 2, f / 4 % 4, f % 4;
    assert f / 16 == f / 4 / 4 && f / 32 == f / 16 / 2 && f / 64 == f / 32 / 2;
  }

  /** Single bits changed in the word. */
  lemma ChangeInFrame(u: nat, mask: nat, inFrame: nat, low: nat, m: nat)
    requires mask < 2 && inFrame < 2 && low < 4 && m < 4
    ensures var f := Word(u, mask, inFrame, low, m);
      && Flip(f, F_INFRAME) == Word(u, mask, 1 - inFrame, low, m)
      && Raise(f, F_INFRAME) == Word(u, mask, 1, low, m)
      && Raise(f, F_MASK) == Word(u, 1, inFrame, low, m)
  {
    hide Bit;
    Fields(u, mask, inFrame, low, m);
    MaskBit(Word(u, mask, inFrame, low, m));
  }

  lemma MaskBit(f: nat)
    ensures Bit(f, F_MASK) == Masked(f) && Bit(f, F_INFRAME) == InFrame(f)
  {
  }

  /** Clearing the phase of a 16-bit word. */
  lemma WithoutPhase(u: nat, mask: nat, inFrame: nat, low: nat, m: nat)
    requires u < 1024 && mask < 2 && inFrame < 2 && low < 4 && m < 4
    ensures Word(u, mask, inFrame, low, m) % 0x1_0000 / 4 * 4 == Word(u, mask, inFrame, low, 0)
  {
    var q := 16 * u + 8 * mask + 4 * inFrame + low;
    assert Word(u, mask, inFrame, low, m) == 4 * q + m < 0x1_0000;
    Div4(q, m);
    Small(4 * q + m);
  }

  lemma Small(f: nat)
    requires f < 0x1_0000
    ensures f % 0x1_0000 == f
  {
  }

  /** The fields this layer uses do not overlap: changing one leaves the others as they were. */
  lemma SetMask(f: nat, m: nat)
    requires m < 4 && f < 0x1_0000
    ensures GET_MASK_ID(SET_F_MASK(f, m)) == m && Masked(SET_F_MASK(f, m)) && SET_F_MASK(f, m) < 0x1_0000
    ensures InFrame(SET_F_MASK(f, m)) == InFrame(f) && GET_F_FT(SET_F_MASK(f, m)) == GET_F_FT(f)
    ensures Bit(SET_F_MASK(f, m), F_IN_BIN) == Bit(f, F_IN_BIN)
    ensures Bit(SET_F_MASK(f, m), F_OUT_BIN) == Bit(f, F_OUT_BIN) && SET_F_MASK(f, m) / 4 % 4 == f / 4 % 4
  {
    hide Bit, GET_F_FT, InFrame, Masked, GET_MASK_ID, Raise, SET_F_MASK, Word;
    var u, mask, inFrame, low, m0 := Split(f);
    Fields(u, mask, inFrame, low, m0);
    MaskStored(u, mask, inFrame, low, m0, m);
    Fields(u, 1, inFrame, low, m);
  }

  /** The word that SET_F_MASK makes. */
  lemma MaskStored(u: nat, mask: nat, inFrame: nat, low: nat, m0: nat, m: nat)
    requires mask < 2 && inFrame < 2 && low < 4 && m0 < 4 && m < 4 && Word(u, mask, inFrame, low, m0) < 0x1_0000
    ensures SET_F_MASK(Word(u, mask, inFrame, low, m0), m) == Word(u, 1, inFrame, low, m) < 0x1_0000
  {
    hide Raise;
    assert u < 1024;
    WithoutPhase(u, mask, inFrame, low, m0);
    ChangeInFrame(u, mask, inFrame, low, 0);
    assert m % 4 == m;
  }

  lemma FlipInFrame(f: nat)
    requires f < 0x1_0000
    ensures Flip(f, F_INFRAME) < 0x1_0000
    ensures InFrame(Flip(f, F_INFRAME)) == !InFrame(f)
    ensures Masked(Flip(f, F_INFRAME)) == Masked(f) && GET_MASK_ID(Flip(f, F_INFRAME)) == GET_MASK_ID(f)
    ensures GET_F_FT(Flip(f, F_INFRAME)) == GET_F_FT(f) && Bit(Flip(f, F_INFRAME), F_IN_BIN) == Bit(f, F_IN_BIN)
  {
    hide Bit, GET_F_FT, InFrame, Masked, GET_MASK_ID, Flip, Raise;
    var u, mask, inFrame, low, m := Split(f);
    ChangeInFrame(u, mask, inFrame, low, m);
    Fields(u, mask, inFrame, low, m);
    Fields(u, mask, 1 - inFrame, low, m);
  }

  lemma RaiseInFrame(f: nat)
    requires f < 0x1_0000
    ensures Raise(f, F_INFRAME) < 0x1_0000
    ensures InFrame(Raise(f, F_INFRAME))
    ensures Masked(Raise(f, F_INFRAME)) == Masked(f) && GET_MASK_ID(Raise(f, F_INFRAME)) == GET_MASK_ID(f)
    ensures GET_F_FT(Raise(f, F_INFRAME)) == GET_F_FT(f) && Bit(Raise(f, F_INFRAME), F_IN_BIN) == Bit(f, F_IN_BIN)
  {
    hide Bit, GET_F_FT, InFrame, Masked, GET_MASK_ID, Flip, Raise;
    var u, mask, inFrame, low, m := Split(f);
    ChangeInFrame(u, mask, inFrame, low, m);
    Fields(u, mask, inFrame, low, m);
    Fields(u, mask, 1, low, m);
  }

  lemma ClearMask(f: nat)
    ensures Clear(f, F_MASK) <= f
    ensures !Masked(Clear(f, F_MASK)) && InFrame(Clear(f, F_MASK)) == InFrame(f)
    ensures GET_F_FT(Clear(f, F_MASK)) == GET_F_FT(f) && Bit(Clear(f, F_MASK), F_IN_BIN) == Bit(f, F_IN_BIN)
  {
    hide Bit, GET_F_FT, InFrame, Masked, GET_MASK_ID;
    var u, mask, inFrame, low, m := Split(f);
    Fields(u, mask, inFrame, low, m);
    MaskBit(f);
    Fields(u, 0, inFrame, low, m);
  }

  lemma RaiseIs(f: nat, p: nat)
    requires p > 0
    ensures Raise(f, p) == if Bit(f, p) then f else f + p
    ensures Clear(f, p) == if Bit(f, p) && f >= p then f - p else f
  {
    hide Bit;
  }

  /** The words with the upper part one higher and in two parts. */
  lemma UpperPart(u: nat, mask: nat, inFrame: nat, low: nat, m: nat)
    ensures Word(u + 1, mask, inFrame, low, m) == Word(u, mask, inFrame, low, m) + 64
    ensures Word(u, mask, inFrame, low, m) == 64 * u + Word(0, mask, inFrame, low, m)
    ensures mask < 2 && inFrame < 2 && low < 4 && m < 4 ==> Word(0, mask, inFrame, low, m) < 64
  {
  }

  lemma SetBinary(f: nat, binary: bool)
    ensures var g := if binary then Raise(f, F_IN_BIN) else Clear(f, F_IN_BIN);
      InFrame(g) == InFrame(f) && Bit(g, F_IN_BIN) == binary
  {
    hide Bit, GET_F_FT, InFrame, Masked, GET_MASK_ID, Raise, Clear, Word;
    var u, mask, inFrame, low, m := Split(f);
    Fields(u, mask, inFrame, low, m);
    Fields(u + 1, mask, inFrame, low, m);
    UpperPart(u, mask, inFrame, low, m);
    RaiseIs(f, F_IN_BIN);
    if u > 0 {
      Fields(u - 1, mask, inFrame, low, m);
      UpperPart(u - 1, mask, inFrame, low, m);
    }
  }

  lemma SetType(f: nat, ft: nat)
    ensures InFrame(SET_F_FT(f, ft)) == InFrame(f) && GET_F_FT(SET_F_FT(f, ft)) == ft % 16
    ensures Bit(SET_F_FT(f, ft), F_IN_BIN) == Bit(f, F_IN_BIN) && SET_F_FT(f, ft) < 0x1_0000
    ensures Masked(SET_F_FT(f, ft)) == Masked(f) && GET_MASK_ID(SET_F_FT(f, ft)) == GET_MASK_ID(f)
    ensures Bit(SET_F_FT(f, ft), F_OUT_BIN) == Bit(f, F_OUT_BIN) && SET_F_FT(f, ft) / 4 % 4 == f / 4 % 4
  {
    hide Bit, GET_F_FT, InFrame, Masked, GET_MASK_ID, Word;
    var u, mask, inFrame, low, m := Split(f);
    var v := u % 64 + ft % 16 * 64;
    Fields(u, mask, inFrame, low, m);
    Fields(v, mask, inFrame, low, m);
    UpperPart(u, mask, inFrame, low, m);
    UpperPart(v, mask, inFrame, low, m);
    LowTwelve(u, Word(0, mask, inFrame, low, m));
    TypeInUpper(u, ft % 16);
  }

  lemma LowTwelve(u: nat, w: nat)
    requires w < 64
    ensures (64 * u + w) % 0x1000 == 64 * (u % 64) + w
  {
    var q, r := u / 64, u % 64;
    assert 64 * u + w == 0x1000 * q + (64 * r + w);
  }

  lemma TypeInUpper(u: nat, ft: nat)
    requires ft < 16
    ensures var v := u % 64 + ft * 64;
      v / 64 % 16 == ft && v % 2 == u % 2 && v / 2 % 2 == u / 2 % 2 && 64 * v + 63 < 0x1_0000
  {
    Div64(ft, u % 64);
    LowBits(u / 64, u % 64);
    LowBits(ft, u % 64);
    assert u == 64 * (u / 64) + u % 64;
  }

  lemma LowBits(q: nat, r: nat)
    requires r < 64
    ensures (64 * q + r) % 2 == r % 2 && (64 * q + r) / 2 % 2 == r / 2 % 2
  {
    var a := r / 2;
    assert r == 2 * a + r % 2 && 64 * q + r == 2 * (32 * q + a) + r % 2;
    Div2(32 * q + a, r % 2);
    assert 32 * q + a == 2 * (16 * q + a / 2) + a % 2;
    Div2(16 * q + a / 2, a % 2);
  }

  // ---- the wire ----

  /** The bytes the peer sends and the socket has not returned yet. */
  class Wire {
    var rest: seq<byte>

    constructor (bytes: seq<byte>)
      ensures rest == bytes
    {
      rest := bytes;
    }

    /** recv(2): any number of bytes from one to cap, or a result below one on error, at the
        end of the stream or if there is no room. */
    method Recv(dst: array<byte>, off: nat, cap: nat) returns (n: int)
      requires off + cap <= dst.Length
      modifies this, dst
      ensures n < 1 ==> rest == old(rest) && dst[..] == old(dst[..])
      ensures n >= 1 ==> n <= cap && n <= |old(rest)| && rest == old(rest)[n..]
      ensures n >= 1 ==> dst[..] == old(dst[..off]) + old(rest)[..n] + old(dst[off + n..])
    {
      n := *;
      if n >= 1 {
        if n > cap || n > |rest| {
          n := 0;
        } else {
          var i := 0;
          while i < n
            invariant 0 <= i <= n && rest == old(rest)
            invariant dst[off..off + i] == rest[..i]
            invariant dst[..off] == old(dst[..off]) && dst[off + n..] == old(dst[off + n..])
          {
            dst[off + i] := rest[i];
            i := i + 1;
          }
          assert dst[..] == dst[..off] + dst[off..off + n] + dst[off + n..];
          rest := rest[n..];
        }
      }
    }
  }

  // ---- array helpers ----

  /** do_mask: applies the key to part of a message in place and returns the next phase. */
  method DoMask(msg: array<byte>, off: nat, len: nat, koff: nat, key: Key) returns (phase: nat)
    requires off + len <= msg.Length
    modifies msg
    ensures phase == (len + koff) % 4
    ensures msg[..] == old(msg[..off]) + Unmask(old(msg[off..off + len]), true, key, koff) + old(msg[off + len..])
    ensures forall j :: off <= j < off + len ==> IsXor(msg[j], old(msg[j]), key[(j - off + koff) % 4])
  {
    hide Xor, IsXor;
    var i := 0;
    while i < len
      invariant 0 <= i <= len
      invariant forall j :: off <= j < off + i ==> msg[j] == Xor(old(msg[j]), key[(j - off + koff) % 4])
      invariant forall j :: off <= j < off + i ==> IsXor(msg[j], old(msg[j]), key[(j - off + koff) % 4])
      invariant forall j :: 0 <= j < msg.Length && !(off <= j < off + i) ==> msg[j] == old(msg[j])
    {
      XorIsXor(msg[off + i], key[(i + koff) % 4]);
      msg[off + i] := Xor(msg[off + i], key[(i + koff) % 4]);
      i := i + 1;
    }
    phase := (i + koff) % 4;
    ghost var want := Unmask(old(msg[off..off + len]), true, key, koff);
    assert msg[off..off + len] == want;
    assert msg[..] == msg[..off] + msg[off..off + len] + msg[off + len..];
    assert msg[..off] == old(msg[..off]) && msg[off + len..] == old(msg[off + len..]);
  }

  /** a differs from b at most on [off, end). */
  ghost predicate SameOutside(a: seq<byte>, b: seq<byte>, off: nat, end: nat)
  {
    |a| == |b| && off <= end <= |a| && a[..off] == b[..off] && a[end..] == b[end..]
  }

  lemma Untouched(a: seq<byte>, off: nat)
    requires off <= |a|
    ensures SameOutside(a, a, off, off)
  {
  }

  lemma TwoWrites(a: seq<byte>, b: seq<byte>, c: seq<byte>, off: nat, end: nat)
    requires SameOutside(b, a, off, end) && SameOutside(c, b, off, end)
    ensures SameOutside(c, a, off, end)
  {
  }

  /** memcpy between buffers. */
  method CopyOut(dst: array<byte>, off: nat, src: array<byte>, from: nat, n: nat)
    requires dst != src && from + n <= src.Length && off + n <= dst.Length
    modifies dst
    ensures dst[off..off + n] == src[from..from + n]
    ensures SameOutside(dst[..], old(dst[..]), off, off + n)
  {
    for i := 0 to n
      invariant dst[off..off + i] == src[from..from + i]
      invariant dst[..off] == old(dst[..off]) && dst[off + n..] == old(dst[off + n..])
    {
      dst[off + i] := src[from + i];
    }
    assert dst[..][..off] == dst[..off] && dst[..][off + n..] == dst[off + n..];
  }

  /** memmove of [from, to) to the start of the buffer. */
  method MoveDown(a: array<byte>, from: nat, to: nat)
    requires from <= to <= a.Length
    modifies a
    ensures a[..to - from] == old(a[from..to])
  {
    for i := 0 to to - from
      invariant a[..i] == old(a[from..from + i])
      invariant forall j :: from + i <= j < to ==> a[j] == old(a[j])
    {
      a[i] := a[from + i];
    }
  }

  lemma UnmaskedIsPlain(s: seq<byte>, key: Key, phase: nat)
    ensures Unmask(s, false, key, phase) == s
  {
  }

  // ---- the receiver ----

  class Receiver {
    const buf: array<byte>
    var bp: nat
    var l1: nat
    var l2: Key
    var flags: nat
    const wire: Wire

    /** A connection after the handshake. */
    constructor (w: Wire, bl: nat)
      requires bl >= 14
      ensures Valid() && wire == w && fresh(buf) && buf.Length == bl
      ensures Owed() == Payloads(w.rest) && Later() == w.rest && Whole(State())
      ensures OthersWithin(w.rest, bl) ==> AwaitsLast()
    {
      buf, wire := new byte[bl], w;
      bp, l1, l2, flags := 0, 0, [0, 0, 0, 0], 0;
      new;
      assert buf[..0] + w.rest == w.rest;
    }

    ghost predicate Valid()
      reads this
    {
      bp <= buf.Length && buf.Length >= 14 && flags < 0x1_0000 && (InFrame(flags) ==> l1 > 0)
    }

    function State(): Rx
      requires Valid()
      reads this, buf
    {
      Rx(buf[..bp], InFrame(flags), l1, Masked(flags), GET_MASK_ID(flags), l2)
    }

    /** The payload bytes not delivered yet. */
    ghost function Owed(): seq<byte>
      requires Valid()
      reads this, buf, wire
    {
      Pending(State(), wire.rest)
    }

    /** The stream from the next frame on. */
    ghost function Later(): seq<byte>
      requires Valid()
      reads this, buf, wire
    {
      NextFrames(State(), wire.rest)
    }

    /** Only the last frame of the stream may not fit the buffer. */
    ghost predicate AwaitsLast()
      requires Valid()
      reads this, buf, wire
    {
      WholeOrLast(State(), wire.rest) && OthersWithin(Later(), buf.Length)
    }

    /** Hands over buffered bytes of the current frame. */
    method DeliverBuffered(dst: array<byte>, off: nat, readLen: nat) returns (n: nat)
      requires Valid() && InFrame(flags) && bp > 0
      requires dst != buf && dst.Length >= off + readLen
      modifies this, buf, dst
      ensures Valid() && n == Min(readLen, Min(old(bp), old(l1)))
      ensures dst[off..off + n] == old(buf[..n]) && State() == AfterDelivery(old(State()), n)
      ensures SameOutside(dst[..], old(dst[..]), off, off + n)
    {
      hide InFrame, Masked, GET_MASK_ID, Flip;
      n := Min(readLen, Min(bp, l1));
      CopyOut(dst, off, buf, 0, n);
      ghost var b := buf[..bp];
      if bp > n {
        MoveDown(buf, n, bp);
      }
      bp := bp - n;
      l1 := l1 - n;
      assert buf[..bp] == b[n..];
      FlipInFrame(flags);
      if l1 == 0 {
        flags := Flip(flags, F_INFRAME);
      }
    }

    /** Unmasks n bytes of the current frame at the caller, and moves the phase along. */
    method UnmaskDelivered(dst: array<byte>, off: nat, n: nat)
      requires Valid() && off + n <= dst.Length && dst != buf
      modifies this`flags, dst
      ensures Valid() && InFrame(flags) == old(InFrame(flags)) && Masked(flags) == old(Masked(flags))
      ensures GET_MASK_ID(flags) == old(if Masked(flags) then (n + GET_MASK_ID(flags)) % 4 else GET_MASK_ID(flags))
      ensures dst[off..off + n] == Unmask(old(dst[off..off + n]), old(Masked(flags)), l2, old(GET_MASK_ID(flags)))
      ensures SameOutside(dst[..], old(dst[..]), off, off + n)
    {
      hide Bit, InFrame, Masked, GET_MASK_ID, SET_F_MASK, Unmask;
      if Masked(flags) {
        var m := DoMask(dst, off, n, GET_MASK_ID(flags), l2);
        SetMask(flags, m);
        flags := SET_F_MASK(flags, m);
      } else {
        UnmaskedIsPlain(dst[off..off + n], l2, GET_MASK_ID(flags));
      }
    }

    /** Hands over bytes just read in the middle of a frame. */
    method DeliverNew(dst: array<byte>, off: nat, readLen: nat) returns (n: nat)
      requires Valid() && InFrame(flags) && bp > 0
      requires dst != buf && dst.Length >= off + readLen
      modifies this, dst
      ensures Valid() && n == Min(readLen, Min(old(l1), old(bp)))
      ensures dst[off..off + n] == Unmask(old(buf[..n]), old(Masked(flags)), old(l2), old(GET_MASK_ID(flags)))
      ensures SameOutside(dst[..], old(dst[..]), off, off + n)
      ensures State() == AfterRefill(old(State()), old(buf[..bp]), n)
    {
      hide Bit, InFrame, Masked, GET_MASK_ID, Unmask, Flip, SameOutside;
      n := Min(readLen, Min(l1, bp));
      ghost var d := dst[..];
      CopyOut(dst, off, buf, 0, n);
      ghost var d1 := dst[..];
      UnmaskDelivered(dst, off, n);
      TwoWrites(d, d1, dst[..], off, off + n);
      bp := bp - n;
      l1 := l1 - n;
      FlipInFrame(flags);
      if l1 == 0 {
        flags := Flip(flags, F_INFRAME);
      }
    }

    /** Reads from the wire until target bytes are buffered, never beyond limit. */
    method FillUpTo(target: nat, limit: nat) returns (n: int)
      requires Valid() && target <= limit <= buf.Length
      modifies this`bp, buf, wire
      ensures Valid() && old(bp) <= bp && bp <= (if old(bp) > limit then old(bp) else limit)
      ensures n >= 1 ==> bp >= target
      ensures buf[..bp] + wire.rest == old(buf[..bp] + wire.rest) && buf[..old(bp)] == old(buf[..bp])
    {
      n := 1;
      ghost var all := buf[..bp] + wire.rest;
      while bp < target
        invariant old(bp) <= bp && bp <= (if old(bp) > limit then old(bp) else limit) && n >= 1
        invariant buf[..bp] + wire.rest == all && buf[..old(bp)] == old(buf[..bp])
      {
        ghost var b, r := buf[..], wire.rest;
        n := wire.Recv(buf, bp, limit - bp);
        if n < 1 {
          assert buf[..bp] == b[..bp];
          return;
        }
        assert buf[..bp + n] == b[..bp] + r[..n];
        assert b[..bp] + r == (b[..bp] + r[..n]) + r[n..];
        bp := bp + n;
      }
    }

    /** The frame header's type field goes into the flags. */
    method NoteType(fr0: byte)
      requires Valid()
      modifies this`flags
      ensures Valid() && InFrame(flags) == old(InFrame(flags))
      ensures GET_F_FT(flags) == fr0 % 16 && Bit(flags, F_IN_BIN) == (fr0 % 128 == 2)
    {
      hide Bit, InFrame, Raise, Clear, SET_F_FT, GET_F_FT;
      var ct := fr0 % 128;
      SetBinary(flags, ct == 2);
      flags := if ct == 2 then Raise(flags, F_IN_BIN) else Clear(flags, F_IN_BIN);
      SetType(flags, ct);
      flags := SET_F_FT(flags, ct);
      LowNibble(fr0);
    }

    /** Unmasks the buffered part of a frame in place and notes key and phase. */
    method UnmaskBuffered(need: nat, mask: bool, payload: nat)
      requires Valid() && 6 <= need + (if mask then 0 else 6) && need + payload <= bp
      modifies this`flags, this`l2, buf
      ensures Valid() && InFrame(flags) == old(InFrame(flags)) && Masked(flags) == mask
      ensures mask ==> l2 == old(buf[need - 4..need]) && GET_MASK_ID(flags) == payload % 4
      ensures var key: Key := if mask then old(buf[need - 4..need]) else [0, 0, 0, 0];
        buf[need..bp] == Unmask(old(buf[need..need + payload]), mask, key, 0) + old(buf[need + payload..bp])
      ensures GET_F_FT(flags) == old(GET_F_FT(flags)) && Bit(flags, F_IN_BIN) == old(Bit(flags, F_IN_BIN))
    {
      hide Bit, InFrame, Masked, Raise, Clear, SET_F_MASK, GET_F_FT, Unmask, GET_MASK_ID;
      ghost var b := buf[..];
      if mask {
        var m := DoMask(buf, need, payload, 0, buf[need - 4..need]);
        assert b[need - 4..need] == old(buf[need - 4..need]);
        assert b[need..need + payload] == old(buf[need..need + payload]);
        MaskedPart(b, buf[..], need, payload, bp, Unmask(b[need..need + payload], true, b[need - 4..need], 0));
        assert buf[need - 4..need] == buf[..][need - 4..need] && buf[need..bp] == buf[..][need..bp];
        assert b[need + payload..bp] == old(buf[need + payload..bp]);
        SetMask(flags, m);
        flags := SET_F_MASK(flags, m);
        l2 := buf[need - 4..need];
      } else {
        ClearMask(flags);
        flags := Clear(flags, F_MASK);
        UnmaskedIsPlain(b[need..need + payload], [0, 0, 0, 0], 0);
        assert b[need..bp] == b[need..need + payload] + b[need + payload..bp];
      }
    }

    /** Copies n bytes to the caller and moves what is behind them to the start of the buffer. */
    method HandOver(dst: array<byte>, off: nat, need: nat, n: nat)
      requires Valid() && need + n <= bp && dst != buf && dst.Length >= off + n
      modifies this`bp, buf, dst
      ensures bp == old(bp) - need - n && Valid()
      ensures dst[off..off + n] == old(buf[need..need + n]) && buf[..bp] == old(buf[need + n..bp])
      ensures SameOutside(dst[..], old(dst[..]), off, off + n)
    {
      CopyOut(dst, off, buf, need, n);
      if bp > need + n {
        MoveDown(buf, need + n, bp);
      }
      bp := bp - need - n;
    }

    /** The frame whose header and first payload bytes are buffered is unmasked and as much of
        it as asked for is handed over; whether the frame is thereby finished decides if the
        receiver is inside it afterwards. */
    method TakeFrame(dst: array<byte>, off: nat, readLen: nat, need: nat, len: nat, mask: bool, payload: nat)
      returns (n: nat)
      requires Valid() && !InFrame(flags) && dst != buf && dst.Length >= off + readLen
      requires 6 <= need + (if mask then 0 else 6) && payload <= len && need + payload <= bp
      requires payload < len ==> bp == need + payload
      modifies this, buf, dst
      ensures Valid() && n == Min(readLen, payload)
      ensures var key: Key := if mask then old(buf[need - 4..need]) else [0, 0, 0, 0];
        && dst[off..off + n] == Unmask(old(buf[need..need + payload]), mask, key, 0)[..n]
        && Like(State(), AfterStart(old(buf[need..bp]), len, mask, key, payload, old(buf[need + payload..bp]),
                                    n, payload % 4))
      ensures SameOutside(dst[..], old(dst[..]), off, off + n)
      ensures GET_F_FT(flags) == old(GET_F_FT(flags)) && Bit(flags, F_IN_BIN) == old(Bit(flags, F_IN_BIN))
    {
      hide Bit, InFrame, Masked, Raise, GET_F_FT, Unmask, GET_MASK_ID, SameOutside, Like, AfterStart;
      ghost var key: Key := if mask then buf[need - 4..need] else [0, 0, 0, 0];
      ghost var body, plain := buf[need..bp], Unmask(buf[need..need + payload], mask, key, 0);
      ghost var extra := buf[need + payload..bp];
      assert body[..payload] == buf[need..need + payload];
      UnmaskBuffered(need, mask, payload);
      n := HandOverFrame(dst, off, readLen, need, len, payload, plain, extra);
      TakenLike(State(), body, len, mask, key, payload, extra, n);
    }

    /** Hands over the unmasked beginning of a frame and notes what is left of it. */
    method HandOverFrame(dst: array<byte>, off: nat, readLen: nat, need: nat, len: nat, payload: nat,
                         ghost plain: seq<byte>, ghost extra: seq<byte>)
      returns (n: nat)
      requires Valid() && !InFrame(flags) && dst != buf && dst.Length >= off + readLen
      requires payload <= len && need + payload <= bp && buf[need..bp] == plain + extra && |plain| == payload
      modifies this`flags, this`l1, this`bp, buf, dst
      ensures Valid() && n == Min(readLen, payload)
      ensures dst[off..off + n] == plain[..n] && buf[..bp] == plain[n..] + extra
      ensures InFrame(flags) == (n < len) && (n < len ==> l1 == len - n)
      ensures Masked(flags) == old(Masked(flags)) && GET_MASK_ID(flags) == old(GET_MASK_ID(flags))
      ensures SameOutside(dst[..], old(dst[..]), off, off + n)
      ensures GET_F_FT(flags) == old(GET_F_FT(flags)) && Bit(flags, F_IN_BIN) == old(Bit(flags, F_IN_BIN))
    {
      hide Bit, InFrame, Masked, GET_F_FT, GET_MASK_ID, SameOutside;
      ghost var all := buf[need..bp];
      n := Min(readLen, payload);
      assert buf[need..need + n] == all[..n] == plain[..n];
      assert buf[need + n..bp] == all[n..] == plain[n..] + extra;
      HandOver(dst, off, need, n);
      if n < len {
        StayInFrame(len - n);
      }
    }

    /** The frame is not finished. */
    method StayInFrame(left: nat)
      requires Valid() && left > 0
      modifies this`flags, this`l1
      ensures Valid() && InFrame(flags) && l1 == left && Masked(flags) == old(Masked(flags))
      ensures GET_MASK_ID(flags) == old(GET_MASK_ID(flags)) && GET_F_FT(flags) == old(GET_F_FT(flags))
      ensures Bit(flags, F_IN_BIN) == old(Bit(flags, F_IN_BIN))
    {
      hide Bit, InFrame, Masked, Raise, GET_F_FT, GET_MASK_ID;
      l1 := left;
      RaiseInFrame(flags);
      flags := Raise(flags, F_INFRAME);
    }

    /** Notes the type of the next frame and reads until its header is complete. */
    method CompleteHead() returns (n: int)
      requires Valid() && !InFrame(flags) && bp > 0
      modifies this`flags, this`bp, buf, wire
      ensures Valid() && !InFrame(flags) && buf[..bp] + wire.rest == old(buf[..bp] + wire.rest)
      ensures n >= 1 ==> 2 <= HeadLength(buf[1]) <= bp
      ensures GET_F_FT(flags) == old(buf[0]) % 16 && Bit(flags, F_IN_BIN) == (old(buf[0]) % 128 == 2)
    {
      hide Bit, InFrame, Masked, GET_F_FT, HeadLength;
      NoteType(buf[0]);
      if bp == 1 {
        n := FillUpTo(2, buf.Length);
        if n < 1 {
          return;
        }
      }
      ghost var b := buf[..bp];
      n := FillUpTo(HeadLength(buf[1]), buf.Length);
      assert buf[1] == b[1];
    }

    /** Begins the next frame: completes its header, waits for as much of it as the buffer can
        hold, and hands over what was asked for. */
    method StartFrame(dst: array<byte>, off: nat, readLen: nat) returns (n: int)
      requires Valid() && !InFrame(flags) && bp > 0 && dst != buf && dst.Length >= off + readLen
      requires Supported(Later())
      modifies this, buf, dst, wire
      ensures Valid() && n <= readLen
      ensures old(Owed()) == dst[off..off + Count(n)] + Owed() && Supported(Later())
      ensures SameOutside(dst[..], old(dst[..]), off, off + Count(n))
      ensures FramesWithin(old(Later()), buf.Length) ==> Whole(State()) && FramesWithin(Later(), buf.Length)
      ensures OthersWithin(old(Later()), buf.Length)
        ==> WholeOrLast(State(), wire.rest) && OthersWithin(Later(), buf.Length)
      ensures GET_F_FT(flags) == old(buf[0]) % 16 && Bit(flags, F_IN_BIN) == (old(buf[0]) % 128 == 2)
    {
      hide Bit, InFrame, Masked, GET_F_FT, Unmask, GET_MASK_ID, HeadLength, PayloadLength, ReadLength, FrameKey, TooBig,
        Pending, NextFrames, Whole, Payloads, SameOutside, FramesWithin, OthersWithin, WholeOrLast;
      ghost var stream := buf[..bp] + wire.rest;
      Untouched(dst[..], off);
      OutsideFrame(State(), wire.rest);
      n := CompleteHead();
      OutsideFrame(State(), wire.rest);
      if n < 1 {
        return;
      }
      var need := HeadLength(buf[1]);
      var head := buf[..need];
      HeaderPrefix(head, stream);
      if TooBig(head) {
        n := -1;
        return;
      }
      var len := ReadLength(head);
      ReadLengthExact(stream);
      var atLeast := Min(need + len, buf.Length);
      n := FillUpTo(atLeast, atLeast);
      OutsideFrame(State(), wire.rest);
      if n < 1 {
        return;
      }
      assert buf[..need] == head;
      n := FinishStart(dst, off, readLen, need, len, IsMasked(buf[1]), atLeast - need, stream);
    }

    method FinishStart(dst: array<byte>, off: nat, readLen: nat, need: nat, len: nat, mask: bool, payload: nat,
                       ghost stream: seq<byte>)
      returns (n: nat)
      requires Valid() && !InFrame(flags) && dst != buf && dst.Length >= off + readLen
      requires stream == buf[..bp] + wire.rest && need + payload <= bp
      requires HeadThere(stream) && !TooBig(stream) && Supported(stream)
      requires need == HeadLength(stream[1]) && mask == IsMasked(stream[1]) && len == PayloadLength(stream)
      requires need + payload == Min(need + len, buf.Length)
      modifies this, buf, dst
      ensures Valid() && n <= readLen
      ensures Payloads(stream) == dst[off..off + n] + Owed() && Supported(Later())
      ensures SameOutside(dst[..], old(dst[..]), off, off + n)
      ensures FramesWithin(stream, buf.Length) ==> Whole(State()) && FramesWithin(Later(), buf.Length)
      ensures OthersWithin(stream, buf.Length) ==> WholeOrLast(State(), wire.rest) && OthersWithin(Later(), buf.Length)
      ensures GET_F_FT(flags) == old(GET_F_FT(flags)) && Bit(flags, F_IN_BIN) == old(Bit(flags, F_IN_BIN))
    {
      hide Bit, InFrame, Masked, GET_F_FT, Unmask, GET_MASK_ID, PayloadLength, TooBig, Pending, NextFrames, Whole,
        HeadLength, FrameKey,
        Like, Payloads, IsMasked, HeadThere, Supported, FramesWithin, AfterStart, OthersWithin, WholeOrLast;
      ghost var b, bl := buf[..bp], buf.Length;
      KeyPosition(stream);
      assert b[need..need + payload] == buf[need..need + payload] && b[need + payload..] == buf[need + payload..bp];
      if mask {
        InFirst(b, wire.rest, need - 4, need);
        BufferPart(buf, bp, need - 4, need);
      }
      assert b[need..] == buf[need..bp];
      n := TakeFrame(dst, off, readLen, need, len, mask, payload);
      Started(stream, b, wire.rest, need, len, mask, payload, n, State(), bl);
    }

    /** WS_recv_data. The stream of payload bytes is conserved: what the call hands over is the
        beginning of what was owed, and the rest is still owed. The one exception is a read in
        the middle of a frame that returns more than the call may hand over; it cannot happen
        while every frame fits the buffer, nor while all but the last one do and the caller asks
        for a buffer full or all that is owed. */
    method RecvData(dst: array<byte>, off: nat, readLen: nat) returns (n: int)
      requires Valid() && dst != buf && dst.Length >= off + readLen && Supported(Later())
      modifies this, buf, dst, wire
      ensures Valid() && n <= readLen
      ensures SameOutside(dst[..], old(dst[..]), off, off + Count(n))
      ensures !Overread(old(State()), |old(wire.rest)| - |wire.rest|, readLen)
        ==> old(Owed()) == dst[off..off + Count(n)] + Owed() && Supported(Later())
      ensures old(Whole(State()) && FramesWithin(Later(), buf.Length))
        ==> !Overread(old(State()), |old(wire.rest)| - |wire.rest|, readLen)
            && Whole(State()) && FramesWithin(Later(), buf.Length)
      ensures readLen >= Min(buf.Length, |old(Owed())|) && old(AwaitsLast())
        ==> !Overread(old(State()), |old(wire.rest)| - |wire.rest|, readLen) && AwaitsLast()
    {
      hide Bit, InFrame, Masked, GET_F_FT, Unmask, GET_MASK_ID, Pending, NextFrames, SameOutside, Supported,
        FramesWithin, Payloads, OthersWithin, WholeOrLast;
      if InFrame(flags) && bp > 0 {
        n := FromBuffer(dst, off, readLen);
        return;
      }
      ghost var rx, w := State(), wire.rest;
      Untouched(dst[..], off);
      if bp == 0 {
        n := ReadMore();
        if n < 1 {
          return;
        }
      }
      if InFrame(flags) {
        LastFrame(rx, w, buf[..bp], wire.rest);
        n := MidFrame(dst, off, readLen, rx);
      } else {
        OutsideFrame(rx, w);
        OutsideFrame(State(), wire.rest);
        assert rx.buf + w == buf[..bp] + wire.rest;
        n := StartFrame(dst, off, readLen);
      }
    }

    /** There is content of a frame in the buffer that has not been picked up yet. */
    method FromBuffer(dst: array<byte>, off: nat, readLen: nat) returns (n: nat)
      requires Valid() && InFrame(flags) && bp > 0
      requires dst != buf && dst.Length >= off + readLen
      modifies this, buf, dst
      ensures Valid() && n <= readLen && SameOutside(dst[..], old(dst[..]), off, off + n)
      ensures old(Owed()) == dst[off..off + n] + Owed() && Later() == old(Later())
      ensures old(Whole(State())) ==> Whole(State())
      ensures old(WholeOrLast(State(), wire.rest)) ==> WholeOrLast(State(), wire.rest)
      ensures old(State()).buf != []
    {
      hide Bit, InFrame, Masked, GET_MASK_ID, Pending, NextFrames, AfterDelivery, SameOutside;
      n := DeliverBuffered(dst, off, readLen);
      DeliveryConserves(old(State()), wire.rest, n);
      StillWhole(old(State()), n, wire.rest);
    }

    /** The buffer is empty: whatever the wire has, up to the size of the buffer. */
    method ReadMore() returns (n: int)
      requires Valid() && bp == 0
      modifies this`bp, buf, wire
      ensures Valid() && (n < 1 ==> bp == 0 && wire.rest == old(wire.rest))
      ensures n >= 1 ==> bp == n && old(wire.rest) == buf[..bp] + wire.rest
    {
      ghost var w := wire.rest;
      n := wire.Recv(buf, 0, buf.Length);
      if n >= 1 {
        bp := n;
        assert buf[..bp] == w[..n];
      }
    }

    /** New content in the middle of a frame. */
    method MidFrame(dst: array<byte>, off: nat, readLen: nat, ghost rx: Rx) returns (n: nat)
      requires Valid() && InFrame(flags) && bp > 0 && rx == State().(buf := [])
      requires dst != buf && dst.Length >= off + readLen
      modifies this, dst
      ensures Valid() && n <= readLen && SameOutside(dst[..], old(dst[..]), off, off + n)
      ensures old(bp) <= Min(readLen, rx.left) ==>
        Pending(rx, old(buf[..bp]) + wire.rest) == dst[off..off + n] + Owed()
        && NextFrames(rx, old(buf[..bp]) + wire.rest) == Later()
      ensures old(bp) <= Min(readLen, rx.left) && Later() == [] ==> WholeOrLast(State(), wire.rest)
    {
      hide Bit, InFrame, Masked, GET_MASK_ID, Pending, NextFrames, AfterRefill, SameOutside, Unmask;
      ghost var chunk := buf[..bp];
      n := DeliverNew(dst, off, readLen);
      if |chunk| <= Min(readLen, rx.left) {
        assert old(buf[..n]) == chunk[..n] == chunk;
        SameRefill(old(State()), rx, chunk, n);
        RefillConserves(rx, chunk, wire.rest);
      }
    }

    /** The server's loop around it (Rserv.c:2544-2548): it collects plen bytes, at most maxChunk
        at a time, until a call returns nothing. What it has is the beginning of what was owed, if
        the frames fit the buffer, or if only the last one may not and the client sends no more
        than was asked for. */
    method ReadBody(body: array<byte>, plen: nat, maxChunk: nat) returns (i: nat)
      requires Valid() && body != buf && body.Length >= plen && Supported(Later())
      requires || (Whole(State()) && FramesWithin(Later(), buf.Length))
               || (AwaitsLast() && maxChunk >= buf.Length && plen >= |Owed()|)
      modifies this, buf, body, wire
      ensures Valid() && i <= plen && Supported(Later())
      ensures old(Owed()) == body[..i] + Owed()
      ensures old(Whole(State()) && FramesWithin(Later(), buf.Length))
        ==> Whole(State()) && FramesWithin(Later(), buf.Length)
      ensures maxChunk >= buf.Length && plen >= |old(Owed())| && old(AwaitsLast()) ==> AwaitsLast()
    {
      hide Bit, InFrame, Masked, GET_F_FT, Unmask, GET_MASK_ID, Pending, NextFrames, Supported, FramesWithin, Whole,
        AwaitsLast;
      ghost var whole := Whole(State()) && FramesWithin(Later(), buf.Length);
      ghost var last := AwaitsLast() && maxChunk >= buf.Length && plen >= |Owed()|;
      i := 0;
      var rn := 1;
      while true
        invariant Valid() && i <= plen && Supported(Later())
        invariant whole ==> Whole(State()) && FramesWithin(Later(), buf.Length)
        invariant last ==> AwaitsLast()
        invariant old(Owed()) == body[..i] + Owed()
        decreases plen - i
      {
        ghost var sofar := body[..i];
        assert last ==> plen - i >= |Owed()|;
        rn := RecvData(body, i, Min(plen - i, maxChunk));
        assert body[..i] == sofar;
        assert body[..i + Count(rn)] == sofar + body[i..i + Count(rn)];
        if rn > 0 {
          i := i + rn;
        }
        if i >= plen || rn < 1 {
          break;
        }
      }
    }
  }

  /** What is in a buffer of which a part behind a header was replaced. */
  lemma MaskedPart(b: seq<byte>, m: seq<byte>, need: nat, payload: nat, bp: nat, u: seq<byte>)
    requires 4 <= need && need + payload <= bp <= |b| && |u| == payload
    requires m == b[..need] + u + b[need + payload..]
    ensures |m| == |b| && m[need - 4..need] == b[need - 4..need] && m[need..bp] == u + b[need + payload..bp]
  {
    assert forall i :: 0 <= i < need ==> m[i] == b[i];
  }

  lemma TakenLike(rx: Rx, body: seq<byte>, len: nat, mask: bool, key: Key, got: nat, extra: seq<byte>, n: nat)
    requires n <= got <= len && got <= |body| && rx.buf == Unmask(body[..got], mask, key, 0)[n..] + extra
    requires rx.inFrame == (n < len)
    requires n < len ==> rx.left == len - n && rx.masked == mask && (mask ==> rx.phase == got % 4 && rx.key == key)
    ensures Like(rx, AfterStart(body, len, mask, key, got, extra, n, got % 4))
  {
    hide Unmask;
  }

  lemma KeyPosition(b: seq<byte>)
    requires HeadThere(b)
    ensures IsMasked(b[1]) ==> HeadLength(b[1]) >= 6 && FrameKey(b) == b[HeadLength(b[1]) - 4..HeadLength(b[1])]
    ensures !IsMasked(b[1]) ==> FrameKey(b) == [0, 0, 0, 0]
  {
  }

  lemma LowNibble(x: byte)
    ensures x % 128 % 16 == x % 16
  {
  }

  /** What starting a frame does to the stream. */
  lemma Started(stream: seq<byte>, b: seq<byte>, wire: seq<byte>, need: nat, len: nat, mask: bool, payload: nat,
                n: nat, rx: Rx, bl: nat)
    requires stream == b + wire && n <= payload && need + payload <= |b|
    requires HeadThere(stream) && !TooBig(stream) && Supported(stream)
    requires need == HeadLength(stream[1]) && mask == IsMasked(stream[1]) && len == PayloadLength(stream)
    requires need + payload == Min(need + len, bl) && (payload < len ==> |b| == need + payload)
    requires Like(rx, AfterStart(b[need..], len, mask, FrameKey(stream), payload, b[need + payload..], n, payload % 4))
    ensures Payloads(stream) == Unmask(b[need..need + payload], mask, FrameKey(stream), 0)[..n] + Pending(rx, wire)
    ensures Supported(NextFrames(rx, wire))
    ensures FramesWithin(stream, bl) ==> Whole(rx) && FramesWithin(NextFrames(rx, wire), bl)
    ensures OthersWithin(stream, bl) ==> WholeOrLast(rx, wire) && OthersWithin(NextFrames(rx, wire), bl)
  {
    hide Unmask, PayloadLength, TooBig, Pending, NextFrames, Whole, HeadLength, FrameKey, FramePayloads, IsMasked, Like;
    var body, key, extra := stream[need..], FrameKey(stream), b[need + payload..];
    Slices(b, wire, need, payload);
    StartConserves(body, len, mask, key, payload, extra, wire, n, payload % 4);
    LikePending(rx, AfterStart(body, len, mask, key, payload, extra, n, payload % 4), wire);
    StreamBehind(stream, need, len);
    StartedLast(stream, need, len, payload, rx, wire, bl);
  }

  /** A frame that does not fit the buffer is the last one if all others fit. */
  lemma StartedLast(stream: seq<byte>, need: nat, len: nat, payload: nat, rx: Rx, wire: seq<byte>, bl: nat)
    requires HeadThere(stream) && !TooBig(stream) && need <= |stream|
    requires need == HeadLength(stream[1]) && len == PayloadLength(stream)
    requires payload <= len && need + payload == Min(need + len, bl) && (payload == len ==> Whole(rx))
    requires NextFrames(rx, wire) == if |stream| >= need + len then stream[need + len..] else []
    ensures OthersWithin(stream, bl) ==> WholeOrLast(rx, wire) && OthersWithin(NextFrames(rx, wire), bl)
  {
    hide PayloadLength, TooBig, NextFrames, HeadLength;
    if |stream| <= need + len {
      assert NextFrames(rx, wire) == [];
      assert !HeadThere([]);
    }
  }

  lemma Slices(b: seq<byte>, wire: seq<byte>, need: nat, payload: nat)
    requires need + payload <= |b|
    ensures var body := (b + wire)[need..];
      && b[need..][..payload] == body[..payload] == b[need..need + payload]
      && body[payload..] == b[need + payload..] + wire
  {
  }

  lemma BufferPart(a: array<byte>, n: nat, i: nat, j: nat)
    requires i <= j <= n <= a.Length
    ensures a[..n][i..j] == a[i..j]
  {
    forall k | 0 <= k < j - i
      ensures a[..n][i..j][k] == a[i..j][k]
    {
      assert a[..n][i + k] == a[i + k];
    }
  }

  lemma InFirst(a: seq<byte>, b: seq<byte>, i: nat, j: nat)
    requires i <= j <= |a|
    ensures (a + b)[i..j] == a[i..j]
  {
  }

  lemma StreamBehind(stream: seq<byte>, need: nat, len: nat)
    requires need <= |stream|
    ensures |stream| >= need + len ==> stream[need..][len..] == stream[need + len..]
  {
  }

  /** The bytes handed over by a call with this result. */
  function Count(n: int): nat { if n < 0 then 0 else n }

  lemma OutsideFrame(rx: Rx, wire: seq<byte>)
    requires !rx.inFrame
    ensures Pending(rx, wire) == Payloads(rx.buf + wire) && NextFrames(rx, wire) == rx.buf + wire && Whole(rx)
    ensures WholeOrLast(rx, wire)
  {
  }

  /** A complete header is known from its own bytes. */
  lemma HeaderPrefix(head: seq<byte>, stream: seq<byte>)
    requires |head| >= 2 && |head| == HeadLength(head[1]) && head <= stream
    ensures HeadThere(head) && HeadThere(stream) && head[1] == stream[1]
    ensures TooBig(stream) == TooBig(head) && ReadLength(stream) == ReadLength(head)
  {
  }

  /** A wire read of c bytes in the middle of a frame, with the buffer empty, that is more than
      the caller may get. */
  predicate Overread(rx: Rx, c: int, readLen: nat)
  {
    rx.inFrame && rx.buf == [] && c > Min(readLen, rx.left)
  }

  lemma SameRefill(a: Rx, b: Rx, chunk: seq<byte>, n: nat)
    requires a.inFrame && b == a.(buf := []) && n <= |chunk| && n <= a.left
    ensures AfterRefill(a, chunk, n) == AfterRefill(b, chunk, n)
  {
  }

  lemma StillWhole(rx: Rx, n: nat, wire: seq<byte>)
    requires rx.inFrame && n <= |rx.buf| && n <= rx.left
    ensures Whole(rx) ==> Whole(AfterDelivery(rx, n))
    ensures WholeOrLast(rx, wire) ==> WholeOrLast(AfterDelivery(rx, n), wire)
  {
  }

  /** The rest of the last frame is all there is to read. */
  lemma LastFrame(rx: Rx, w: seq<byte>, chunk: seq<byte>, rest: seq<byte>)
    requires rx.inFrame && rx.left > 0 && rx.buf == [] && w == chunk + rest
    ensures WholeOrLast(rx, w) ==> NextFrames(rx, w) == [] && |chunk| <= rx.left && |chunk| <= |Pending(rx, w)|
  {
    hide Unmask;
  }
}
