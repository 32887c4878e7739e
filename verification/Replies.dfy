/** The server's reply to an evaluation: the send buffer, whether a value fits it, and the parameter
    that goes out (Rserv.c:3232-3316). */
module Replies {
  import opened Bytes
  import opened Rsrv
  import opened Sexps
  import opened QapLayout
  import opened QapEncode
  import opened QapSizes
  import opened Params

  const DT_SEXP := 10
  /** The size of the send buffer of a new connection, and the least one a client can set. */
  const SND_BS := 2048 * 1024
  const MIN_BS := 32768

  /** The estimate and a quarter of it. */
  function Margin(x: Sexp): nat { Storage(x) + Storage(x) / 4 }

  /** What a larger buffer is allocated with: 64 bytes more, and then at least one up to a whole
      number of pages. */
  function TempSize(rs: nat): (n: nat)
    ensures n > rs + 64 && n % 4096 == 0
  {
    (rs + 64) / 4096 * 4096 + 4096
  }

  /** The bytes from offset 8 on fit a buffer of so many bytes. */
  predicate Fits(x: Sexp, room: nat) { 8 + SizeAs(x, Margin(x)) <= room }

  /** The margin makes up for one-element raw and logical vectors as long as there are not too
      many of them. */
  predicate WithinMargin(x: Sexp) { 4 * Shorts(x) <= Storage(x) / 4 + 52 }

  lemma MarginSuffices(x: Sexp, room: nat)
    requires IsR(x) && WithinMargin(x) && room >= Margin(x) + 64
    ensures Fits(x, room)
  {
    hide Storage, Payload, Shorts;
    SizeBound(x);
  }

  /** A list of single logicals fits the buffer of a new connection, or the one allocated in its
      place, exactly if there are fewer than 174762 of them. */
  lemma FlagsFit(n: nat)
    ensures var rs := Margin(Flags(n));
      Fits(Flags(n), if rs > SND_BS - 64 then TempSize(rs) else SND_BS) <==> n < 174762
  {
    hide Flags, Storage, Payload;
    FlagsMeasured(n);
  }

  /** What the client gets, if anything: the bytes [from, to) of m. */
  datatype Reply = Sent(m: seq<byte>, from: nat, to: nat) | TooBig | Overrun

  class SendBuffer {
    var buf: array<byte>
    /** sendBufSize */
    var size: nat
    /** maxSendBufSize; 0 is no limit. */
    const max: nat

    constructor (max: nat)
      ensures Valid() && fresh(buf) && buf.Length == size == 0x20_0000 && this.max == max
    {
      buf, size, this.max := new byte[SND_BS], SND_BS, max;
    }

    ghost predicate Valid()
      reads this
    {
      buf.Length >= MIN_BS && size >= MIN_BS
    }

    /** CMD_setBufferSize (Rserv.c:2888-2902): the new buffer is allocated before the size is
        updated, so it is as long as the size says exactly if that does not change. */
    method SetBufferSize(ns: nat)
      requires Valid()
      modifies this
      ensures Valid() && size == if ns == 0 then old(size) else if ns < 32768 then 32768 else ns
      ensures buf.Length == if ns == 0 then old(buf.Length) else old(size)
      ensures ns == 0 ==> buf == old(buf)
      ensures ns > 0 ==> fresh(buf) && (buf.Length == size <==> size == old(size))
    {
      if ns > 0 {
        var n := ns;
        if n < MIN_BS {
          n := MIN_BS;
        }
        buf := new byte[size];
        size := n;
      }
    }

    /** The reply with a value. Nothing is stored if it may not be, or if there is no memory;
        Overrun stands for what happens when the value is longer than the buffer. Otherwise one
        parameter goes out, whose length is that of the stored value. */
    method SendValue(x: Sexp, memory: bool) returns (r: Reply)
      requires Valid() && IsR(x) && SizeAs(x, Margin(x)) < LEN56
      modifies this, buf
      ensures Valid() && size == old(size) && (buf == old(buf) || (fresh(buf) && buf.Length == size))
      ensures var large, rs := Margin(x) > size - 64, Margin(x);
        && (r.TooBig? <==> large && ((max != 0 && rs + 64 > max) || !memory))
        && (r.Overrun? <==> !r.TooBig? && !Fits(x, if large then TempSize(rs) else old(buf.Length)))
      ensures WithinMargin(x) && old(buf.Length) >= size ==> !r.Overrun?
      ensures r.Sent? ==>
        && r.from + 8 <= r.to <= |r.m|
        && EntryAt(r.m, r.from) == Entry(10, r.to - 8, 8) && r.to == 8 + SizeAs(x, Margin(x))
        && Stored(x, Margin(x), r.m, 8)
    {
      hide Storage, Payload, Shorts, IsR, WithinMargin, Stored, SizeAs, EntryAt;
      var rs := GetStorageSize(x);
      rs := rs + rs / 4;
      assert rs == Margin(x);
      if WithinMargin(x) && (rs <= size - 64 ==> buf.Length >= size) {
        MarginSuffices(x, if rs > size - 64 then TempSize(rs) else buf.Length);
      }
      var temp := false;
      if rs > size - 64 {
        if max != 0 && rs + 64 > max {
          return TooBig;
        }
        if !memory {
          buf := new byte[size];
          return TooBig;
        }
        buf, temp := new byte[TempSize(rs)], true;
      }
      if 8 + SizeAs(x, rs) > buf.Length {
        r := Overrun;
      } else {
        r := StoreReply(buf, x, rs);
      }
      if temp {
        buf := new byte[size];
      }
    }
  }

  /** Stores the value from offset 8 on and the parameter header right before it. */
  method StoreReply(buf: array<byte>, x: Sexp, rs: nat) returns (r: Reply)
    requires IsR(x) && rs == Margin(x) && 8 + SizeAs(x, rs) <= buf.Length && SizeAs(x, rs) < LEN56
    modifies buf
    ensures r.Sent? && r.from + 8 <= r.to <= |r.m|
    ensures EntryAt(r.m, r.from) == Entry(DT_SEXP, r.to - 8, 8) && r.to == 8 + SizeAs(x, rs)
    ensures Stored(x, rs, r.m, 8)
  {
    hide Storage, Payload, IsR, Stored, WordAt, SizeAs;
    assert Expected(x, rs) == rs by { assert Storage(x) >= 4; }
    var tail := StoreSexp(buf, 8, x, rs);
    ghost var m1 := buf[..];
    var ll := tail - 8;
    var sendhead := 4;
    if ll > LARGE_LIMIT {
      PutWord(buf, 0, SET_PAR(DT_SEXP + XT_LARGE, ll));
      ghost var m2 := buf[..];
      PutWord(buf, 4, ll / LEN24);
      WordsFrame(m2, buf[..], 0, 1);
      sendhead := 0;
    } else {
      PutWord(buf, 4, SET_PAR(DT_SEXP, ll));
    }
    HeadEntry(buf[..], ll);
    StoredFrame(x, rs, m1, buf[..], 8);
    r := Sent(buf[..], sendhead, tail);
  }

  lemma HeadEntry(m: seq<byte>, ll: nat)
    requires |m| >= 12 && ll < LEN56
    requires if ll > LARGE_LIMIT then WordAt(m, 0) == SET_PAR(DT_SEXP + XT_LARGE, ll) && WordAt(m, 4) == ll / LEN24
             else WordAt(m, 4) == SET_PAR(DT_SEXP, ll)
    ensures EntryAt(m, if ll > LARGE_LIMIT then 0 else 4) == Entry(DT_SEXP, ll, 8)
  {
    hide WordAt;
    assert ll % LEN24 + ll / LEN24 * LEN24 == ll;
  }
}
