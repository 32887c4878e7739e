/** The client's packet headers (RTalk.java). */
module RTalk {
  import opened Bytes
  import opened Rsrv

  /** setInt: four bytes in Intel-endian form. */
  method SetInt(v: word, buf: array<byte>, o: nat)
    requires o + 4 <= buf.Length
    modifies buf
    ensures WordAt(buf[..], o) == v
    ensures forall i :: 0 <= i < buf.Length && !(o <= i < o + 4) ==> buf[i] == old(buf[i])
  {
    buf[o] := v % 0x100;
    buf[o + 1] := v / 0x100 % 0x100;
    buf[o + 2] := v / 0x1_0000 % 0x100;
    buf[o + 3] := v / 0x100_0000;
    assert buf[..][o..o + 4] == WordBytes(v);
    WordRead(buf[..], o, v);
  }

  /** setLong: the low half first. */
  method SetLong(lo: word, hi: word, buf: array<byte>, o: nat)
    requires o + 8 <= buf.Length
    modifies buf
    ensures WordAt(buf[..], o) == lo && WordAt(buf[..], o + 4) == hi
    ensures forall i :: 0 <= i < buf.Length && !(o <= i < o + 8) ==> buf[i] == old(buf[i])
  {
    SetInt(lo, buf, o);
    SetInt(hi, buf, o + 4);
  }

  /** setHdr: the type with the large flag if needed, then three or seven bytes of length. */
  method SetHdr(ty: byte, len: nat, buf: array<byte>, o: nat) returns (end: nat)
    requires ty + XT_LARGE < 0x100 && !IS_LARGE(ty) && len <= MAX_INT32
    requires o + (if len > LARGE_LIMIT then 8 else 4) <= buf.Length
    modifies buf
    ensures end == o + if len > LARGE_LIMIT then 8 else 4
    ensures len <= LARGE_LIMIT ==> WordAt(buf[..], o) == SET_PAR(ty, len)
    ensures len > LARGE_LIMIT ==>
              WordAt(buf[..], o) == SET_PAR(ty + XT_LARGE, len) && WordAt(buf[..], o + 4) == len / LEN24
    ensures forall i :: 0 <= i < buf.Length && !(o <= i < end) ==> buf[i] == old(buf[i])
  {
    buf[o] := ty + if len > LARGE_LIMIT then XT_LARGE else 0;
    buf[o + 1] := len % 0x100;
    buf[o + 2] := len / 0x100 % 0x100;
    buf[o + 3] := len / 0x1_0000 % 0x100;
    end := o + 4;
    LowBytes(len);
    if len > LARGE_LIMIT {
      buf[o + 4] := len / 0x100_0000;
      buf[o + 5] := 0;
      buf[o + 6] := 0;
      buf[o + 7] := 0;
      end := o + 8;
    }
  }

  lemma LowBytes(len: nat)
    ensures len % LEN24 == len % 0x100 + 0x100 * (len / 0x100 % 0x100) + 0x1_0000 * (len / 0x1_0000 % 0x100)
  {
    var a := len / 0x100;
    var b := a / 0x100;
    var c := b / 0x100;
    assert len / 0x1_0000 == b;
    Digits(c, len % 0x100, a % 0x100, b % 0x100);
    assert len == LEN24 * c + (len % 0x100 + 0x100 * (a % 0x100) + 0x1_0000 * (b % 0x100));
  }

  lemma Digits(c: nat, d0: byte, d1: byte, d2: byte)
    ensures (LEN24 * c + (d0 as int + 0x100 * d1 as int + 0x1_0000 * d2 as int)) % LEN24
         == d0 as int + 0x100 * d1 as int + 0x1_0000 * d2 as int
  {
  }

  /** getLen: the length in a header; the long format is read up to 32 bits. */
  function GetLen(buf: seq<byte>, o: nat): nat
    requires o + 4 <= |buf| && (IS_LARGE(buf[o]) ==> o + 5 <= |buf|)
  {
    buf[o + 1] as int + 0x100 * buf[o + 2] as int + 0x1_0000 * buf[o + 3] as int
    + if IS_LARGE(buf[o]) then 0x100_0000 * buf[o + 4] as int else 0
  }
}
