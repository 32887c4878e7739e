/** Bytes, 32-bit words and their little-endian ("Intel") layout, the byte order of
    every integer in a QAP1 message. */
module Bytes {
  type byte = b: int | 0 <= b < 0x100
  type word = w: int | 0 <= w < 0x1_0000_0000

  /** The largest length a single length field of type R_len_t (a signed 32-bit int) can hold. */
  const MAX_INT32 := 0x7fff_ffff

  /** The word whose four bytes start at offset o. */
  function WordAt(m: seq<byte>, o: nat): (w: word)
    requires o + 4 <= |m|
  {
    m[o] as int + 0x100 * m[o + 1] as int + 0x1_0000 * m[o + 2] as int + 0x100_0000 * m[o + 3] as int
  }

  function WordBytes(w: word): (b: seq<byte>)
    ensures |b| == 4
  {
    [w % 0x100, w / 0x100 % 0x100, w / 0x1_0000 % 0x100, w / 0x100_0000]
  }

  /** A word determines its four bytes. */
  lemma WordDigits(w: word, b0: byte, b1: byte, b2: byte, b3: byte)
    requires w == b0 as int + 0x100 * b1 as int + 0x1_0000 * b2 as int + 0x100_0000 * b3 as int
    ensures WordBytes(w) == [b0, b1, b2, b3]
  {
    var r1 := b1 as int + 0x100 * b2 as int + 0x1_0000 * b3 as int;
    var r2 := b2 as int + 0x100 * b3 as int;
    assert w == b0 + 0x100 * r1 && r1 == b1 + 0x100 * r2;
    assert w / 0x100 == r1;
    assert r1 / 0x100 == r2;
    assert w / 0x1_0000 == r2 && w / 0x100_0000 == b3;
  }

  /** Reading back the four bytes of a word gives the word. */
  lemma WordRead(m: seq<byte>, o: nat, w: word)
    requires o + 4 <= |m| && m[o..o + 4] == WordBytes(w)
    ensures WordAt(m, o) == w
  {
    var b := m[o..o + 4];
    assert b[0] == m[o] && b[1] == m[o + 1] && b[2] == m[o + 2] && b[3] == m[o + 3];
    var r1, r2 := w / 0x100, w / 0x1_0000;
    assert r2 == r1 / 0x100 && w / 0x100_0000 == r2 / 0x100;
  }

  /** Stores a word, as an assignment through an unsigned int pointer does. */
  method PutWord(mem: array<byte>, o: nat, w: word)
    requires o + 4 <= mem.Length
    modifies mem
    ensures WordAt(mem[..], o) == w
    ensures mem[o..o + 4] == WordBytes(w)
    ensures forall i :: 0 <= i < mem.Length && !(o <= i < o + 4) ==> mem[i] == old(mem[i])
  {
    mem[o] := w % 0x100;
    mem[o + 1] := w / 0x100 % 0x100;
    mem[o + 2] := w / 0x1_0000 % 0x100;
    mem[o + 3] := w / 0x100_0000;
    assert mem[..][o..o + 4] == mem[o..o + 4] == WordBytes(w);
    WordRead(mem[..], o, w);
  }

  /** The next multiple of four. */
  function Align(n: nat): (r: nat)
    ensures r % 4 == 0 && n <= r < n + 4
  {
    (n + 3) / 4 * 4
  }

  /** Two memories hold the same bytes on [o, e). */
  ghost predicate SameOn(m: seq<byte>, m': seq<byte>, o: nat, e: nat)
  {
    && e <= |m| && e <= |m'|
    && forall i {:trigger m[i]} {:trigger m'[i]} :: o <= i < e ==> m[i] == m'[i]
  }

  lemma SliceOfSlice(m: seq<byte>, c: nat, e: nat, i: nat, j: nat)
    requires c <= e <= |m| && i <= j <= e - c
    ensures m[c..e][i..j] == m[c + i..c + j]
  {
    var s := m[c..e];
    forall k | 0 <= k < j - i
      ensures s[i..j][k] == m[c + i..c + j][k]
    {
      assert s[i + k] == m[c + (i + k)];
    }
  }
}
