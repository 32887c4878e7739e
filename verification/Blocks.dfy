/** What MD5 and SHA-1 have in common: a message is padded to blocks of 64 bytes, which are
    folded into a small state one after the other. */
module Blocks {
  type Block = b: seq<bv8> | |b| == 64 witness seq(64, _ => 0)

  // ---- words ----

  const B := 0x1_0000_0000
  const BB := 0x1_0000_0000_0000_0000

  lemma Remainder(x: nat, q: nat, r: nat)
    requires x == q * BB + r && r < BB
    ensures x % BB == r
  {
  }

  function Rotate(w: bv32, s: nat): bv32
    requires s <= 32
  {
    (w << s) | (w >> (32 - s))
  }

  /** Addition of words is modulo 2^32. */
  function Add(x: bv32, y: bv32): bv32 { x + y }

  /** Bit number k, the lowest one being number 0. */
  predicate Bit(w: bv32, k: bv32)
    requires k < 32
  {
    w & (1 << k) != 0
  }

  /** The logical functions of both standards, bit by bit: a choice, the parity, the majority, and
      the fourth one of MD5. */
  lemma ChoiceBits(x: bv32, y: bv32, z: bv32, k: bv32)
    requires k < 32
    ensures Bit((x & y) | (!x & z), k) == if Bit(x, k) then Bit(y, k) else Bit(z, k)
  {
  }

  lemma ParityBits(x: bv32, y: bv32, z: bv32, k: bv32)
    requires k < 32
    ensures Bit(x ^ y ^ z, k) == (Bit(x, k) != (Bit(y, k) != Bit(z, k)))
  {
  }

  lemma MajorityBits(x: bv32, y: bv32, z: bv32, k: bv32)
    requires k < 32
    ensures Bit((x & y) | (x & z) | (y & z), k) == if Bit(x, k) then Bit(y, k) || Bit(z, k) else Bit(y, k) && Bit(z, k)
  {
  }

  lemma FourthBits(x: bv32, y: bv32, z: bv32, k: bv32)
    requires k < 32
    ensures Bit(y ^ (x | !z), k) == (Bit(y, k) != (Bit(x, k) || !Bit(z, k)))
  {
  }

  function ByteOf(n: nat): bv8 { (n % 0x100) as bv8 }

  // ---- blocks ----

  /** The state after all blocks of m, starting from s. */
  function Fold<S>(f: (S, Block) -> S, s: S, m: seq<bv8>): S
    requires |m| % 64 == 0
    decreases |m|
  {
    if m == [] then s else f(Fold(f, s, m[..|m| - 64]), m[|m| - 64..])
  }

  lemma FoldOne<S>(f: (S, Block) -> S, s: S, m: seq<bv8>, b: Block)
    requires |m| % 64 == 0
    ensures Fold(f, s, m + b) == f(Fold(f, s, m), b)
  {
    assert (m + b)[..|m + b| - 64] == m && (m + b)[|m + b| - 64..] == b;
  }

  /** One bit 1 and bits 0 up to 448 modulo 512 bits (RFC 1321, section 3.1; FIPS 180-1,
      section 4): at least one byte, at most a whole block. */
  function Padding(n: nat): (p: seq<bv8>)
    ensures 1 <= |p| <= 64 && (n + |p|) % 64 == 56
  {
    [0x80] + seq((119 - n % 64) % 64, _ => 0)
  }

  /** The whole blocks of a message and what is left over. */
  function Whole(m: seq<bv8>): (w: seq<bv8>)
    ensures |w| % 64 == 0
  {
    m[..|m| - |m| % 64]
  }

  function Tail(m: seq<bv8>): (t: seq<bv8>)
    ensures |t| == |m| % 64
    ensures m == Whole(m) + t
  {
    m[|m| - |m| % 64..]
  }

  function Zeros(n: nat): (z: seq<bv8>)
    ensures |z| == n
  {
    seq(n, _ => 0)
  }

  /** The message with its padding is its whole blocks and 56 bytes more. */
  lemma PaddedOnce(m: seq<bv8>)
    requires |m| % 64 <= 55
    ensures m + Padding(|m|) == Whole(m) + (Tail(m) + [0x80] + Zeros(55 - |m| % 64))
  {
  }

  /** Or another block and 56 bytes more, if the tail leaves no room for the length. */
  lemma PaddedTwice(m: seq<bv8>)
    requires |m| % 64 > 55
    ensures m + Padding(|m|) == Whole(m) + (Tail(m) + [0x80] + Zeros(63 - |m| % 64)) + Zeros(56)
  {
  }

  lemma Filled(n: nat, p: nat)
    requires (n + p) % 64 == 56
    ensures (n + p + 8) % 64 == 0
  {
  }

  // ---- memory ----

  method Copy(mem: array<bv8>, at: nat, s: seq<bv8>)
    requires at + |s| <= mem.Length
    modifies mem
    ensures mem[..] == old(mem[..at]) + s + old(mem[at + |s|..])
  {
    for i := 0 to |s|
      invariant mem[..at] == old(mem[..at])
      invariant mem[at..at + i] == s[..i]
      invariant mem[at + i..] == old(mem[at + i..])
    {
      mem[at + i] := s[i];
      assert mem[at..at + i + 1] == mem[at..at + i] + [s[i]];
    }
    assert mem[..] == mem[..at] + mem[at..at + |s|] + mem[at + |s|..];
  }

  method Clear(mem: array<bv8>, at: nat, n: nat)
    requires at + n <= mem.Length
    modifies mem
    ensures mem[..] == old(mem[..at]) + Zeros(n) + old(mem[at + n..])
  {
    for i := 0 to n
      invariant mem[..at] == old(mem[..at])
      invariant mem[at..at + i] == Zeros(i)
      invariant mem[at + i..] == old(mem[at + i..])
    {
      mem[at + i] := 0;
      assert mem[at..at + i + 1] == mem[at..at + i] + [0];
    }
    assert mem[..] == mem[..at] + mem[at..at + n] + mem[at + n..];
  }
}
