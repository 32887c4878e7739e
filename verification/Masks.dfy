/** The masking of WebSocket payloads (RFC 6455 section 5.3): exclusive or with a key of four bytes. */
module Masks {
  import opened Bytes

  function Pow2(n: nat): (p: nat)
    ensures p > 0
  {
    if n == 0 then 1 else 2 * Pow2(n - 1)
  }

  /** Exclusive or of the lowest n bits. */
  function XorBits(a: nat, b: nat, n: nat): (r: nat)
    ensures r < Pow2(n)
  {
    if n == 0 then 0
    else (if a % 2 == b % 2 then 0 else 1) + 2 * XorBits(a / 2, b / 2, n - 1)
  }

  function Xor(a: byte, b: byte): byte
  {
    assert Pow2(8) == 0x100;
    XorBits(a, b, 8)
  }

  lemma {:induction false} XorBitsTwice(a: nat, b: nat, n: nat)
    requires a < Pow2(n)
    ensures XorBits(XorBits(a, b, n), b, n) == a
  {
    if n > 0 {
      XorBitsTwice(a / 2, b / 2, n - 1);
      var x := XorBits(a, b, n);
      assert x / 2 == XorBits(a / 2, b / 2, n - 1);
    }
  }

  /** Masking twice with the same key gives the original byte. */
  lemma XorTwice(a: byte, b: byte)
    ensures Xor(Xor(a, b), b) == a
  {
    assert Pow2(8) == 0x100;
    XorBitsTwice(a, b, 8);
  }

  /** Bit k of a number, the lowest one being bit 0. */
  function BitAt(n: nat, k: nat): (b: nat)
    ensures b < 2
  {
    n / Pow2(k) % 2
  }

  lemma HalfBit(n: nat, k: nat)
    ensures BitAt(n, k + 1) == BitAt(n / 2, k)
  {
    var p := Pow2(k);
    var q, r := n / 2 / p, n / 2 % p;
    assert n / 2 == q * p + r && n == 2 * (n / 2) + n % 2;
    assert n == q * (2 * p) + (2 * r + n % 2) && 0 <= 2 * r + n % 2 < 2 * p;
    Quotient(n, 2 * p, q, 2 * r + n % 2);
  }

  lemma Quotient(n: nat, p: nat, q: nat, r: nat)
    requires p > 0 && n == q * p + r && r < p
    ensures n / p == q
  {
    var d := n / p - q;
    assert d * p == r - n % p;
    Multiples(d, p);
  }

  lemma Multiples(d: int, p: nat)
    ensures d > 0 ==> d * p >= p
    ensures d < 0 ==> d * p <= -(p as int)
  {
  }

  lemma {:induction false} XorBitsAt(a: nat, b: nat, n: nat, k: nat)
    requires k < n
    ensures BitAt(XorBits(a, b, n), k) == 1 <==> BitAt(a, k) != BitAt(b, k)
  {
    hide BitAt;
    if k == 0 {
      LowestBit(a);
      LowestBit(b);
      LowestBit(XorBits(a, b, n));
    } else {
      XorBitsAt(a / 2, b / 2, n - 1, k - 1);
      HalfBit(a, k - 1);
      HalfBit(b, k - 1);
      HalfBit(XorBits(a, b, n), k - 1);
    }
  }

  lemma LowestBit(n: nat)
    ensures BitAt(n, 0) == n % 2
  {
  }

  /** r has a bit 1 exactly where a and b differ. */
  ghost predicate IsXor(r: byte, a: byte, b: byte)
  {
    forall k :: 0 <= k < 8 ==> (BitAt(r, k) == 1 <==> BitAt(a, k) != BitAt(b, k))
  }

  lemma XorIsXor(a: byte, b: byte)
    ensures IsXor(Xor(a, b), a, b)
  {
    hide BitAt;
    forall k | 0 <= k < 8
      ensures BitAt(Xor(a, b), k) == 1 <==> BitAt(a, k) != BitAt(b, k)
    {
      XorBitsAt(a, b, 8, k);
    }
  }

  type Key = k: seq<byte> | |k| == 4 witness [0, 0, 0, 0]

  /** The payload bytes s, the first of which is byte number phase (mod 4) of its frame. */
  function Unmask(s: seq<byte>, masked: bool, key: Key, phase: nat): (r: seq<byte>)
    ensures |r| == |s|
  {
    seq(|s|, i requires 0 <= i < |s| => if masked then Xor(s[i], key[(i + phase) % 4]) else s[i])
  }

  /** RFC 6455 section 5.3: octet i of the payload is transformed by octet i modulo 4 of the key, bit
      by bit. */
  lemma UnmaskBits(s: seq<byte>, key: Key, phase: nat)
    ensures forall i :: 0 <= i < |s| ==> IsXor(Unmask(s, true, key, phase)[i], s[i], key[(i + phase) % 4])
  {
    hide Xor, IsXor;
    forall i | 0 <= i < |s|
      ensures IsXor(Unmask(s, true, key, phase)[i], s[i], key[(i + phase) % 4])
    {
      XorIsXor(s[i], key[(i + phase) % 4]);
    }
  }

  function Digit(d: bool): nat { if d then 1 else 0 }

  /** The value of binary digits, the lowest one first. */
  function Value(d: seq<bool>): nat { if d == [] then 0 else Digit(d[0]) + 2 * Value(d[1..]) }

  function Differences(d: seq<bool>, e: seq<bool>): seq<bool>
    requires |d| == |e|
  {
    seq(|d|, i requires 0 <= i < |d| => d[i] != e[i])
  }

  /** Digit by digit, for any number of digits. */
  lemma {:induction false} XorDigits(d: seq<bool>, e: seq<bool>)
    requires |d| == |e|
    ensures XorBits(Value(d), Value(e), |d|) == Value(Differences(d, e))
  {
    if d != [] {
      XorDigits(d[1..], e[1..]);
      assert Value(d) / 2 == Value(d[1..]) && Value(e) / 2 == Value(e[1..]);
      assert Differences(d, e)[1..] == Differences(d[1..], e[1..]);
    }
  }

  lemma EightDigits(d: seq<bool>)
    requires |d| == 8
    ensures Value(d) == Digit(d[0]) + 2 * Digit(d[1]) + 4 * Digit(d[2]) + 8 * Digit(d[3])
                        + 16 * Digit(d[4]) + 32 * Digit(d[5]) + 64 * Digit(d[6]) + 128 * Digit(d[7])
  {
    hide Digit;
    FourDigits(d);
    FourDigits(d[4..]);
    assert d[4..][4..] == [];
  }

  lemma FourDigits(d: seq<bool>)
    requires |d| >= 4
    ensures Value(d) == Digit(d[0]) + 2 * Digit(d[1]) + 4 * Digit(d[2]) + 8 * Digit(d[3]) + 16 * Value(d[4..])
  {
    hide Digit;
    assert d[1..][1..] == d[2..] && d[2..][1..] == d[3..] && d[3..][1..] == d[4..];
    assert Value(d[2..]) == Digit(d[2]) + 2 * (Digit(d[3]) + 2 * Value(d[4..]));
  }

  /** One byte, given by its digits. */
  lemma XorByte(a: byte, d: seq<bool>, b: byte, e: seq<bool>, r: byte)
    requires |d| == 8 == |e|
    requires Value(d) == a && Value(e) == b && Value(Differences(d, e)) == r
    ensures Xor(a, b) == r
  {
    XorDigits(d, e);
  }

  lemma Hello1()
    ensures Xor(0x7f, 0x37) == 0x48
  {
    hide Value, Xor;
    var d := [true, true, true, true, true, true, true, false];
    var e := [true, true, true, false, true, true, false, false];
    EightDigits(d);
    EightDigits(e);
    EightDigits(Differences(d, e));
    XorByte(0x7f, d, 0x37, e, 0x48);
  }

  lemma Hello2()
    ensures Xor(0x9f, 0xfa) == 0x65
  {
    hide Value, Xor;
    var d := [true, true, true, true, true, false, false, true];
    var e := [false, true, false, true, true, true, true, true];
    EightDigits(d);
    EightDigits(e);
    EightDigits(Differences(d, e));
    XorByte(0x9f, d, 0xfa, e, 0x65);
  }

  lemma Hello3()
    ensures Xor(0x4d, 0x21) == 0x6c
  {
    hide Value, Xor;
    var d := [true, false, true, true, false, false, true, false];
    var e := [true, false, false, false, false, true, false, false];
    EightDigits(d);
    EightDigits(e);
    EightDigits(Differences(d, e));
    XorByte(0x4d, d, 0x21, e, 0x6c);
  }

  lemma Hello4()
    ensures Xor(0x51, 0x3d) == 0x6c
  {
    hide Value, Xor;
    var d := [true, false, false, false, true, false, true, false];
    var e := [true, false, true, true, true, true, false, false];
    EightDigits(d);
    EightDigits(e);
    EightDigits(Differences(d, e));
    XorByte(0x51, d, 0x3d, e, 0x6c);
  }

  lemma Hello5()
    ensures Xor(0x58, 0x37) == 0x6f
  {
    hide Value, Xor;
    var d := [false, false, false, true, true, false, true, false];
    var e := [true, true, true, false, true, true, false, false];
    EightDigits(d);
    EightDigits(e);
    EightDigits(Differences(d, e));
    XorByte(0x58, d, 0x37, e, 0x6f);
  }

  /** The example of section 5.7: the key 37 fa 21 3d turns 7f 9f 4d 51 58 into "Hello". */
  lemma HelloUnmasked()
    ensures Unmask([0x7f, 0x9f, 0x4d, 0x51, 0x58], true, [0x37, 0xfa, 0x21, 0x3d], 0) == [0x48, 0x65, 0x6c, 0x6c, 0x6f]
  {
    hide Xor;
    Hello1();
    Hello2();
    Hello3();
    Hello4();
    Hello5();
  }

  // ---- masking in pieces ----

  /** Masking as a client does is undone by unmasking: on the wire a payload is data xor key. */
  lemma UnmaskTwice(s: seq<byte>, key: Key, phase: nat)
    ensures Unmask(Unmask(s, true, key, phase), true, key, phase) == s
  {
    forall i | 0 <= i < |s|
      ensures Unmask(Unmask(s, true, key, phase), true, key, phase)[i] == s[i]
    {
      XorTwice(s[i], key[(i + phase) % 4]);
    }
  }

  /** A payload may be unmasked piece by piece if the phase moves along. */
  lemma UnmaskSplit(s: seq<byte>, t: seq<byte>, masked: bool, key: Key, phase: nat)
    ensures Unmask(s + t, masked, key, phase) == Unmask(s, masked, key, phase) + Unmask(t, masked, key, phase + |s|)
  {
  }

  /** Only the phase modulo 4 matters. */
  lemma UnmaskPhase(s: seq<byte>, masked: bool, key: Key, phase: nat)
    ensures Unmask(s, masked, key, phase) == Unmask(s, masked, key, phase % 4)
  {
    hide Xor;
    forall i | 0 <= i < |s|
      ensures Unmask(s, masked, key, phase)[i] == Unmask(s, masked, key, phase % 4)[i]
    {
      PhaseModulo(i, phase);
    }
  }

  lemma PhaseModulo(i: nat, phase: nat)
    ensures (i + phase) % 4 == (i + phase % 4) % 4
  {
    var q, r := phase / 4, phase % 4;
    assert i + phase == i + r + 4 * q;
  }
}
