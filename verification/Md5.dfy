/** MD5 (md5.c) against RFC 1321. */
module Md5 {
  import opened Blocks
  import opened Sums

  // ---- RFC 1321, section 3.4 ----

  datatype State = State(a: bv32, b: bv32, c: bv32, d: bv32)

  function F(x: bv32, y: bv32, z: bv32): bv32 { (x & y) | (!x & z) }

  function G(x: bv32, y: bv32, z: bv32): bv32 { (x & z) | (y & !z) }

  function H(x: bv32, y: bv32, z: bv32): bv32 { x ^ y ^ z }

  function I(x: bv32, y: bv32, z: bv32): bv32 { y ^ (x | !z) }

  function Aux(n: nat, x: bv32, y: bv32, z: bv32): bv32
  {
    if n < 16 then F(x, y, z) else if n < 32 then G(x, y, z) else if n < 48 then H(x, y, z) else I(x, y, z)
  }

  /** The round functions bit by bit, in the words of section 3.4: "if x then y else z", "if z
      then x else y", the parity, and y changed where x or not z holds. */
  lemma AuxBits(n: nat, x: bv32, y: bv32, z: bv32, k: bv32)
    requires k < 32
    ensures Bit(Aux(n, x, y, z), k)
         == if n < 16 then (if Bit(x, k) then Bit(y, k) else Bit(z, k))
            else if n < 32 then (if Bit(z, k) then Bit(x, k) else Bit(y, k))
            else if n < 48 then (Bit(x, k) != (Bit(y, k) != Bit(z, k)))
            else (Bit(y, k) != (Bit(x, k) || !Bit(z, k)))
  {
    hide Bit, F, G, H, I;
    FBits(x, y, z, k);
    FBits(z, x, y, k);
    GIsF(x, y, z);
    HBits(x, y, z, k);
    IBits(x, y, z, k);
  }

  lemma FBits(x: bv32, y: bv32, z: bv32, k: bv32)
    requires k < 32
    ensures Bit(F(x, y, z), k) == if Bit(x, k) then Bit(y, k) else Bit(z, k)
  {
    hide Bit;
    ChoiceBits(x, y, z, k);
  }

  lemma HBits(x: bv32, y: bv32, z: bv32, k: bv32)
    requires k < 32
    ensures Bit(H(x, y, z), k) == (Bit(x, k) != (Bit(y, k) != Bit(z, k)))
  {
    hide Bit;
    ParityBits(x, y, z, k);
  }

  lemma IBits(x: bv32, y: bv32, z: bv32, k: bv32)
    requires k < 32
    ensures Bit(I(x, y, z), k) == (Bit(y, k) != (Bit(x, k) || !Bit(z, k)))
  {
    hide Bit;
    FourthBits(x, y, z, k);
  }

  lemma GIsF(x: bv32, y: bv32, z: bv32)
    ensures G(x, y, z) == F(z, x, y)
  {
  }

  /** Which word operation n uses: the four rounds walk through the block in steps of 1, 5, 3 and 7. */
  function Index(n: nat): (k: nat)
    ensures k < 16
  {
    if n < 16 then n % 16 else if n < 32 then (5 * n + 1) % 16 else if n < 48 then (3 * n + 5) % 16 else 7 * n % 16
  }

  function Shift(n: nat): (s: nat)
    ensures s <= 32
  {
    var i := n % 4;
    if n < 16 then (if i == 0 then 7 else if i == 1 then 12 else if i == 2 then 17 else 22)
    else if n < 32 then (if i == 0 then 5 else if i == 1 then 9 else if i == 2 then 14 else 20)
    else if n < 48 then (if i == 0 then 4 else if i == 1 then 11 else if i == 2 then 16 else 23)
    else (if i == 0 then 6 else if i == 1 then 10 else if i == 2 then 15 else 21)
  }

  /** The table T: the integer part of 2^32 times |sin(n + 1)|, four entries at a time. */
  function T(n: nat): bv32
  {
    if n < 16 then T1(n) else if n < 32 then T2(n) else if n < 48 then T3(n) else T4(n)
  }

  function Of4(n: nat, a: bv32, b: bv32, c: bv32, d: bv32): bv32
  {
    if n % 4 == 0 then a else if n % 4 == 1 then b else if n % 4 == 2 then c else d
  }

  function T1(n: nat): bv32
  {
    if n < 4 then Of4(n, 0xd76aa478, 0xe8c7b756, 0x242070db, 0xc1bdceee)
    else if n < 8 then Of4(n, 0xf57c0faf, 0x4787c62a, 0xa8304613, 0xfd469501)
    else if n < 12 then Of4(n, 0x698098d8, 0x8b44f7af, 0xffff5bb1, 0x895cd7be)
    else Of4(n, 0x6b901122, 0xfd987193, 0xa679438e, 0x49b40821)
  }

  function T2(n: nat): bv32
  {
    if n < 20 then Of4(n, 0xf61e2562, 0xc040b340, 0x265e5a51, 0xe9b6c7aa)
    else if n < 24 then Of4(n, 0xd62f105d, 0x02441453, 0xd8a1e681, 0xe7d3fbc8)
    else if n < 28 then Of4(n, 0x21e1cde6, 0xc33707d6, 0xf4d50d87, 0x455a14ed)
    else Of4(n, 0xa9e3e905, 0xfcefa3f8, 0x676f02d9, 0x8d2a4c8a)
  }

  function T3(n: nat): bv32
  {
    if n < 36 then Of4(n, 0xfffa3942, 0x8771f681, 0x6d9d6122, 0xfde5380c)
    else if n < 40 then Of4(n, 0xa4beea44, 0x4bdecfa9, 0xf6bb4b60, 0xbebfbc70)
    else if n < 44 then Of4(n, 0x289b7ec6, 0xeaa127fa, 0xd4ef3085, 0x04881d05)
    else Of4(n, 0xd9d4d039, 0xe6db99e5, 0x1fa27cf8, 0xc4ac5665)
  }

  function T4(n: nat): bv32
  {
    if n < 52 then Of4(n, 0xf4292244, 0x432aff97, 0xab9423a7, 0xfc93a039)
    else if n < 56 then Of4(n, 0x655b59c3, 0x8f0ccc92, 0xffeff47d, 0x85845dd1)
    else if n < 60 then Of4(n, 0x6fa87e4f, 0xfe2ce6e0, 0xa3014314, 0x4e0811a1)
    else Of4(n, 0xf7537e82, 0xbd3af235, 0x2ad7d2bb, 0xeb86d391)
  }

  /** Operation n on [abcd]; the roles of the registers rotate by one each time. */
  function Op(n: nat, h: State, x: seq<bv32>): State
    requires |x| == 16
  {
    State(h.d, Add(h.b, Rotate(Add(h.a, Add(Aux(n, h.b, h.c, h.d), Add(x[Index(n)], T(n)))), Shift(n))), h.b, h.c)
  }

  function Ops(n: nat, h: State, x: seq<bv32>): State
    requires |x| == 16
  {
    if n == 0 then h else Op(n - 1, Ops(n - 1, h, x), x)
  }

  /** A word is stored with its low-order byte first (section 2). */
  function Word(b: seq<bv8>, o: nat): bv32
    requires o + 4 <= |b|
  {
    b[o] as bv32 | ((b[o + 1] as bv32) << 8) | ((b[o + 2] as bv32) << 16) | ((b[o + 3] as bv32) << 24)
  }

  function Words(b: Block): (x: seq<bv32>)
    ensures |x| == 16
  {
    seq(16, i requires 0 <= i < 16 => Word(b, 4 * i))
  }

  function Compress(h: State, b: Block): State
  {
    var s := Ops(64, h, Words(b));
    State(Add(h.a, s.a), Add(h.b, s.b), Add(h.c, s.c), Add(h.d, s.d))
  }

  const INITIAL := State(0x67452301, 0xefcdab89, 0x98badcfe, 0x10325476)

  /** The length in bits modulo 2^64, low-order byte first (section 3.2). */
  function LengthBytes(bits: nat): (l: seq<bv8>)
    ensures |l| == 8
  {
    WordBytes(bits % 0x1_0000_0000) + WordBytes(bits / 0x1_0000_0000 % 0x1_0000_0000)
  }

  function WordBytes(w: nat): (l: seq<bv8>)
    ensures |l| == 4
  {
    [ByteOf(w), ByteOf(w / 0x100), ByteOf(w / 0x1_0000), ByteOf(w / 0x100_0000)]
  }

  function Padded(m: seq<bv8>): (p: seq<bv8>)
    ensures |p| % 64 == 0
  {
    hide *;
    Filled(|m|, |Padding(|m|)|);
    m + Padding(|m|) + LengthBytes(8 * |m|)
  }

  function RegisterBytes(w: bv32): seq<bv8>
  {
    [(w & 0xff) as bv8, ((w >> 8) & 0xff) as bv8, ((w >> 16) & 0xff) as bv8, (w >> 24) as bv8]
  }

  function StateBytes(h: State): seq<bv8>
  {
    RegisterBytes(h.a) + RegisterBytes(h.b) + RegisterBytes(h.c) + RegisterBytes(h.d)
  }

  /** The message digest of RFC 1321. */
  function Digest(m: seq<bv8>): seq<bv8>
  {
    StateBytes(Fold(Compress, INITIAL, Padded(m)))
  }

  // ---- the core ----

  /** F1, used for F2 as well, saves an operation. */
  function F1(x: bv32, y: bv32, z: bv32): bv32 { z ^ (x & (y ^ z)) }

  function F2(x: bv32, y: bv32, z: bv32): bv32 { F1(z, x, y) }

  function F3(x: bv32, y: bv32, z: bv32): bv32 { x ^ y ^ z }

  function F4(x: bv32, y: bv32, z: bv32): bv32 { y ^ (x | !z) }

  function Select(f: nat, x: bv32, y: bv32, z: bv32): bv32
  {
    if f == 1 then F1(x, y, z) else if f == 2 then F2(x, y, z) else if f == 3 then F3(x, y, z) else F4(x, y, z)
  }

  lemma F1IsF(x: bv32, y: bv32, z: bv32)
    ensures F1(x, y, z) == F(x, y, z)
  {
    SelectBits(x, y, z);
  }

  lemma F2IsG(x: bv32, y: bv32, z: bv32)
    ensures F2(x, y, z) == G(x, y, z)
  {
    SelectBits(z, x, y);
    AndSwaps(x, z);
  }

  lemma SelectBits(x: bv32, y: bv32, z: bv32)
    ensures z ^ (x & (y ^ z)) == (x & y) | (!x & z)
  {
  }

  lemma AndSwaps(x: bv32, z: bv32)
    ensures x & z == z & x
  {
  }

  lemma F3IsH(x: bv32, y: bv32, z: bv32)
    ensures F3(x, y, z) == H(x, y, z)
  {
  }

  lemma F4IsI(x: bv32, y: bv32, z: bv32)
    ensures F4(x, y, z) == I(x, y, z)
  {
  }

  lemma SelectIsAux(n: nat, x: bv32, y: bv32, z: bv32)
    requires n < 64
    ensures Select(n / 16 + 1, x, y, z) == Aux(n, x, y, z)
  {
    hide F, G, H, I, F1, F2, F3, F4;
    F1IsF(x, y, z);
    F2IsG(x, y, z);
    F3IsH(x, y, z);
    F4IsI(x, y, z);
  }

  lemma Swap(p: bv32, x: bv32)
    ensures Add(p, x) == Add(x, p)
  {
  }

  /** MD5STEP, as operation n. */
  method Step(f: nat, w: bv32, x: bv32, y: bv32, z: bv32, data: bv32, s: nat,
              ghost n: nat, ghost h: State, ghost m: seq<bv32>) returns (r: bv32)
    requires |m| == 16 && n < 64 && f == n / 16 + 1
    requires State(w, x, y, z) == Ops(n, h, m)
    requires data == Add(m[Index(n)], T(n)) && s == Shift(n)
    ensures State(z, r, x, y) == Ops(n + 1, h, m)
  {
    hide Select, Aux, Rotate, Index, Shift, T, Add;
    r := Add(w, Add(Select(f, x, y, z), data));
    SelectIsAux(n, x, y, z);
    r := Rotate(r, s);
    Swap(r, x);
    r := Add(r, x);
  }

  method Round1First(a0: bv32, b0: bv32, c0: bv32, d0: bv32, m: seq<bv32>, ghost h: State)
    returns (a: bv32, b: bv32, c: bv32, d: bv32)
    requires |m| == 16 && State(a0, b0, c0, d0) == Ops(0, h, m)
    ensures State(a, b, c, d) == Ops(8, h, m)
  {
    hide Ops, Add;
    a, b, c, d := a0, b0, c0, d0;
    a := Step(1, a, b, c, d, Add(m[0], 0xd76aa478), 7, 0, h, m);
    d := Step(1, d, a, b, c, Add(m[1], 0xe8c7b756), 12, 1, h, m);
    c := Step(1, c, d, a, b, Add(m[2], 0x242070db), 17, 2, h, m);
    b := Step(1, b, c, d, a, Add(m[3], 0xc1bdceee), 22, 3, h, m);
    a := Step(1, a, b, c, d, Add(m[4], 0xf57c0faf), 7, 4, h, m);
    d := Step(1, d, a, b, c, Add(m[5], 0x4787c62a), 12, 5, h, m);
    c := Step(1, c, d, a, b, Add(m[6], 0xa8304613), 17, 6, h, m);
    b := Step(1, b, c, d, a, Add(m[7], 0xfd469501), 22, 7, h, m);
  }

  method Round1Second(a0: bv32, b0: bv32, c0: bv32, d0: bv32, m: seq<bv32>, ghost h: State)
    returns (a: bv32, b: bv32, c: bv32, d: bv32)
    requires |m| == 16 && State(a0, b0, c0, d0) == Ops(8, h, m)
    ensures State(a, b, c, d) == Ops(16, h, m)
  {
    hide Ops, Add;
    a, b, c, d := a0, b0, c0, d0;
    a := Step(1, a, b, c, d, Add(m[8], 0x698098d8), 7, 8, h, m);
    d := Step(1, d, a, b, c, Add(m[9], 0x8b44f7af), 12, 9, h, m);
    c := Step(1, c, d, a, b, Add(m[10], 0xffff5bb1), 17, 10, h, m);
    b := Step(1, b, c, d, a, Add(m[11], 0x895cd7be), 22, 11, h, m);
    a := Step(1, a, b, c, d, Add(m[12], 0x6b901122), 7, 12, h, m);
    d := Step(1, d, a, b, c, Add(m[13], 0xfd987193), 12, 13, h, m);
    c := Step(1, c, d, a, b, Add(m[14], 0xa679438e), 17, 14, h, m);
    b := Step(1, b, c, d, a, Add(m[15], 0x49b40821), 22, 15, h, m);
  }

  method Round2First(a0: bv32, b0: bv32, c0: bv32, d0: bv32, m: seq<bv32>, ghost h: State)
    returns (a: bv32, b: bv32, c: bv32, d: bv32)
    requires |m| == 16 && State(a0, b0, c0, d0) == Ops(16, h, m)
    ensures State(a, b, c, d) == Ops(24, h, m)
  {
    hide Ops, Add;
    a, b, c, d := a0, b0, c0, d0;
    a := Step(2, a, b, c, d, Add(m[1], 0xf61e2562), 5, 16, h, m);
    d := Step(2, d, a, b, c, Add(m[6], 0xc040b340), 9, 17, h, m);
    c := Step(2, c, d, a, b, Add(m[11], 0x265e5a51), 14, 18, h, m);
    b := Step(2, b, c, d, a, Add(m[0], 0xe9b6c7aa), 20, 19, h, m);
    a := Step(2, a, b, c, d, Add(m[5], 0xd62f105d), 5, 20, h, m);
    d := Step(2, d, a, b, c, Add(m[10], 0x02441453), 9, 21, h, m);
    c := Step(2, c, d, a, b, Add(m[15], 0xd8a1e681), 14, 22, h, m);
    b := Step(2, b, c, d, a, Add(m[4], 0xe7d3fbc8), 20, 23, h, m);
  }

  method Round2Second(a0: bv32, b0: bv32, c0: bv32, d0: bv32, m: seq<bv32>, ghost h: State)
    returns (a: bv32, b: bv32, c: bv32, d: bv32)
    requires |m| == 16 && State(a0, b0, c0, d0) == Ops(24, h, m)
    ensures State(a, b, c, d) == Ops(32, h, m)
  {
    hide Ops, Add;
    a, b, c, d := a0, b0, c0, d0;
    a := Step(2, a, b, c, d, Add(m[9], 0x21e1cde6), 5, 24, h, m);
    d := Step(2, d, a, b, c, Add(m[14], 0xc33707d6), 9, 25, h, m);
    c := Step(2, c, d, a, b, Add(m[3], 0xf4d50d87), 14, 26, h, m);
    b := Step(2, b, c, d, a, Add(m[8], 0x455a14ed), 20, 27, h, m);
    a := Step(2, a, b, c, d, Add(m[13], 0xa9e3e905), 5, 28, h, m);
    d := Step(2, d, a, b, c, Add(m[2], 0xfcefa3f8), 9, 29, h, m);
    c := Step(2, c, d, a, b, Add(m[7], 0x676f02d9), 14, 30, h, m);
    b := Step(2, b, c, d, a, Add(m[12], 0x8d2a4c8a), 20, 31, h, m);
  }

  method Round3First(a0: bv32, b0: bv32, c0: bv32, d0: bv32, m: seq<bv32>, ghost h: State)
    returns (a: bv32, b: bv32, c: bv32, d: bv32)
    requires |m| == 16 && State(a0, b0, c0, d0) == Ops(32, h, m)
    ensures State(a, b, c, d) == Ops(40, h, m)
  {
    hide Ops, Add;
    a, b, c, d := a0, b0, c0, d0;
    a := Step(3, a, b, c, d, Add(m[5], 0xfffa3942), 4, 32, h, m);
    d := Step(3, d, a, b, c, Add(m[8], 0x8771f681), 11, 33, h, m);
    c := Step(3, c, d, a, b, Add(m[11], 0x6d9d6122), 16, 34, h, m);
    b := Step(3, b, c, d, a, Add(m[14], 0xfde5380c), 23, 35, h, m);
    a := Step(3, a, b, c, d, Add(m[1], 0xa4beea44), 4, 36, h, m);
    d := Step(3, d, a, b, c, Add(m[4], 0x4bdecfa9), 11, 37, h, m);
    c := Step(3, c, d, a, b, Add(m[7], 0xf6bb4b60), 16, 38, h, m);
    b := Step(3, b, c, d, a, Add(m[10], 0xbebfbc70), 23, 39, h, m);
  }

  method Round3Second(a0: bv32, b0: bv32, c0: bv32, d0: bv32, m: seq<bv32>, ghost h: State)
    returns (a: bv32, b: bv32, c: bv32, d: bv32)
    requires |m| == 16 && State(a0, b0, c0, d0) == Ops(40, h, m)
    ensures State(a, b, c, d) == Ops(48, h, m)
  {
    hide Ops, Add;
    a, b, c, d := a0, b0, c0, d0;
    a := Step(3, a, b, c, d, Add(m[13], 0x289b7ec6), 4, 40, h, m);
    d := Step(3, d, a, b, c, Add(m[0], 0xeaa127fa), 11, 41, h, m);
    c := Step(3, c, d, a, b, Add(m[3], 0xd4ef3085), 16, 42, h, m);
    b := Step(3, b, c, d, a, Add(m[6], 0x04881d05), 23, 43, h, m);
    a := Step(3, a, b, c, d, Add(m[9], 0xd9d4d039), 4, 44, h, m);
    d := Step(3, d, a, b, c, Add(m[12], 0xe6db99e5), 11, 45, h, m);
    c := Step(3, c, d, a, b, Add(m[15], 0x1fa27cf8), 16, 46, h, m);
    b := Step(3, b, c, d, a, Add(m[2], 0xc4ac5665), 23, 47, h, m);
  }

  method Round4First(a0: bv32, b0: bv32, c0: bv32, d0: bv32, m: seq<bv32>, ghost h: State)
    returns (a: bv32, b: bv32, c: bv32, d: bv32)
    requires |m| == 16 && State(a0, b0, c0, d0) == Ops(48, h, m)
    ensures State(a, b, c, d) == Ops(56, h, m)
  {
    hide Ops, Add;
    a, b, c, d := a0, b0, c0, d0;
    a := Step(4, a, b, c, d, Add(m[0], 0xf4292244), 6, 48, h, m);
    d := Step(4, d, a, b, c, Add(m[7], 0x432aff97), 10, 49, h, m);
    c := Step(4, c, d, a, b, Add(m[14], 0xab9423a7), 15, 50, h, m);
    b := Step(4, b, c, d, a, Add(m[5], 0xfc93a039), 21, 51, h, m);
    a := Step(4, a, b, c, d, Add(m[12], 0x655b59c3), 6, 52, h, m);
    d := Step(4, d, a, b, c, Add(m[3], 0x8f0ccc92), 10, 53, h, m);
    c := Step(4, c, d, a, b, Add(m[10], 0xffeff47d), 15, 54, h, m);
    b := Step(4, b, c, d, a, Add(m[1], 0x85845dd1), 21, 55, h, m);
  }

  method Round4Second(a0: bv32, b0: bv32, c0: bv32, d0: bv32, m: seq<bv32>, ghost h: State)
    returns (a: bv32, b: bv32, c: bv32, d: bv32)
    requires |m| == 16 && State(a0, b0, c0, d0) == Ops(56, h, m)
    ensures State(a, b, c, d) == Ops(64, h, m)
  {
    hide Ops, Add;
    a, b, c, d := a0, b0, c0, d0;
    a := Step(4, a, b, c, d, Add(m[8], 0x6fa87e4f), 6, 56, h, m);
    d := Step(4, d, a, b, c, Add(m[15], 0xfe2ce6e0), 10, 57, h, m);
    c := Step(4, c, d, a, b, Add(m[6], 0xa3014314), 15, 58, h, m);
    b := Step(4, b, c, d, a, Add(m[13], 0x4e0811a1), 21, 59, h, m);
    a := Step(4, a, b, c, d, Add(m[4], 0xf7537e82), 6, 60, h, m);
    d := Step(4, d, a, b, c, Add(m[11], 0xbd3af235), 10, 61, h, m);
    c := Step(4, c, d, a, b, Add(m[2], 0x2ad7d2bb), 15, 62, h, m);
    b := Step(4, b, c, d, a, Add(m[9], 0xeb86d391), 21, 63, h, m);
  }

  // ---- the bit count in two words ----

  /** 8 * len in two words, as the code takes them from len. */
  lemma BitsOf(len: nat)
    ensures 8 * len == 8 * len % B + len / 0x2000_0000 * B
  {
    var q, r := len / 0x2000_0000, len % 0x2000_0000;
    assert 8 * len == q * B + 8 * r;
  }

  /** The sum wrapped around exactly if it became smaller. */
  lemma Wraps(lo: nat, a: nat, lo': nat)
    requires lo < B && a < B && lo' == (lo + a) % B
    ensures lo + a == lo' + if lo' < lo then B else 0
  {
  }

  /** Adding to the low word and carrying into the high one counts modulo 2^64. */
  lemma Carry(lo: nat, hi: nat, n: nat, len: nat, lo': nat, hi': nat)
    requires lo < B && hi < B && lo + hi * B == 8 * n % BB
    requires lo' == (lo + 8 * len % B) % B
    requires hi' == (hi + (if lo' < lo then 1 else 0) + len / 0x2000_0000) % B
    ensures lo' + hi' * B == 8 * (n + len) % BB
  {
    var a, b := 8 * len % B, len / 0x2000_0000;
    BitsOf(len);
    Wraps(lo, a, lo');
    var s := hi + (if lo' < lo then 1 else 0) + b;
    Total(8 * n, 8 * len, lo, hi, a, b, lo', s);
  }

  lemma Total(bits: nat, more: nat, lo: nat, hi: nat, a: nat, b: nat, lo': nat, s: nat)
    requires lo + hi * B == bits % BB && more == a + b * B && lo' < B
    requires lo + hi * B + a + b * B == lo' + s * B
    ensures lo' + s % B * B == (bits + more) % BB
  {
    var q, d := bits / BB, s / B;
    assert bits == q * BB + (lo + hi * B);
    assert s == d * B + s % B;
    assert s * B == d * BB + s % B * B;
    Remainder(bits + more, q + d, lo' + s % B * B);
  }

  /** The low word tells how much of a block is filled. */
  lemma Filling(lo: nat, hi: nat, n: nat)
    requires lo < B && lo + hi * B == 8 * n % BB
    ensures lo / 8 % 64 == n % 64
  {
    var k := 8 * n / BB * B + hi;
    assert 8 * n == k * B + lo;
    assert lo / 8 == n - 0x2000_0000 * k;
    assert n == lo / 8 + 64 * (0x80_0000 * k);
  }

  // ---- the context ----

  class MD5Context {
    var buf: State
    var lo: nat
    var hi: nat
    var block: array<bv8>
    /** All bytes given to Update so far. */
    ghost var fed: seq<bv8>

    /** buf is the fold over the complete blocks, block starts with the rest, and the two words
        count the bits modulo 2^64. */
    ghost predicate Valid()
      reads this, block
    {
      && block.Length == 64 && lo < B && hi < B
      && lo + hi * B == 8 * |fed| % BB
      && buf == Fold(Compress, INITIAL, Whole(fed))
      && block[..|fed| % 64] == Tail(fed)
    }

    /** MD5Init. */
    constructor ()
      ensures Valid() && fresh(block) && fed == []
    {
      buf, lo, hi := INITIAL, 0, 0;
      block := new bv8[64];
      fed := [];
    }

    /** MD5Transform on the buffered block. */
    method Transform()
      requires block.Length == 64
      modifies this`buf
      ensures buf == Compress(old(buf), block[..])
    {
      hide Ops, Words;
      var m := Words(block[..]);
      var h := buf;
      NoOps(h, m);
      var a, b, c, d := Round1First(h.a, h.b, h.c, h.d, m, h);
      a, b, c, d := Round1Second(a, b, c, d, m, h);
      a, b, c, d := Round2First(a, b, c, d, m, h);
      a, b, c, d := Round2Second(a, b, c, d, m, h);
      a, b, c, d := Round3First(a, b, c, d, m, h);
      a, b, c, d := Round3Second(a, b, c, d, m, h);
      a, b, c, d := Round4First(a, b, c, d, m, h);
      a, b, c, d := Round4Second(a, b, c, d, m, h);
      buf := State(Add(h.a, a), Add(h.b, b), Add(h.c, c), Add(h.d, d));
    }

    /** buf and block have taken in m. */
    ghost predicate Took(m: seq<bv8>)
      reads this, block
    {
      && block.Length == 64
      && buf == Fold(Compress, INITIAL, Whole(m))
      && block[..|m| % 64] == Tail(m)
    }

    /** MD5Update: continues with data, however long. */
    method Update(data: seq<bv8>)
      requires Valid() && |data| < B
      modifies this, block
      ensures Valid() && block == old(block) && fed == old(fed) + data
    {
      hide Fold, Compress, Whole, Tail;
      var t := Count(|data|);
      Absorb(t, data);
      fed := fed + data;
    }

    /** The counting part: how many bytes are in the block, before the count goes up by len. */
    method Count(len: nat) returns (t: nat)
      requires lo < B && hi < B && lo + hi * B == 8 * |fed| % BB
      modifies this`lo, this`hi
      ensures lo < B && hi < B && lo + hi * B == 8 * (|fed| + len) % BB
      ensures t == |fed| % 64
    {
      t := lo;
      lo := (t + 8 * len % B) % B;
      if lo < t {
        hi := (hi + 1) % B;
      }
      hi := (hi + len / 0x2000_0000) % B;
      Carry(old(lo), old(hi), |fed|, len, lo, hi);
      Filling(old(lo), old(hi), |fed|);
      t := t / 8 % 64;
    }

    /** The data part of MD5Update, with t bytes in the block. */
    method Absorb(t: nat, data: seq<bv8>)
      requires Took(fed) && t == |fed| % 64
      modifies this`buf, block
      ensures Took(fed + data)
    {
      hide Fold, Compress, Whole, Tail;
      var p := 0;
      if t > 0 {
        var room := 64 - t;
        if |data| < room {
          Copy(block, t, data);
          StillPartial(fed, data, block[..]);
          return;
        }
        Copy(block, t, data[..room]);
        assert block[..] == Tail(fed) + data[..room];
        Completed(fed, data[..room], block[..]);
        Transform();
        p := room;
      } else {
        NothingLeft(fed);
        assert fed + data[..0] == fed;
      }
      p := WholeBlocks(data, p);
      Copy(block, 0, data[p..]);
      WholeAndTail(fed + data[..p], data[p..]);
      assert fed + data[..p] + data[p..] == fed + data;
    }

    /** The complete blocks of data from offset p on. */
    method WholeBlocks(data: seq<bv8>, from: nat) returns (p: nat)
      requires block.Length == 64 && from <= |data| && |fed + data[..from]| % 64 == 0
      requires buf == Fold(Compress, INITIAL, fed + data[..from])
      modifies this`buf, block
      ensures from <= p <= |data| && |data| - p < 64 && |fed + data[..p]| % 64 == 0
      ensures buf == Fold(Compress, INITIAL, fed + data[..p])
    {
      hide Fold, Compress;
      p := from;
      while |data| - p >= 64
        invariant from <= p <= |data| && |fed + data[..p]| % 64 == 0
        invariant buf == Fold(Compress, INITIAL, fed + data[..p])
      {
        Copy(block, 0, data[p..p + 64]);
        assert block[..] == data[p..p + 64];
        Transform();
        FoldOne(Compress, INITIAL, fed + data[..p], data[p..p + 64]);
        NextBlock(fed, data, p);
        p := p + 64;
      }
    }

    /** MD5Final: pads, appends the count, gives the digest of all that was fed and clears the
        context. */
    method Final() returns (digest: seq<bv8>)
      requires Valid()
      modifies this, block
      ensures digest == Digest(old(fed))
      ensures buf == State(0, 0, 0, 0) && lo == hi == 0 && block == old(block) && block[..] == Zeros(64)
    {
      hide Fold, Compress, Whole, Tail, WordBytes, Padding, Padded, StateBytes;
      Filling(lo, hi, |fed|);
      Halves(lo, hi, 8 * |fed|);
      var count := lo / 8 % 64;
      Finish(count);
      digest := StateBytes(buf);
      buf := State(0, 0, 0, 0);
      lo, hi := 0, 0;
      Clear(block, 0, 64);
      assert block[..] == Zeros(64);
    }

    /** The padding, the count and the last block. */
    method Finish(filled: nat)
      requires Took(fed) && filled == |fed| % 64
      requires lo == 8 * |fed| % B && hi == 8 * |fed| / B % B
      modifies this`buf, block
      ensures buf == Fold(Compress, INITIAL, Padded(fed))
    {
      hide Fold, Compress, Whole, Tail, WordBytes, Padding, Zeros;
      ghost var done := PadOut(filled);
      ghost var last := block[..56];
      Copy(block, 56, WordBytes(lo));
      Copy(block, 60, WordBytes(hi));
      assert block[..] == last + LengthBytes(8 * |fed|);
      Transform();
      FoldOne(Compress, INITIAL, done, last + LengthBytes(8 * |fed|));
      assert done + (last + LengthBytes(8 * |fed|)) == Padded(fed);
    }

    /** Pads out to 56 bytes, going on to a second block if fewer than 8 would be left. */
    method PadOut(filled: nat) returns (ghost done: seq<bv8>)
      requires Took(fed) && filled == |fed| % 64
      modifies this`buf, block
      ensures |done| % 64 == 0 && buf == Fold(Compress, INITIAL, done)
      ensures done + block[..56] == fed + Padding(|fed|)
    {
      hide Fold, Compress, Whole, Tail, Padding, Zeros;
      done := Whole(fed);
      var count := 63 - filled;
      if count < 8 {
        ghost var full := FillBlock(filled, count);
        Transform();
        FoldOne(Compress, INITIAL, done, full);
        Clear(block, 0, 56);
        assert block[..56] == Zeros(56);
        PaddedTwice(fed);
        done := done + full;
      } else {
        Mark(filled);
        Clear(block, filled + 1, count - 8);
        assert block[..56] == Tail(fed) + [0x80] + Zeros(count - 8);
        PaddedOnce(fed);
      }
    }

    method Mark(filled: nat)
      requires Took(fed) && filled == |fed| % 64
      modifies block
      ensures block[..filled + 1] == Tail(fed) + [0x80]
    {
      hide Fold, Compress, Whole, Tail;
      block[filled] := 0x80;
    }

    method FillBlock(filled: nat, count: nat) returns (ghost full: Block)
      requires Took(fed) && filled == |fed| % 64 && count == 63 - filled
      modifies block
      ensures full == block[..] == Tail(fed) + [0x80] + Zeros(count)
    {
      hide Fold, Compress, Whole, Tail, Zeros;
      Mark(filled);
      Clear(block, filled + 1, count);
      full := block[..];
      assert full == Tail(fed) + [0x80] + Zeros(count);
    }
  }

  lemma NextBlock(m: seq<bv8>, data: seq<bv8>, p: nat)
    requires p + 64 <= |data| && |m + data[..p]| % 64 == 0
    ensures m + data[..p] + data[p..p + 64] == m + data[..p + 64]
    ensures |m + data[..p + 64]| % 64 == 0
  {
  }

  lemma StillPartial(m: seq<bv8>, more: seq<bv8>, block: seq<bv8>)
    requires |block| == 64 && |m| % 64 + |more| < 64
    requires block[..|m| % 64 + |more|] == Tail(m) + more
    ensures Whole(m + more) == Whole(m)
    ensures block[..|m + more| % 64] == Tail(m + more)
  {
    assert |m + more| % 64 == |m| % 64 + |more|;
  }

  lemma Completed(m: seq<bv8>, more: seq<bv8>, block: Block)
    requires |m| % 64 + |more| == 64 && block == Tail(m) + more
    ensures |m + more| % 64 == 0
    ensures Fold(Compress, INITIAL, m + more) == Compress(Fold(Compress, INITIAL, Whole(m)), block)
  {
    hide *;
    Joined(m, more, block);
    FoldOne(Compress, INITIAL, Whole(m), block);
  }

  lemma Joined(m: seq<bv8>, more: seq<bv8>, block: Block)
    requires |m| % 64 + |more| == 64 && block == Tail(m) + more
    ensures m + more == Whole(m) + block && |m + more| % 64 == 0
  {
    hide *;
    assert |m + more| == |Whole(m)| + 64;
  }

  lemma NothingLeft(m: seq<bv8>)
    requires |m| % 64 == 0
    ensures Whole(m) == m
  {
  }

  lemma WholeAndTail(m: seq<bv8>, more: seq<bv8>)
    requires |m| % 64 == 0 && |more| < 64
    ensures |m + more| % 64 == |more| && Whole(m + more) == m && Tail(m + more) == more
  {
  }

  lemma NoOps(h: State, m: seq<bv32>)
    requires |m| == 16
    ensures Ops(0, h, m) == h && h == State(h.a, h.b, h.c, h.d)
  {
  }

  lemma Halves(lo: nat, hi: nat, bits: nat)
    requires lo < B && hi < B && lo + hi * B == bits % BB
    ensures lo == bits % B && hi == bits / B % B
  {
    var q := bits / BB;
    assert bits == (q * B + hi) * B + lo;
    assert bits / B == q * B + hi;
  }

  // ---- the interface ----

  /** md5hash: the digest of one buffer. */
  method Md5Hash(data: seq<bv8>) returns (hash: seq<bv8>)
    requires |data| < B
    ensures hash == Digest(data)
  {
    hide Digest;
    var ctx := new MD5Context();
    ctx.Update(data);
    assert [] + data == data;
    hash := ctx.Final();
  }

  /** However a message is cut into parts, feeding them one after the other gives its digest. */
  method HashInParts(parts: seq<seq<bv8>>) returns (hash: seq<bv8>)
    requires forall i :: 0 <= i < |parts| ==> |parts[i]| < B
    ensures hash == Digest(Concat(parts))
  {
    hide Digest;
    var ctx := new MD5Context();
    for i := 0 to |parts|
      invariant ctx.Valid() && fresh(ctx) && fresh(ctx.block) && ctx.fed == Concat(parts[..i])
    {
      assert parts[..i + 1][..i] == parts[..i];
      ctx.Update(parts[i]);
    }
    assert parts[..|parts|] == parts;
    hash := ctx.Final();
  }
}
