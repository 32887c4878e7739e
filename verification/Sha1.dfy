/** SHA-1 (sha1.c) against FIPS 180-1. */
module Sha1 {
  import opened Blocks
  import opened Sums

  // ---- FIPS 180-1, sections 4 to 7 ----

  datatype State = State(a: bv32, b: bv32, c: bv32, d: bv32, e: bv32)

  function Ch(b: bv32, c: bv32, d: bv32): bv32 { (b & c) | (!b & d) }

  function Parity(b: bv32, c: bv32, d: bv32): bv32 { b ^ c ^ d }

  function Maj(b: bv32, c: bv32, d: bv32): bv32 { (b & c) | (b & d) | (c & d) }

  /** The logical function of step t (section 5). */
  function Logic(t: nat, b: bv32, c: bv32, d: bv32): bv32
  {
    if t < 20 then Ch(b, c, d) else if 40 <= t < 60 then Maj(b, c, d) else Parity(b, c, d)
  }

  /** The logical functions bit by bit: the choice between c and d, the parity and the majority. */
  lemma LogicBits(t: nat, b: bv32, c: bv32, d: bv32, k: bv32)
    requires k < 32
    ensures Bit(Logic(t, b, c, d), k)
         == if t < 20 then (if Bit(b, k) then Bit(c, k) else Bit(d, k))
            else if 40 <= t < 60 then (if Bit(b, k) then Bit(c, k) || Bit(d, k) else Bit(c, k) && Bit(d, k))
            else (Bit(b, k) != (Bit(c, k) != Bit(d, k)))
  {
    hide Bit, Ch, Parity, Maj;
    ChBits(b, c, d, k);
    ParBits(b, c, d, k);
    MajBits(b, c, d, k);
  }

  lemma ChBits(b: bv32, c: bv32, d: bv32, k: bv32)
    requires k < 32
    ensures Bit(Ch(b, c, d), k) == if Bit(b, k) then Bit(c, k) else Bit(d, k)
  {
    hide Bit;
    ChoiceBits(b, c, d, k);
  }

  lemma ParBits(b: bv32, c: bv32, d: bv32, k: bv32)
    requires k < 32
    ensures Bit(Parity(b, c, d), k) == (Bit(b, k) != (Bit(c, k) != Bit(d, k)))
  {
    hide Bit;
    ParityBits(b, c, d, k);
  }

  lemma MajBits(b: bv32, c: bv32, d: bv32, k: bv32)
    requires k < 32
    ensures Bit(Maj(b, c, d), k) == if Bit(b, k) then Bit(c, k) || Bit(d, k) else Bit(c, k) && Bit(d, k)
  {
    hide Bit;
    MajorityBits(b, c, d, k);
  }

  /** The constant word of step t (section 6). */
  function K(t: nat): bv32
  {
    if t < 20 then 0x5A827999 else if t < 40 then 0x6ED9EBA1 else if t < 60 then 0x8F1BBCDC else 0xCA62C1D6
  }

  /** The first byte of a word is its leftmost one. */
  function Word(b: seq<bv8>, o: nat): bv32
    requires o + 4 <= |b|
  {
    ((b[o] as bv32) << 24) | ((b[o + 1] as bv32) << 16) | ((b[o + 2] as bv32) << 8) | b[o + 3] as bv32
  }

  function Xor4(x: bv32, y: bv32, z: bv32, w: bv32): bv32 { x ^ y ^ z ^ w }

  /** Word t of the sequence derived from a block. */
  function W(t: nat, b: Block): bv32
  {
    if t < 16 then Word(b, 4 * t)
    else Rotate(Xor4(W(t - 3, b), W(t - 8, b), W(t - 14, b), W(t - 16, b)), 1)
  }

  function Op(t: nat, h: State, w: bv32): State
  {
    State(Add(Add(Add(Add(Rotate(h.a, 5), Logic(t, h.b, h.c, h.d)), h.e), w), K(t)), h.a, Rotate(h.b, 30), h.c, h.d)
  }

  function Ops(t: nat, h: State, b: Block): State
  {
    if t == 0 then h else Op(t - 1, Ops(t - 1, h, b), W(t - 1, b))
  }

  function Compress(h: State, b: Block): State
  {
    var s := Ops(80, h, b);
    State(Add(h.a, s.a), Add(h.b, s.b), Add(h.c, s.c), Add(h.d, s.d), Add(h.e, s.e))
  }

  const INITIAL := State(0x67452301, 0xEFCDAB89, 0x98BADCFE, 0x10325476, 0xC3D2E1F0)

  function WordBytes(w: nat): (l: seq<bv8>)
    ensures |l| == 4
  {
    [ByteOf(w / 0x100_0000), ByteOf(w / 0x1_0000), ByteOf(w / 0x100), ByteOf(w)]
  }

  /** A length in bits below 2^64, high-order byte first (section 4). */
  function LengthBytes(bits: nat): (l: seq<bv8>)
    ensures |l| == 8
  {
    WordBytes(bits / B) + WordBytes(bits % B)
  }

  function Padded(m: seq<bv8>): (p: seq<bv8>)
    ensures |p| % 64 == 0
  {
    hide *;
    Filled(|m|, |Padding(|m|)|);
    m + Padding(|m|) + LengthBytes(8 * |m|)
  }

  function RegisterBytes(w: bv32): (b: seq<bv8>)
    ensures |b| == 4
  {
    [(w >> 24) as bv8, ((w >> 16) & 0xff) as bv8, ((w >> 8) & 0xff) as bv8, (w & 0xff) as bv8]
  }

  function StateBytes(h: State): (b: seq<bv8>)
    ensures |b| == 20
  {
    RegisterBytes(h.a) + RegisterBytes(h.b) + RegisterBytes(h.c) + RegisterBytes(h.d) + RegisterBytes(h.e)
  }

  /** The message digest of FIPS 180-1. */
  function Digest(m: seq<bv8>): (d: seq<bv8>)
    ensures |d| == 20
  {
    StateBytes(Fold(Compress, INITIAL, Padded(m)))
  }

  // ---- the block function ----

  /** Fills the word sequence of a block, the first 16 words from its bytes. */
  method Expand(block: array<bv8>) returns (w: array<bv32>)
    requires block.Length == 64
    ensures fresh(w) && w.Length == 80 && forall t :: 0 <= t < 80 ==> w[t] == W(t, block[..])
  {
    hide Word, Rotate, Xor4;
    w := new bv32[80](_ => 0);
    for t := 0 to 16
      invariant forall s :: 0 <= s < t ==> w[s] == W(s, block[..])
    {
      w[t] := Word(block[..], t * 4);
    }
    for t := 16 to 80
      invariant forall s :: 0 <= s < t ==> w[s] == W(s, block[..])
    {
      w[t] := Rotate(Xor4(w[t - 3], w[t - 8], w[t - 14], w[t - 16]), 1);
    }
  }

  /** The logical function that each of the four loops spells out. */
  function Mixed(round: nat, B: bv32, C: bv32, D: bv32): bv32
  {
    if round == 0 then (B & C) | (!B & D)
    else if round == 2 then (B & C) | (B & D) | (C & D)
    else B ^ C ^ D
  }

  lemma MixedIsLogic(round: nat, t: nat, B: bv32, C: bv32, D: bv32)
    requires round < 4 && 20 * round <= t < 20 * round + 20
    ensures Mixed(round, B, C, D) == Logic(t, B, C, D)
  {
    if round == 0 {
    } else if round == 2 {
    } else {
    }
  }

  const KS: seq<bv32> := [0x5A827999, 0x6ED9EBA1, 0x8F1BBCDC, 0xCA62C1D6]

  lemma ConstantIsK(round: nat, t: nat)
    requires round < 4 && 20 * round <= t < 20 * round + 20
    ensures KS[round] == K(t)
  {
  }

  /** Twenty steps with one logical function and one constant: one of the four loops. */
  method Steps(round: nat, h0: State, w: array<bv32>, ghost h: State, ghost b: Block) returns (s: State)
    requires round < 4 && h0 == Ops(20 * round, h, b)
    requires w.Length == 80 && forall t :: 0 <= t < 80 ==> w[t] == W(t, b)
    ensures s == Ops(20 * round + 20, h, b)
  {
    hide Rotate, Add, Logic, Mixed, K, W;
    var A, B, C, D, E := h0.a, h0.b, h0.c, h0.d, h0.e;
    for t := 20 * round to 20 * round + 20
      invariant State(A, B, C, D, E) == Ops(t, h, b)
    {
      MixedIsLogic(round, t, B, C, D);
      ConstantIsK(round, t);
      var temp := Add(Add(Add(Add(Rotate(A, 5), Mixed(round, B, C, D)), E), w[t]), KS[round]);
      E := D;
      D := C;
      C := Rotate(B, 30);
      B := A;
      A := temp;
    }
    s := State(A, B, C, D, E);
  }

  // ---- the context ----

  const SUCCESS := 0
  const STATE_ERROR := 3

  class SHA1Context {
    var hash: State
    var low: nat
    var high: nat
    var index: nat
    var block: array<bv8>
    var computed: bool
    var corrupted: nat
    /** All bytes taken in since the last reset. */
    ghost var fed: seq<bv8>

    ghost predicate Valid()
      reads this, block
    {
      block.Length == 64 && (corrupted == SUCCESS ==> if computed then Finished() else Open())
    }

    /** Ready for more: the hash covers the complete blocks, the block starts with the rest, and
        the two words count the bits. */
    ghost predicate Open()
      reads this, block
    {
      && block.Length == 64 && index == |fed| % 64 && Took(fed)
      && low < B && high < B && low + high * B == 8 * |fed|
    }

    ghost predicate Finished()
      reads this
    {
      hash == Fold(Compress, INITIAL, Padded(fed))
    }

    ghost predicate Took(m: seq<bv8>)
      reads this`hash, this`block, block
    {
      && block.Length == 64
      && hash == Fold(Compress, INITIAL, Whole(m))
      && block[..|m| % 64] == Tail(m)
    }

    constructor ()
      ensures block.Length == 64 && fresh(block)
    {
      block := new bv8[64];
    }

    /** SHA1Reset. */
    method Reset()
      requires block.Length == 64
      modifies this
      ensures Valid() && block == old(block) && !computed && corrupted == SUCCESS && fed == []
    {
      hide Fold, Padded, Whole, Tail, Compress;
      low, high, index := 0, 0, 0;
      hash := INITIAL;
      computed, corrupted := false, SUCCESS;
      fed := [];
      NothingTaken();
    }

    lemma NothingTaken()
      ensures Fold(Compress, INITIAL, Whole([])) == INITIAL && Tail([]) == []
    {
      hide Compress;
    }

    /** SHA1ProcessMessageBlock. */
    method ProcessBlock()
      requires block.Length == 64
      modifies this`hash, this`index
      ensures hash == Compress(old(hash), block[..]) && index == 0
    {
      hide W, Op;
      var w := Expand(block);
      var s := Steps(0, hash, w, hash, block[..]);
      s := Steps(1, s, w, hash, block[..]);
      s := Steps(2, s, w, hash, block[..]);
      s := Steps(3, s, w, hash, block[..]);
      hash := State(Add(hash.a, s.a), Add(hash.b, s.b), Add(hash.c, s.c), Add(hash.d, s.d), Add(hash.e, s.e));
      index := 0;
    }

    /** Eight bits more, in two words; the carry out of the high one marks the context as
        corrupted, with the number that elsewhere means a null pointer. */
    method Count()
      requires low < B && high < B
      modifies this`low, this`high, this`corrupted
      ensures var bits := old(low) + old(high) * B + 8;
        old(low) % 8 == 0 && bits < BB ==> low < B && high < B && low + high * B == bits && corrupted == old(corrupted)
      ensures old(low) % 8 == 0 && old(low) + old(high) * B + 8 >= BB ==> corrupted == 1
    {
      low := (low + 8) % B;
      if low == 0 {
        high := (high + 1) % B;
        if high == 0 {
          corrupted := 1;
        }
      }
    }

    /** One turn of the input loop. */
    method InputByte(c: bv8)
      requires Open()
      modifies this, block
      ensures block == old(block) && fed == old(fed) + [c] && computed == old(computed)
      ensures 8 * |fed| < BB ==> Open() && corrupted == old(corrupted)
      ensures 8 * |fed| >= BB ==> corrupted == 1
    {
      hide Took;
      StoreByte(c);
      Count();
      fed := fed + [c];
    }

    /** The data part of that turn. */
    method StoreByte(c: bv8)
      requires Took(fed) && index == |fed| % 64
      modifies this`hash, this`index, block
      ensures Took(fed + [c]) && index == |fed + [c]| % 64
    {
      hide Fold, Compress, Whole, Tail;
      block[index] := c;
      index := index + 1;
      assert block[..index] == Tail(fed) + [c];
      if index == 64 {
        ghost var full := block[..];
        assert full == Tail(fed) + [c];
        ProcessBlock();
        BlockCompleted(fed, c, full);
      } else {
        BlockGrows(fed, c);
      }
    }

    /** SHA1Input: continues with data, however long. Only a message of 2^64 bits or more
        corrupts the context; that the input came after the digest is an error. */
    method Input(data: seq<bv8>) returns (r: nat)
      requires Valid() && |data| < B
      modifies this, block
      ensures Valid() && block == old(block) && computed == old(computed)
      ensures data == [] ==> r == SUCCESS && fed == old(fed) && corrupted == old(corrupted)
      ensures data != [] && old(computed) ==> r == corrupted == 3
      ensures data != [] && !old(computed) && old(corrupted) != SUCCESS ==> r == corrupted == old(corrupted)
      ensures !old(computed) && old(corrupted) == SUCCESS ==> r == SUCCESS
      ensures !old(computed) && old(corrupted) == SUCCESS && 8 * (|old(fed)| + |data|) < BB ==>
                corrupted == SUCCESS && fed == old(fed) + data
      ensures !old(computed) && old(corrupted) == SUCCESS && 8 * (|old(fed)| + |data|) >= BB ==> corrupted == 1
    {
      hide Fold, Padded, Whole, Tail, Compress;
      if |data| == 0 {
        assert fed + data == fed;
        return SUCCESS;
      }
      if computed {
        corrupted := STATE_ERROR;
        return STATE_ERROR;
      }
      if corrupted != SUCCESS {
        return corrupted;
      }
      var p := 0;
      while p < |data| && corrupted == SUCCESS
        invariant p <= |data| && block == old(block) && !computed && block.Length == 64
        invariant fed == old(fed) + data[..p]
        invariant corrupted == SUCCESS ==> Open()
        invariant if 8 * (|old(fed)| + p) < BB then corrupted == SUCCESS else corrupted == 1
      {
        InputByte(data[p]);
        assert data[..p + 1] == data[..p] + [data[p]];
        p := p + 1;
      }
      assert corrupted == SUCCESS ==> data[..p] == data;
      r := SUCCESS;
    }

    /** SHA1PadMessage: pads and processes the last one or two blocks. */
    method PadMessage()
      requires Open()
      modifies this`hash, this`index, block
      ensures Finished() && index == 0
    {
      hide Fold, Compress, Whole, Tail, WordBytes, Padding, Zeros;
      ghost var done := PadOut();
      ghost var last := block[..56];
      Copy(block, 56, WordBytes(high));
      Copy(block, 60, WordBytes(low));
      Halves(low, high, 8 * |fed|);
      assert block[..] == last + LengthBytes(8 * |fed|);
      ProcessBlock();
      FoldOne(Compress, INITIAL, done, last + LengthBytes(8 * |fed|));
      assert done + (last + LengthBytes(8 * |fed|)) == Padded(fed);
    }

    /** One bit 1 and zeros up to index 56, through a second block if the index is above 55. */
    method PadOut() returns (ghost done: seq<bv8>)
      requires Took(fed) && index == |fed| % 64
      modifies this`hash, this`index, block
      ensures |done| % 64 == 0 && hash == Fold(Compress, INITIAL, done)
      ensures done + block[..56] == fed + Padding(|fed|)
    {
      hide Fold, Compress, Whole, Tail, Padding, Zeros;
      done := Whole(fed);
      if index > 55 {
        ghost var full := FillBlock();
        ProcessBlock();
        FoldOne(Compress, INITIAL, done, full);
        ZerosTo(56);
        assert block[..56] == Zeros(56);
        PaddedTwice(fed);
        done := done + full;
      } else {
        FillPart();
        PaddedOnce(fed);
      }
    }

    method FillPart()
      requires Took(fed) && 55 >= index == |fed| % 64
      modifies this`index, block
      ensures block[..56] == Tail(fed) + [0x80] + Zeros(55 - |fed| % 64)
    {
      hide Fold, Compress, Whole, Tail, Zeros;
      block[index] := 0x80;
      index := index + 1;
      assert block[..index] == Tail(fed) + [0x80];
      ZerosTo(56);
      assert block[..56] == Tail(fed) + [0x80] + Zeros(55 - |fed| % 64);
    }

    method FillBlock() returns (ghost full: Block)
      requires Took(fed) && 55 < index == |fed| % 64
      modifies this`index, block
      ensures full == block[..] == Tail(fed) + [0x80] + Zeros(63 - |fed| % 64)
    {
      hide Fold, Compress, Whole, Tail, Zeros;
      block[index] := 0x80;
      index := index + 1;
      assert block[..index] == Tail(fed) + [0x80];
      ZerosTo(64);
      full := block[..];
      assert full == Tail(fed) + [0x80] + Zeros(63 - |fed| % 64);
    }

    method ZerosTo(to: nat)
      requires index <= to <= 64 == block.Length
      modifies this`index, block
      ensures index == to && block[..] == old(block[..index]) + Zeros(to - old(index)) + old(block[to..])
    {
      ghost var from, was := index, block[..];
      while index < to
        invariant from <= index <= to
        invariant block[..] == was[..from] + Zeros(index - from) + was[index..]
      {
        block[index] := 0;
        index := index + 1;
      }
    }

    /** SHA1Result: the digest of everything that was taken in, as often as it is asked for, or
        the reason why there is none. */
    method Result() returns (r: nat, digest: seq<bv8>)
      requires Valid()
      modifies this, block
      ensures Valid() && block == old(block) && fed == old(fed)
      ensures r == corrupted == old(corrupted)
      ensures r == SUCCESS ==> computed && digest == Digest(fed)
    {
      hide Fold, Compress, Padded, StateBytes, Whole, Tail;
      if corrupted != SUCCESS {
        return corrupted, [];
      }
      if !computed {
        PadMessage();
        Clear(block, 0, 64);
        low, high := 0, 0;
        computed := true;
      }
      return SUCCESS, StateBytes(hash);
    }
  }

  lemma Halves(low: nat, high: nat, bits: nat)
    requires low < B && low + high * B == bits
    ensures high == bits / B && low == bits % B
  {
  }

  lemma BlockCompleted(m: seq<bv8>, c: bv8, block: Block)
    requires |m| % 64 == 63 && block == Tail(m) + [c]
    ensures |m + [c]| % 64 == 0 && Whole(m + [c]) == m + [c] && Tail(m + [c]) == []
    ensures Fold(Compress, INITIAL, m + [c]) == Compress(Fold(Compress, INITIAL, Whole(m)), block)
  {
    hide Fold, Compress;
    assert m + [c] == Whole(m) + block;
    FoldOne(Compress, INITIAL, Whole(m), block);
  }

  lemma BlockGrows(m: seq<bv8>, c: bv8)
    requires |m| % 64 < 63
    ensures |m + [c]| % 64 == |m| % 64 + 1
    ensures Whole(m + [c]) == Whole(m) && Tail(m + [c]) == Tail(m) + [c]
  {
    NextInBlock(|m|);
    var start := |m| - |m| % 64;
    assert |m + [c]| == |m| + 1 && (m + [c])[..start] == m[..start] && (m + [c])[start..] == m[start..] + [c];
  }

  lemma NextInBlock(n: nat)
    requires n % 64 < 63
    ensures (n + 1) % 64 == n % 64 + 1
  {
  }

  // ---- the interface ----

  /** sha1hash: the digest of one buffer. */
  method Sha1Hash(data: seq<bv8>) returns (hash: seq<bv8>)
    requires |data| < B
    ensures hash == Digest(data)
  {
    hide Digest;
    var sha := new SHA1Context();
    sha.Reset();
    var _ := sha.Input(data);
    assert [] + data == data;
    var r;
    r, hash := sha.Result();
  }

  /** However a message of less than 2^64 bits is cut into parts, the digest is that of the
      whole message. */
  method HashInParts(parts: seq<seq<bv8>>) returns (r: nat, hash: seq<bv8>)
    requires forall i :: 0 <= i < |parts| ==> |parts[i]| < B
    ensures 8 * |Concat(parts)| < BB ==> r == SUCCESS && hash == Digest(Concat(parts))
    ensures 8 * |Concat(parts)| >= BB ==> r != SUCCESS
  {
    hide Digest;
    var sha := new SHA1Context();
    sha.Reset();
    for i := 0 to |parts|
      invariant sha.Valid() && fresh(sha) && fresh(sha.block) && !sha.computed
      invariant 8 * |Concat(parts[..i])| < BB ==> sha.corrupted == SUCCESS && sha.fed == Concat(parts[..i])
      invariant 8 * |Concat(parts[..i])| >= BB ==> sha.corrupted != SUCCESS
    {
      assert parts[..i + 1][..i] == parts[..i];
      var _ := sha.Input(parts[i]);
    }
    assert parts[..|parts|] == parts;
    r, hash := sha.Result();
  }
}
