/** Base64 (base64.c; RFC 4648, section 4). */
module Base64 {
  import opened Bytes
  import opened Sums

  const PAD: byte := 0x3d

  type sixBits = v: int | 0 <= v < 64

  /** The letter for six bits: A to Z, a to z, 0 to 9, + and /. */
  function Letter(v: sixBits): (c: byte)
  {
    if v < 26 then 0x41 + v else if v < 52 then 0x61 + v - 26 else if v < 62 then 0x30 + v - 52
    else if v == 62 then 0x2b else 0x2f
  }

  /** What the decoder makes of a character: six bits, the end, or nothing. */
  datatype Meaning = Bits(v: sixBits) | Stop | Noise

  function Read(c: byte): (r: Meaning)
    ensures r.Bits? ==> Letter(r.v) == c
  {
    if 0x41 <= c <= 0x5a then Bits(c - 0x41)
    else if 0x61 <= c <= 0x7a then Bits(c - 0x61 + 26)
    else if 0x30 <= c <= 0x39 then Bits(c - 0x30 + 52)
    else if c == 0x2b then Bits(62)
    else if c == 0x2f then Bits(63)
    else if c == PAD || c == 0 then Stop
    else Noise
  }

  lemma LetterRead(v: sixBits)
    ensures Read(Letter(v)) == Bits(v)
  {
  }

  // ---- encoding ----

  /** The three or fewer bytes of a group as four characters; bits behind the end come from
      next, which is not part of the data. */
  function Group(x: seq<byte>, next: byte): (g: seq<byte>)
    requires 1 <= |x| <= 3
    ensures |g| == 4
  {
    var b1 := if |x| > 1 then x[1] else next;
    var b2 := if |x| > 2 then x[2] else next;
    [Letter(x[0] / 4), Letter(x[0] % 4 * 16 + b1 / 16),
     if |x| > 1 then Letter(b1 % 16 * 4 + b2 / 64) else PAD,
     if |x| > 2 then Letter(b2 % 64) else PAD]
  }

  function Encode(x: seq<byte>, next: byte): (e: seq<byte>)
    ensures |e| == (|x| + 2) / 3 * 4
  {
    if |x| == 0 then [] else if |x| <= 3 then Group(x, next)
    else Group(x[..3], next) + Encode(x[3..], next)
  }

  lemma EncodeStep(x: seq<byte>, s: nat, next: byte)
    requires s < |x|
    ensures var n := if |x| - s < 3 then |x| - s else 3;
      Encode(x[s..], next) == Group(x[s..s + n], next) + if s + 3 < |x| then Encode(x[s + 3..], next) else []
  {
    if s + 3 < |x| {
      assert x[s..][..3] == x[s..s + 3] && x[s..][3..] == x[s + 3..];
    } else {
      assert x[s..] == x[s..s + if |x| - s < 3 then |x| - s else 3];
    }
  }

  /** The test vectors of RFC 4648, section 10: "foobar", "fooba" and "foob". */
  lemma TestVectors()
    ensures Encode([0x66, 0x6f, 0x6f, 0x62, 0x61, 0x72], 0) == [0x5a, 0x6d, 0x39, 0x76, 0x59, 0x6d, 0x46, 0x79]
    ensures Encode([0x66, 0x6f, 0x6f, 0x62, 0x61], 0) == [0x5a, 0x6d, 0x39, 0x76, 0x59, 0x6d, 0x45, 0x3d]
    ensures Encode([0x66, 0x6f, 0x6f, 0x62], 0) == [0x5a, 0x6d, 0x39, 0x76, 0x59, 0x67, 0x3d, 0x3d]
  {
    hide Group, Encode;
    var foo, bar: seq<byte> := [0x66, 0x6f, 0x6f], [0x62, 0x61, 0x72];
    FooBar();
    EncodeTwo(foo, bar);
    EncodeTwo(foo, bar[..2]);
    EncodeTwo(foo, bar[..1]);
    assert foo + bar == [0x66, 0x6f, 0x6f, 0x62, 0x61, 0x72];
    assert foo + bar[..2] == [0x66, 0x6f, 0x6f, 0x62, 0x61] && foo + bar[..1] == [0x66, 0x6f, 0x6f, 0x62];
    assert bar[..2] == [0x62, 0x61] && bar[..1] == [0x62];
  }

  lemma FooBar()
    ensures Group([0x66, 0x6f, 0x6f], 0) == [0x5a, 0x6d, 0x39, 0x76]
    ensures Group([0x62, 0x61, 0x72], 0) == [0x59, 0x6d, 0x46, 0x79]
    ensures Group([0x62, 0x61], 0) == [0x59, 0x6d, 0x45, 0x3d] && Group([0x62], 0) == [0x59, 0x67, 0x3d, 0x3d]
  {
  }

  lemma EncodeTwo(a: seq<byte>, b: seq<byte>)
    requires |a| == 3 && 1 <= |b| <= 3
    ensures Encode(a + b, 0) == Group(a, 0) + Group(b, 0)
  {
    hide Group;
    assert (a + b)[..3] == a && (a + b)[3..] == b;
  }

  /** The alphabet of RFC 4648, table 1. */
  lemma Alphabet(v: sixBits)
    ensures v < 26 ==> Letter(v) as char == "ABCDEFGHIJKLMNOPQRSTUVWXYZ"[v]
    ensures 26 <= v < 52 ==> Letter(v) as char == "abcdefghijklmnopqrstuvwxyz"[v - 26]
    ensures 52 <= v ==> Letter(v) as char == "0123456789+/"[v - 52]
  {
  }

  /** One turn of the encoder. */
  method EncodeGroup(src: seq<byte>, s: nat, len: nat, dst: array<byte>, d: nat)
    requires 1 <= len && s + (if len < 3 then len + 1 else 3) <= |src| && d + 4 <= dst.Length
    modifies dst
    ensures dst[..d + 4] == old(dst[..d])
                            + Group(src[s..s + if len < 3 then len else 3], if len < 3 then src[s + len] else 0)
    ensures forall i :: d + 4 <= i < dst.Length ==> dst[i] == old(dst[i])
  {
    hide Letter;
    ghost var was := dst[..d];
    ghost var x := src[s..s + if len < 3 then len else 3];
    assert x[0] == src[s] && (len > 1 ==> x[1] == src[s + 1]) && (len > 2 ==> x[2] == src[s + 2]);
    dst[d] := Letter(src[s] / 4);
    dst[d + 1] := Letter(src[s] % 4 * 16 + src[s + 1] / 16);
    dst[d + 2] := if len > 1 then Letter(src[s + 1] % 16 * 4 + src[s + 2] / 64) else PAD;
    dst[d + 3] := if len > 2 then Letter(src[s + 2] % 64) else PAD;
    assert dst[..d + 4] == was + [dst[d], dst[d + 1], dst[d + 2], dst[d + 3]];
  }

  /** base64encode: reads one byte behind the data when their number is no multiple of three. */
  method Base64Encode(src: seq<byte>, len: nat, dst: array<byte>)
    requires len <= |src| && (len % 3 != 0 ==> len < |src|)
    requires (len + 2) / 3 * 4 + 1 <= dst.Length
    modifies dst
    ensures dst[..(len + 2) / 3 * 4] == Encode(src[..len], if len < |src| then src[len] else 0)
    ensures dst[(len + 2) / 3 * 4] == 0
    ensures forall i :: (len + 2) / 3 * 4 < i < dst.Length ==> dst[i] == old(dst[i])
  {
    hide Encode, Group, Letter;
    ghost var x, next, k := src[..len], if len < |src| then src[len] else 0, 0;
    var s, d, rest := 0, 0, len as int;
    assert x[0..] == x;
    EncodeNothing(next);
    while rest > 0
      invariant s == 3 * k && d == 4 * k && rest == len - s && s < len + 3
      invariant dst[..d] + Encode(if s < len then x[s..] else [], next) == Encode(x, next)
      invariant forall i :: d <= i < dst.Length ==> dst[i] == old(dst[i])
    {
      Groups(len, k);
      EncodeTurn(x, src, s, rest, next, dst[..d]);
      EncodeGroup(src, s, rest, dst, d);
      s, d, rest, k := s + 3, d + 4, rest - 3, k + 1;
    }
    Groups(len, k);
    dst[d] := 0;
  }

  /** After k groups of three there is room for another if there are bytes left. */
  lemma Groups(len: nat, k: nat)
    requires 3 * k < len + 3
    ensures 3 * k < len ==> 4 * k + 4 <= (len + 2) / 3 * 4
    ensures 3 * k < len && len - 3 * k < 3 ==> len % 3 == len - 3 * k
    ensures 3 * k >= len ==> 4 * k == (len + 2) / 3 * 4
  {
  }

  lemma EncodeTurn(x: seq<byte>, src: seq<byte>, s: nat, rest: nat, next: byte, done: seq<byte>)
    requires rest >= 1 && s + rest <= |src| && s + (if rest < 3 then rest + 1 else 3) <= |src|
    requires x == src[..s + rest]
    requires rest < 3 ==> next == src[s + rest]
    ensures var g := Group(src[s..s + if rest < 3 then rest else 3], if rest < 3 then src[s + rest] else 0);
      done + Encode(x[s..], next) == (done + g) + Encode(if s + 3 < |x| then x[s + 3..] else [], next)
  {
    hide Encode, Group;
    EncodeStep(x, s, next);
    EncodeNothing(next);
    var n := if rest < 3 then rest else 3;
    assert x[s..s + n] == src[s..s + n];
    FullGroup(src[s..s + n], next, if rest < 3 then src[s + rest] else 0);
    Associates(done, Group(x[s..s + n], next), if s + 3 < |x| then Encode(x[s + 3..], next) else []);
  }

  lemma EncodeNothing(next: byte)
    ensures Encode([], next) == []
  {
  }

  lemma FullGroup(x: seq<byte>, next: byte, other: byte)
    requires 1 <= |x| <= 3 && (|x| < 3 ==> other == next)
    ensures Group(x, next) == Group(x, other)
  {
    hide Letter;
  }

  // ---- decoding ----

  /** What is left of a text without the characters that mean nothing. */
  function Clean(s: seq<byte>): seq<byte>
  {
    if s == [] then [] else (if Read(s[0]).Noise? then [] else [s[0]]) + Clean(s[1..])
  }

  predicate Quiet(g: seq<Meaning>) { forall i :: 0 <= i < |g| ==> !g[i].Noise? }

  /** What the decoder sees of a text. */
  function Signals(s: seq<byte>): (g: seq<Meaning>)
    ensures Quiet(g)
  {
    if s == [] then [] else (if Read(s[0]).Noise? then [] else [Read(s[0])]) + Signals(s[1..])
  }

  lemma {:induction false} SignalsOfClean(s: seq<byte>)
    ensures Signals(Clean(s)) == Signals(s)
  {
    if s != [] {
      SignalsOfClean(s[1..]);
      if Read(s[0]).Noise? {
        assert Clean(s) == Clean(s[1..]) && Signals(s) == Signals(s[1..]);
      } else {
        assert Clean(s)[1..] == Clean(s[1..]);
      }
    }
  }

  function Head(g: seq<Meaning>): Meaning { if g == [] then Stop else g[0] }

  function Rest(g: seq<Meaning>): seq<Meaning> { if g == [] then [] else g[1..] }

  /** The decoded bytes, and what base64decode returns. */
  datatype Decoded = Decoded(bytes: seq<byte>, ret: int)

  /** One group: the output with its bytes and what is left to read, or no room. */
  datatype Turn = More(out: seq<byte>, rest: seq<Meaning>) | Full(out: seq<byte>)

  /** A stop inside a group drops the rest of it, but not the bytes before. */
  function OneGroup(g: seq<Meaning>, out: seq<byte>, max: nat): (t: Turn)
    requires Head(g).Bits? && |out| < max && Quiet(g)
    ensures t.More? ==> |t.rest| < |g| && |t.out| <= max && Quiet(t.rest)
  {
    if Head(g[1..]).Stop? then More(out, Rest(g[1..]))
    else SecondByte(g[1..], out + [g[0].v * 4 + g[1].v / 16], max)
  }

  /** The rest of a group behind its first byte, from the second character on. */
  function SecondByte(g: seq<Meaning>, out: seq<byte>, max: nat): (t: Turn)
    requires Head(g).Bits? && |out| <= max && Quiet(g)
    ensures t.More? ==> |t.rest| < |g| && |t.out| <= max && Quiet(t.rest)
  {
    if |out| == max then Full(out)
    else if Head(g[1..]).Stop? then More(out, Rest(g[1..]))
    else ThirdByte(g[1..], out + [g[0].v % 16 * 16 + g[1].v / 4], max)
  }

  function ThirdByte(g: seq<Meaning>, out: seq<byte>, max: nat): (t: Turn)
    requires Head(g).Bits? && |out| <= max && Quiet(g)
    ensures t.More? ==> |t.rest| < |g| && |t.out| <= max && Quiet(t.rest)
  {
    if |out| == max then Full(out)
    else if Head(g[1..]).Stop? then More(out, Rest(g[1..]))
    else More(out + [g[0].v % 4 * 64 + g[1].v], g[2..])
  }

  /** Groups of four characters, as long as there are any and there is room. Only a buffer that is
      full inside a group is an error. */
  function Decode(g: seq<Meaning>, out: seq<byte>, max: int): (d: Decoded)
    requires Quiet(g)
    decreases |g|
  {
    if Head(g).Stop? || |out| >= max then Decoded(out, |out|) else
    match OneGroup(g, out, max)
    case Full(o) => Decoded(o, -1)
    case More(o, rest) => Decode(rest, o, max)
  }

  /** val: the next six bits, or 0x10000 at a padding character, which is consumed, and at the
      end, which is not; everything else is skipped. */
  method Val(src: seq<byte>, i: nat) returns (v: nat, j: nat)
    requires i <= |src| && 0 !in src
    ensures i <= j <= |src| && (i < |src| ==> i < j) && (v < 64 || v == 0x10000)
    ensures v < 64 <==> Head(Signals(src[i..])).Bits?
    ensures v < 64 ==> Head(Signals(src[i..])) == Bits(v)
    ensures Signals(src[j..]) == Rest(Signals(src[i..]))
  {
    j := i;
    while j < |src|
      invariant i <= j <= |src| && Signals(src[j..]) == Signals(src[i..])
    {
      var c := src[j];
      j := j + 1;
      assert src[j - 1..][1..] == src[j..] && c in src;
      if Read(c).Bits? {
        return Read(c).v, j;
      }
      if c == PAD {
        return 0x10000, j;
      }
    }
    v := 0x10000;
  }

  method Put(dst: array<byte>, t: nat, b: byte)
    requires t < dst.Length
    modifies dst
    ensures dst[t] == b && dst[..t + 1] == old(dst[..t]) + [b]
    ensures forall i :: 0 <= i < dst.Length && i != t ==> dst[i] == old(dst[i])
  {
    dst[t] := b;
  }

  /** What a part of the decoder did: it is at s in the text and t in the buffer, or out of room. */
  ghost predicate Did(r: Turn, src: seq<byte>, s: nat, dst: array<byte>, t: int)
    reads dst
  {
    && s <= |src| && -1 <= t <= dst.Length
    && match r
       case Full(_) => t == -1
       case More(out, rest) => t >= 0 && dst[..t] == out && Signals(src[s..]) == rest
  }

  /** One turn of base64decode's loop behind its first character v1. The two halves of a byte
      have no bits in common; an end sets none. */
  method DecodeGroup(src: seq<byte>, v1: sixBits, s0: nat, dst: array<byte>, t0: nat, end: nat, ghost g: seq<Meaning>)
    returns (s: nat, t: int)
    requires 0 !in src && s0 <= |src| && t0 < end <= dst.Length
    requires g == [Bits(v1)] + Signals(src[s0..])
    modifies dst
    ensures s0 <= s && t <= end && Did(OneGroup(g, old(dst[..t0]), end), src, s, dst, t)
    ensures forall i :: 0 <= i < dst.Length && i >= end ==> dst[i] == old(dst[i])
  {
    hide Signals, SecondByte;
    assert g[1..] == Signals(src[s0..]);
    t := t0;
    ghost var out := dst[..t0];
    Put(dst, t, v1 * 4);
    assert dst[..t] == dst[..t + 1][..t] == out;
    var v;
    v, s := Val(src, s0);
    Put(dst, t, (dst[t] + v / 16) % 0x100);
    if v < 64 {
      assert dst[..t + 1] == out + [v1 * 4 + v / 16];
      s, t := DecodeSecond(src, v, s, dst, t + 1, end, g[1..]);
    } else {
      assert dst[..t] == dst[..t + 1][..t] == old(dst[..t0]);
    }
  }

  lemma Remainder(x: nat, q: nat, r: nat)
    requires x == 0x100 * q + r && r < 0x100
    ensures x % 0x100 == r
  {
  }

  lemma MiddleBits(v2: sixBits, v3: sixBits)
    ensures (v2 * 16 % 0x100 + v3 / 4) % 0x100 == v2 % 16 * 16 + v3 / 4
  {
    Remainder(v2 * 16, v2 / 16, v2 % 16 * 16);
  }

  lemma LowBits(v3: sixBits, v4: sixBits)
    ensures (v3 * 64 % 0x100 + v4 % 64) % 0x100 == v3 % 4 * 64 + v4
  {
    Remainder(v3 * 64, v3 / 4, v3 % 4 * 64);
  }

  method DecodeSecond(src: seq<byte>, v2: sixBits, s0: nat, dst: array<byte>, t0: nat, end: nat, ghost g: seq<Meaning>)
    returns (s: nat, t: int)
    requires 0 !in src && s0 <= |src| && t0 <= end <= dst.Length && Quiet(g)
    requires Head(g) == Bits(v2) && Signals(src[s0..]) == Rest(g)
    modifies dst
    ensures s0 <= s && t <= end && Did(SecondByte(g, old(dst[..t0]), end), src, s, dst, t)
    ensures forall i :: 0 <= i < dst.Length && i >= end ==> dst[i] == old(dst[i])
  {
    hide Signals, ThirdByte;
    t := t0;
    if t == end {
      return s0, -1;
    }
    ghost var out := dst[..t0];
    Put(dst, t, v2 * 16 % 0x100);
    assert dst[..t] == dst[..t + 1][..t] == out;
    var v;
    v, s := Val(src, s0);
    Put(dst, t, (dst[t] + v / 4) % 0x100);
    if v < 64 {
      MiddleBits(v2, v);
      assert dst[..t + 1] == out + [v2 % 16 * 16 + v / 4];
      s, t := DecodeThird(src, v, s, dst, t + 1, end, g[1..]);
    } else {
      assert dst[..t] == dst[..t + 1][..t] == old(dst[..t0]);
    }
  }

  method DecodeThird(src: seq<byte>, v3: sixBits, s0: nat, dst: array<byte>, t0: nat, end: nat, ghost g: seq<Meaning>)
    returns (s: nat, t: int)
    requires 0 !in src && s0 <= |src| && t0 <= end <= dst.Length && Quiet(g)
    requires Head(g) == Bits(v3) && Signals(src[s0..]) == Rest(g)
    modifies dst
    ensures s0 <= s && t <= end && Did(ThirdByte(g, old(dst[..t0]), end), src, s, dst, t)
    ensures forall i :: 0 <= i < dst.Length && i >= end ==> dst[i] == old(dst[i])
  {
    hide Signals;
    t := t0;
    if t == end {
      return s0, -1;
    }
    ghost var out := dst[..t0];
    Put(dst, t, v3 * 64 % 0x100);
    assert dst[..t] == dst[..t + 1][..t] == out;
    var v;
    v, s := Val(src, s0);
    Put(dst, t, (dst[t] + v % 64) % 0x100);
    if v < 64 {
      LowBits(v3, v);
      assert dst[..t + 1] == out + [v3 % 4 * 64 + v];
      t := t + 1;
    } else {
      assert dst[..t] == dst[..t + 1][..t] == old(dst[..t0]);
    }
  }

  /** base64decode. */
  method Base64Decode(src: seq<byte>, dst: array<byte>, maxLen: int) returns (n: int)
    requires 0 !in src && maxLen <= dst.Length
    modifies dst
    ensures n == Decode(Signals(src), [], maxLen).ret && n <= dst.Length
    ensures n >= 0 ==> dst[..n] == Decode(Signals(src), [], maxLen).bytes
    ensures forall i :: 0 <= i < dst.Length && i >= maxLen ==> dst[i] == old(dst[i])
  {
    hide Signals, OneGroup;
    var s, t := 0, 0;
    assert src[0..] == src;
    while s < |src| && t < maxLen
      invariant s <= |src| && 0 <= t <= dst.Length && (t <= maxLen || t == 0)
      invariant Decode(Signals(src[s..]), dst[..t], maxLen) == Decode(Signals(src), [], maxLen)
      invariant forall i :: 0 <= i < dst.Length && i >= maxLen ==> dst[i] == old(dst[i])
      decreases |src| - s
    {
      ghost var g := Signals(src[s..]);
      var v, s' := Val(src, s);
      if v > 64 {
        break;
      }
      s, t := DecodeGroup(src, v, s', dst, t, maxLen, g);
      if t < 0 {
        return -1;
      }
    }
    if s == |src| {
      NoSignals();
      assert src[s..] == [];
    }
    n := t;
  }

  lemma NoSignals()
    ensures Signals([]) == []
  {
  }

  // ---- the round trip ----

  /** What decoding the encoded x with room for max bytes gives, behind the whole groups out. */
  function Expected(x: seq<byte>, out: seq<byte>, max: int): Decoded
    requires |out| <= max
  {
    if |out| + |x| < max then Decoded(out + x, |out| + |x|)
    else if max % 3 == 0 then Decoded(out + x[..max - |out|], max)
    else Decoded(out + x[..max - |out|], -1)
  }

  lemma GroupSignals(x: seq<byte>, next: byte, more: seq<byte>)
    requires 1 <= |x| <= 3
    ensures Signals(Group(x, next) + more) ==
      [Read(Group(x, next)[0]), Read(Group(x, next)[1]), Read(Group(x, next)[2]), Read(Group(x, next)[3])]
      + Signals(more)
  {
    hide Letter, Read;
    var g := Group(x, next);
    LettersMean(x, next);
    assert g + more == [g[0]] + ([g[1]] + ([g[2]] + ([g[3]] + more)));
    SignalsStep(g[3], more);
    SignalsStep(g[2], [g[3]] + more);
    SignalsStep(g[1], [g[2]] + ([g[3]] + more));
    SignalsStep(g[0], [g[1]] + ([g[2]] + ([g[3]] + more)));
  }

  lemma SignalsStep(c: byte, more: seq<byte>)
    requires !Read(c).Noise?
    ensures Signals([c] + more) == [Read(c)] + Signals(more)
  {
    assert ([c] + more)[1..] == more;
  }

  /** What the four characters of a group mean. */
  lemma LettersMean(x: seq<byte>, next: byte)
    requires 1 <= |x| <= 3
    ensures var g := Group(x, next);
      var b1 := if |x| > 1 then x[1] else next;
      var b2 := if |x| > 2 then x[2] else next;
      && Read(g[0]) == Bits(x[0] / 4) && Read(g[1]) == Bits(x[0] % 4 * 16 + b1 / 16)
      && Read(g[2]) == (if |x| > 1 then Bits(b1 % 16 * 4 + b2 / 64) else Stop)
      && Read(g[3]) == (if |x| > 2 then Bits(b2 % 64) else Stop)
  {
    hide Letter, Read;
    var b1 := if |x| > 1 then x[1] else next;
    var b2 := if |x| > 2 then x[2] else next;
    LetterRead(x[0] / 4);
    LetterRead(x[0] % 4 * 16 + b1 / 16);
    LetterRead(b1 % 16 * 4 + b2 / 64);
    LetterRead(b2 % 64);
    PadRead();
  }

  lemma PadRead()
    ensures Read(PAD) == Stop
  {
  }

  /** A group puts its bytes behind out, as far as there is room. */
  lemma GroupDecoded(x: seq<byte>, next: byte, more: seq<Meaning>, out: seq<byte>, max: nat)
    requires 1 <= |x| <= 3 && |out| < max && Quiet(more)
    ensures var c := Group(x, next);
      var g := [Read(c[0]), Read(c[1]), Read(c[2]), Read(c[3])] + more;
      && Quiet(g) && Head(g).Bits?
      && OneGroup(g, out, max)
         == if max - |out| < |x| || (max - |out| == |x| && |x| < 3) then Full(out + x[..max - |out|])
            else More(out + x, if |x| == 1 then [Stop] + more else more)
  {
    hide Group, Read, Letter;
    LettersMean(x, next);
    BytesBack(x, next);
    var c := Group(x, next);
    var g := [Read(c[0]), Read(c[1]), Read(c[2]), Read(c[3])] + more;
    var g1, g2 := g[1..], g[2..];
    assert g1[1..] == g2 && g2[1..] == g[3..] && g[4..] == more;
    assert out + [x[0]] == out + x[..1];
    if |x| > 1 {
      assert out + [x[0]] + [x[1]] == out + x[..2];
    }
    if |x| > 2 {
      assert out + [x[0]] + [x[1]] + [x[2]] == out + x[..3];
    }
  }

  lemma BytesBack(x: seq<byte>, next: byte)
    requires 1 <= |x| <= 3
    ensures var b1 := if |x| > 1 then x[1] else next;
      var b2 := if |x| > 2 then x[2] else next;
      && x[0] / 4 * 4 + (x[0] % 4 * 16 + b1 / 16) / 16 == x[0]
      && (x[0] % 4 * 16 + b1 / 16) % 16 * 16 + (b1 % 16 * 4 + b2 / 64) / 4 == b1
      && (b1 % 16 * 4 + b2 / 64) % 4 * 64 + b2 % 64 == b2
  {
  }

  lemma {:induction false} DecodeEncoded(x: seq<byte>, next: byte, out: seq<byte>, max: nat)
    requires |out| % 3 == 0 && |out| <= max
    ensures Decode(Signals(Encode(x, next)), out, max) == Expected(x, out, max)
    decreases |x|
  {
    hide Group, Read, OneGroup, Signals;
    NoSignals();
    if x == [] || |out| == max {
      assert out + [] == out;
    } else {
      var n := if |x| < 3 then |x| else 3;
      var more := if |x| <= 3 then [] else Encode(x[3..], next);
      assert Encode(x, next) == Group(x[..n], next) + more by {
        assert x[..|x|] == x && Group(x[..n], next) + [] == Group(x[..n], next);
      }
      GroupSignals(x[..n], next, more);
      GroupDecoded(x[..n], next, Signals(more), out, max);
      if max - |out| >= 3 {
        if |x| > 3 {
          DecodeEncoded(x[3..], next, out + x[..3], max);
          ExpectedShifts(x, out, max);
        } else {
          assert x[..n] == x;
        }
      }
    }
  }

  lemma ExpectedShifts(x: seq<byte>, out: seq<byte>, max: nat)
    requires |x| > 3 && |out| + 3 <= max
    ensures Expected(x[3..], out + x[..3], max) == Expected(x, out, max)
  {
    assert out + x[..3] + x[3..] == out + x;
    if |out| + |x| >= max {
      assert out + x[..3] + x[3..][..max - |out| - 3] == out + x[..max - |out|];
    }
  }

  /** The round trip: from an encoding of x, with blanks, newlines or other meaningless characters
      anywhere in it, the decoder gives x and its length exactly if there is room for one byte
      more, or just for x and no group is left incomplete. With less room it gives as many whole
      groups as fit, or -1 if the room ends within a group. */
  lemma RoundTrip(x: seq<byte>, next: byte, e: seq<byte>, max: nat)
    requires Clean(e) == Encode(x, next)
    ensures Decode(Signals(e), [], max) == Expected(x, [], max)
    ensures Decode(Signals(e), [], max) == Decoded(x, |x|) <==> max > |x| || (max == |x| && |x| % 3 == 0)
  {
    hide Encode, Clean, Signals, Decode;
    SignalsOfClean(e);
    DecodeEncoded(x, next, [], max);
    if |x| <= max {
      assert [] + x == x && x[..|x|] == x;
    }
  }

  predicate Readable(s: seq<byte>) { forall c :: c in s ==> c != 0 && !Read(c).Noise? }

  lemma GroupReadable(x: seq<byte>, next: byte)
    requires 1 <= |x| <= 3
    ensures Readable(Group(x, next))
  {
    hide Letter;
    LettersMean(x, next);
    forall i | 0 <= i < 4
      ensures Group(x, next)[i] != 0
    {
      NulStops();
    }
    if |x| < 3 {
      PadRead();
    }
  }

  lemma NulStops()
    ensures Read(0) == Stop
  {
  }

  lemma {:induction false} CleanReadable(s: seq<byte>)
    requires Readable(s)
    ensures Clean(s) == s
  {
    if s != [] {
      assert s[0] in s && forall c :: c in s[1..] ==> c in s;
      CleanReadable(s[1..]);
    }
  }

  /** The encoder's own output is such a text, and a C string. */
  lemma {:induction false} EncodeReadable(x: seq<byte>, next: byte)
    ensures Readable(Encode(x, next)) && Clean(Encode(x, next)) == Encode(x, next)
    decreases |x|
  {
    hide Group, Read, Clean;
    if |x| > 3 {
      GroupReadable(x[..3], next);
      EncodeReadable(x[3..], next);
    } else if |x| > 0 {
      GroupReadable(x, next);
    }
    CleanReadable(Encode(x, next));
  }
}
