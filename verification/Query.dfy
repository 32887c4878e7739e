/** Query strings (http.c): decoding in place, and splitting and decoding in a single pass. */
module Query {
  import opened Bytes
  import opened Sums

  const AMPERSAND: byte := 0x26
  const EQUALS: byte := 0x3d
  const PLUS: byte := 0x2b
  const PERCENT: byte := 0x25
  const SPACE: byte := 0x20

  // ---- what decoding means ----

  /** The value of a hexadecimal digit; anything else counts as 0. */
  function HexValue(b: byte): (v: nat)
    ensures v < 16
  {
    if 0x30 <= b <= 0x39 then b - 0x30
    else if 0x61 <= b <= 0x66 then b - 0x61 + 10
    else if 0x41 <= b <= 0x46 then b - 0x41 + 10
    else 0
  }

  /** How many bytes make up the first encoded character: an escape takes the two bytes behind
      the percent sign, whatever they are, as far as there are any. */
  function UnitLength(s: seq<byte>): (n: nat)
    requires s != []
    ensures 1 <= n <= |s|
  {
    if s[0] != PERCENT then 1 else if |s| >= 3 then 3 else |s|
  }

  function UnitByte(s: seq<byte>): byte
    requires s != []
  {
    if s[0] == PLUS then SPACE
    else if s[0] != PERCENT then s[0]
    else 16 * (if |s| > 1 then HexValue(s[1]) else 0) + if |s| > 2 then HexValue(s[2]) else 0
  }

  function UriDecode(s: seq<byte>): (d: seq<byte>)
    ensures |d| <= |s|
  {
    if s == [] then [] else [UnitByte(s)] + UriDecode(s[UnitLength(s)..])
  }

  /** What C takes for the string at the start of s. */
  function CString(s: seq<byte>): seq<byte>
  {
    if s == [] || s[0] == 0 then [] else [s[0]] + CString(s[1..])
  }

  lemma {:induction false} CStringOf(d: seq<byte>, rest: seq<byte>)
    requires rest != [] && rest[0] == 0
    ensures CString(d + rest) == CString(d)
  {
    if d == [] {
      assert d + rest == rest;
    } else {
      assert (d + rest)[1..] == d[1..] + rest;
      CStringOf(d[1..], rest);
    }
  }

  /** No escape is cut off. */
  predicate Complete(s: seq<byte>)
  {
    s == [] || ((s[0] == PERCENT ==> |s| >= 3) && Complete(s[UnitLength(s)..]))
  }

  lemma {:induction false} DecodeJoined(a: seq<byte>, b: seq<byte>)
    requires Complete(a)
    ensures UriDecode(a + b) == UriDecode(a) + UriDecode(b)
    ensures Complete(b) ==> Complete(a + b)
  {
    if a == [] {
      assert a + b == b;
    } else {
      var u := UnitLength(a);
      assert UnitLength(a + b) == u && UnitByte(a + b) == UnitByte(a);
      assert (a + b)[u..] == a[u..] + b;
      DecodeJoined(a[u..], b);
    }
  }

  // ---- one unit in place ----

  ghost predicate HoldsText(mem: seq<byte>, q: seq<byte>, from: nat)
  {
    && from <= |q| < |mem| && mem[|q|] == 0
    && forall i :: from <= i < |q| ==> mem[i] == q[i] && q[i] != 0
  }

  /** The body of both loops for a byte that is no separator: reads one unit at s and writes one
      byte at t, which is not beyond s. */
  method DecodeUnit(mem: array<byte>, s0: nat, t: nat, ghost q: seq<byte>) returns (s: nat)
    requires HoldsText(mem[..], q, s0) && t <= s0 < |q|
    modifies mem
    ensures s == s0 + UnitLength(q[s0..])
    ensures mem[t] == UnitByte(q[s0..])
    ensures forall i :: 0 <= i < mem.Length && i != t ==> mem[i] == old(mem[i])
  {
    s := s0;
    if mem[s] == PLUS {
      mem[t] := SPACE;
      s := s + 1;
    } else if mem[s] == PERCENT {
      s := s + 1;
      var ec := 16 * HexValue(mem[s]);
      if mem[s] != 0 {
        s := s + 1;
      }
      ec := ec + HexValue(mem[s]);
      if mem[s] != 0 {
        s := s + 1;
      }
      mem[t] := ec;
    } else {
      mem[t] := mem[s];
      s := s + 1;
    }
  }

  lemma DecodeStep(q: seq<byte>, s: nat)
    requires s < |q|
    ensures s + UnitLength(q[s..]) <= |q|
    ensures UriDecode(q[s..]) == [UnitByte(q[s..])] + UriDecode(q[s + UnitLength(q[s..])..])
  {
    assert q[s..][UnitLength(q[s..])..] == q[s + UnitLength(q[s..])..];
  }

  lemma DecodeEnd(q: seq<byte>)
    ensures UriDecode(q[|q|..]) == []
  {
  }

  /** uri_decode: the string is replaced by the decoded one. */
  method UriDecodeInPlace(mem: array<byte>, ghost q: seq<byte>)
    requires HoldsText(mem[..], q, 0)
    modifies mem
    ensures mem[..|UriDecode(q)|] == UriDecode(q) && mem[|UriDecode(q)|] == 0
    ensures CString(mem[..]) == CString(UriDecode(q))
  {
    hide UriDecode, UnitByte, UnitLength, CString;
    var s, t := 0, 0;
    assert q[0..] == q;
    while mem[s] != 0
      invariant t <= s && HoldsText(mem[..], q, s)
      invariant mem[..t] + UriDecode(q[s..]) == UriDecode(q)
      decreases |q| - s
    {
      ghost var done := mem[..t];
      DecodeStep(q, s);
      ghost var b := UnitByte(q[s..]);
      Associates(done, [b], UriDecode(q[s + UnitLength(q[s..])..]));
      s := DecodeUnit(mem, s, t, q);
      assert mem[..t + 1] == done + [b];
      t := t + 1;
    }
    DecodeEnd(q);
    mem[t] := 0;
    assert mem[..] == mem[..t] + mem[t..];
    CStringOf(mem[..t], mem[t..]);
  }

  // ---- splitting ----

  /** One key=value part, still encoded. */
  datatype Piece = Piece(hasKey: bool, key: seq<byte>, value: seq<byte>)

  function IndexOf(s: seq<byte>, c: byte): (i: nat)
    ensures i <= |s| && (i < |s| ==> s[i] == c) && c !in s[..i]
  {
    if s == [] || s[0] == c then 0
    else
      assert forall j :: 1 <= j <= |s| ==> s[..j] == [s[0]] + s[1..][..j - 1];
      1 + IndexOf(s[1..], c)
  }

  /** The parts between separators. */
  function SplitOn(s: seq<byte>, c: byte): seq<seq<byte>>
  {
    var i := IndexOf(s, c);
    if i == |s| then [s] else [s[..i]] + SplitOn(s[i + 1..], c)
  }

  /** A part is cut at its first equals sign. */
  function PieceOf(part: seq<byte>): Piece
  {
    var i := IndexOf(part, EQUALS);
    if i == |part| then Piece(false, [], part) else Piece(true, part[..i], part[i + 1..])
  }

  function PiecesOf(parts: seq<seq<byte>>): seq<Piece>
  {
    if parts == [] then [] else [PieceOf(parts[0])] + PiecesOf(parts[1..])
  }

  /** What a query string means: split on ampersands, then each part on its first equals sign. */
  function Meaning(q: seq<byte>): seq<Piece> { PiecesOf(SplitOn(q, AMPERSAND)) }

  // ---- what a single pass finds ----

  /** The pieces from s on, with a key and the part of a value already read: separators are
      noticed where the pass stands, but not inside the two bytes an escape takes. */
  function Pass(s: seq<byte>, hasKey: bool, key: seq<byte>, cur: seq<byte>): (p: seq<Piece>)
    ensures |p| >= 1
    decreases |s|
  {
    if s == [] then [Piece(hasKey, key, cur)]
    else if s[0] == EQUALS && !hasKey then Pass(s[1..], true, cur, [])
    else if s[0] == AMPERSAND then [Piece(hasKey, key, cur)] + Pass(s[1..], false, [], [])
    else Pass(s[UnitLength(s)..], hasKey, key, cur + s[..UnitLength(s)])
  }

  function OnePass(q: seq<byte>): seq<Piece> { Pass(q, false, [], []) }

  /** No escape hides an ampersand, or the equals sign that would end a key. */
  predicate Undisturbed(s: seq<byte>, hasKey: bool)
    decreases |s|
  {
    if s == [] then true
    else if s[0] == EQUALS && !hasKey then Undisturbed(s[1..], true)
    else if s[0] == AMPERSAND then Undisturbed(s[1..], false)
    else
      var u := UnitLength(s);
      AMPERSAND !in s[1..u] && (hasKey || EQUALS !in s[1..u]) && Undisturbed(s[u..], hasKey)
  }

  /** The pass byte by byte. */
  function Naive(s: seq<byte>, hasKey: bool, key: seq<byte>, cur: seq<byte>): seq<Piece>
    decreases |s|
  {
    if s == [] then [Piece(hasKey, key, cur)]
    else if s[0] == EQUALS && !hasKey then Naive(s[1..], true, cur, [])
    else if s[0] == AMPERSAND then [Piece(hasKey, key, cur)] + Naive(s[1..], false, [], [])
    else Naive(s[1..], hasKey, key, cur + [s[0]])
  }

  lemma {:induction false} NaiveOver(s: seq<byte>, n: nat, hasKey: bool, key: seq<byte>, cur: seq<byte>)
    requires n <= |s| && AMPERSAND !in s[..n] && (hasKey || EQUALS !in s[..n])
    ensures Naive(s, hasKey, key, cur) == Naive(s[n..], hasKey, key, cur + s[..n])
    decreases n
  {
    if n == 0 {
      assert s[0..] == s && cur + s[..0] == cur;
    } else {
      assert s[0] in s[..n] && s[..n] == [s[0]] + s[1..][..n - 1];
      NaiveOver(s[1..], n - 1, hasKey, key, cur + [s[0]]);
      assert s[1..][n - 1..] == s[n..];
      assert cur + [s[0]] + s[1..][..n - 1] == cur + s[..n];
    }
  }

  lemma {:induction false} PassIsNaive(s: seq<byte>, hasKey: bool, key: seq<byte>, cur: seq<byte>)
    requires Undisturbed(s, hasKey)
    ensures Pass(s, hasKey, key, cur) == Naive(s, hasKey, key, cur)
    decreases |s|
  {
    if s == [] {
    } else if s[0] == EQUALS && !hasKey {
      PassIsNaive(s[1..], true, cur, []);
    } else if s[0] == AMPERSAND {
      PassIsNaive(s[1..], false, [], []);
    } else {
      var u := UnitLength(s);
      assert s[..u] == [s[0]] + s[1..u];
      NaiveOver(s, u, hasKey, key, cur);
      PassIsNaive(s[u..], hasKey, key, cur + s[..u]);
    }
  }

  /** The piece a part completes. */
  function Completed(part: seq<byte>, hasKey: bool, key: seq<byte>, cur: seq<byte>): Piece
  {
    var i := IndexOf(part, EQUALS);
    if hasKey then Piece(true, key, cur + part)
    else if i == |part| then Piece(false, key, cur + part)
    else Piece(true, cur + part[..i], part[i + 1..])
  }

  lemma {:induction false} NaiveSplits(s: seq<byte>, hasKey: bool, key: seq<byte>, cur: seq<byte>)
    ensures var i := IndexOf(s, AMPERSAND);
      Naive(s, hasKey, key, cur)
      == [Completed(s[..i], hasKey, key, cur)] + if i == |s| then [] else Naive(s[i + 1..], false, [], [])
    decreases |s|
  {
    var i := IndexOf(s, AMPERSAND);
    if s == [] || s[0] == AMPERSAND {
      assert s[..i] == [] && cur + [] == cur;
    } else {
      assert s[..i] == [s[0]] + s[1..][..i - 1];
      assert i < |s| ==> s[1..][i - 1 + 1..] == s[i + 1..];
      if s[0] == EQUALS && !hasKey {
        NaiveSplits(s[1..], true, cur, []);
        KeyEnds(s[..i], key, cur);
        assert s[..i][1..] == s[1..][..i - 1];
      } else {
        NaiveSplits(s[1..], hasKey, key, cur + [s[0]]);
        OneLess(s[..i], hasKey, key, cur);
      }
    }
  }

  lemma OneLess(part: seq<byte>, hasKey: bool, key: seq<byte>, cur: seq<byte>)
    requires part != [] && (part[0] != EQUALS || hasKey)
    ensures Completed(part, hasKey, key, cur) == Completed(part[1..], hasKey, key, cur + [part[0]])
  {
    assert cur + [part[0]] + part[1..] == cur + part;
    var i := IndexOf(part, EQUALS);
    if !hasKey && i < |part| {
      assert cur + [part[0]] + part[1..][..i - 1] == cur + part[..i];
      assert part[1..][i - 1 + 1..] == part[i + 1..];
    }
  }

  lemma KeyEnds(part: seq<byte>, key: seq<byte>, cur: seq<byte>)
    requires part != [] && part[0] == EQUALS
    ensures Completed(part, false, key, cur) == Completed(part[1..], true, cur, [])
  {
    assert cur + part[..0] == cur && [] + part[1..] == part[1..];
  }

  lemma PiecesStep(part: seq<byte>, rest: seq<seq<byte>>)
    ensures PiecesOf([part] + rest) == [PieceOf(part)] + PiecesOf(rest)
  {
    hide PieceOf;
    assert ([part] + rest)[1..] == rest;
  }

  lemma MeaningStep(q: seq<byte>)
    ensures var i := IndexOf(q, AMPERSAND);
      Meaning(q) == [PieceOf(q[..i])] + if i == |q| then [] else Meaning(q[i + 1..])
  {
    hide PieceOf, PiecesOf, IndexOf;
    var i := IndexOf(q, AMPERSAND);
    if i == |q| {
      assert [q] + [] == [q] && q[..i] == q;
      PiecesStep(q, []);
      NoPieces();
    } else {
      PiecesStep(q[..i], SplitOn(q[i + 1..], AMPERSAND));
    }
  }

  lemma NoPieces()
    ensures PiecesOf([]) == []
  {
  }

  lemma {:induction false} NaiveIsMeaning(q: seq<byte>)
    ensures Naive(q, false, [], []) == Meaning(q)
    decreases |q|
  {
    hide Meaning;
    var i := IndexOf(q, AMPERSAND);
    NaiveSplits(q, false, [], []);
    assert Completed(q[..i], false, [], []) == PieceOf(q[..i]) by {
      assert [] + q[..i] == q[..i] && [] + q[..i][..IndexOf(q[..i], EQUALS)] == q[..i][..IndexOf(q[..i], EQUALS)];
    }
    MeaningStep(q);
    if i < |q| {
      NaiveIsMeaning(q[i + 1..]);
    }
  }

  // ---- and when not ----

  /** A piece splitting never gives: a separator is left in it. */
  predicate Leaky(p: Piece)
  {
    AMPERSAND in p.key || AMPERSAND in p.value || EQUALS in p.key || (!p.hasKey && EQUALS in p.value)
  }

  lemma NotLeaky(part: seq<byte>)
    requires AMPERSAND !in part
    ensures !Leaky(PieceOf(part))
  {
  }

  lemma {:induction false} MeaningNotLeaky(q: seq<byte>)
    ensures forall p :: p in Meaning(q) ==> !Leaky(p)
    decreases |q|
  {
    hide Meaning, Leaky, PieceOf;
    var i := IndexOf(q, AMPERSAND);
    NotLeaky(q[..i]);
    MeaningStep(q);
    if i < |q| {
      MeaningNotLeaky(q[i + 1..]);
    }
  }

  lemma {:induction false} DisturbedLeaks(s: seq<byte>, hasKey: bool, key: seq<byte>, cur: seq<byte>)
    requires !hasKey ==> key == []
    requires Leaky(Piece(hasKey, key, cur)) || !Undisturbed(s, hasKey)
    ensures exists p :: p in Pass(s, hasKey, key, cur) && Leaky(p)
    decreases |s|
  {
    var now := Piece(hasKey, key, cur);
    if s == [] {
      assert now in Pass(s, hasKey, key, cur);
    } else if s[0] == EQUALS && !hasKey {
      DisturbedLeaks(s[1..], true, cur, []);
    } else if s[0] == AMPERSAND {
      if Leaky(now) {
        assert now in Pass(s, hasKey, key, cur);
      } else {
        DisturbedLeaks(s[1..], false, [], []);
      }
    } else {
      DisturbedLeaks(s[UnitLength(s)..], hasKey, key, cur + s[..UnitLength(s)]);
    }
  }

  /** The single pass finds what the query string means if and only if no escape covers a
      separator. */
  lemma OnePassIsExact(q: seq<byte>)
    ensures OnePass(q) == Meaning(q) <==> Undisturbed(q, false)
  {
    if Undisturbed(q, false) {
      PassIsNaive(q, false, [], []);
      NaiveIsMeaning(q);
    } else {
      DisturbedLeaks(q, false, [], []);
      MeaningNotLeaky(q);
    }
  }

  /** Every percent sign followed by two hexadecimal digits is such a string. */
  predicate WellFormed(q: seq<byte>)
  {
    forall i :: 0 <= i < |q| && q[i] == PERCENT ==> i + 2 < |q| && IsHex(q[i + 1]) && IsHex(q[i + 2])
  }

  predicate IsHex(b: byte) { 0x30 <= b <= 0x39 || 0x61 <= b <= 0x66 || 0x41 <= b <= 0x46 }

  lemma {:induction false} WellFormedUndisturbed(s: seq<byte>, hasKey: bool)
    requires WellFormed(s)
    ensures Undisturbed(s, hasKey)
    decreases |s|
  {
    if s != [] {
      var u := if (s[0] == EQUALS && !hasKey) || s[0] == AMPERSAND then 1 else UnitLength(s);
      forall i | 0 <= i < |s[u..]| && s[u..][i] == PERCENT
        ensures i + 2 < |s[u..]| && IsHex(s[u..][i + 1]) && IsHex(s[u..][i + 2])
      {
        assert s[u + i] == PERCENT;
      }
      WellFormedUndisturbed(s[u..], if s[0] == EQUALS then true else if s[0] == AMPERSAND then false else hasKey);
    }
  }

  lemma {:induction false} IndexIs(s: seq<byte>, c: byte, i: nat)
    requires i <= |s| && c !in s[..i] && (i < |s| ==> s[i] == c)
    ensures IndexOf(s, c) == i
  {
  }

  const SWALLOWED: seq<byte> := [PERCENT, 0x34, AMPERSAND, 0x62]

  lemma OneCameOut()
    ensures OnePass(SWALLOWED) == [Piece(false, [], SWALLOWED)]
  {
    var q, b: seq<byte> := SWALLOWED, [0x62];
    assert q[3..] == b && b[1..] == [] && b[..1] == b;
    assert [] + q[..3] == q[..3] && q[..3] + b == q;
    assert Pass(q, false, [], []) == Pass(b, false, [], q[..3]);
    assert Pass(b, false, [], q[..3]) == Pass([], false, [], q);
  }

  lemma TwoWereMeant()
    ensures Meaning(SWALLOWED) == [Piece(false, [], SWALLOWED[..2]), Piece(false, [], [0x62])]
  {
    hide Meaning, IndexOf;
    var q, b: seq<byte> := SWALLOWED, [0x62];
    assert q[3..] == b && b[..1] == b;
    MeaningStep(q);
    MeaningStep(b);
    IndexIs(q, AMPERSAND, 2);
    IndexIs(b, AMPERSAND, 1);
    IndexIs(q[..2], EQUALS, 2);
    IndexIs(b, EQUALS, 1);
  }

  // ---- parse_query ----

  /** The name and the value R gets for a piece. */
  function NameOf(p: Piece): seq<byte> { if p.hasKey then CString(UriDecode(p.key)) else [] }

  function ValueOf(p: Piece): seq<byte> { CString(UriDecode(p.value)) }

  function Ampersands(s: seq<byte>): nat
  {
    if s == [] then 0 else (if s[0] == AMPERSAND then 1 else 0) + Ampersands(s[1..])
  }

  lemma {:induction false} AmpersandsBehind(s: seq<byte>, n: nat)
    requires n <= |s|
    ensures Ampersands(s[n..]) <= Ampersands(s)
    decreases n
  {
    if n == 0 {
      assert s[0..] == s;
    } else {
      AmpersandsBehind(s[1..], n - 1);
      assert s[1..][n - 1..] == s[n..];
    }
  }

  /** There is room for all pieces. */
  lemma {:induction false} PiecesCounted(s: seq<byte>, hasKey: bool, key: seq<byte>, cur: seq<byte>)
    ensures |Pass(s, hasKey, key, cur)| <= Ampersands(s) + 1
    decreases |s|
  {
    if s == [] {
    } else if s[0] == EQUALS && !hasKey {
      PiecesCounted(s[1..], true, cur, []);
    } else if s[0] == AMPERSAND {
      PiecesCounted(s[1..], false, [], []);
    } else {
      PiecesCounted(s[UnitLength(s)..], hasKey, key, cur + s[..UnitLength(s)]);
      AmpersandsBehind(s, UnitLength(s));
    }
  }

  /** The string at offset p of a buffer, if its text is known. */
  lemma TextAt(m: seq<byte>, p: nat, d: seq<byte>)
    requires p + |d| < |m| && m[p..p + |d|] == d && m[p + |d|] == 0
    ensures CString(m[p..]) == CString(d)
  {
    assert m[p..] == d + m[p + |d|..];
    CStringOf(d, m[p + |d|..]);
  }

  /** parse_query's own state: what was read of the current part, where it is in the buffer. */
  ghost predicate Reading(m: seq<byte>, keyAt: int, valueAt: nat, t: nat, key: seq<byte>, cur: seq<byte>)
  {
    && valueAt <= t <= |m| && m[valueAt..t] == UriDecode(cur)
    && (keyAt >= 0 ==> keyAt + |UriDecode(key)| < valueAt
                       && m[keyAt..keyAt + |UriDecode(key)|] == UriDecode(key) && m[keyAt + |UriDecode(key)|] == 0)
  }

  /** Writing at or behind t disturbs nothing that was read. */
  lemma ReadingFrame(m: seq<byte>, m': seq<byte>, keyAt: int, valueAt: nat, t: nat, key: seq<byte>, cur: seq<byte>)
    requires Reading(m, keyAt, valueAt, t, key, cur) && |m'| == |m| && m'[..t] == m[..t]
    ensures Reading(m', keyAt, valueAt, t, key, cur)
  {
    hide UriDecode;
    SamePart(m, m', t, valueAt, t);
    if keyAt >= 0 {
      var e := keyAt + |UriDecode(key)|;
      SamePart(m, m', t, keyAt, e);
      assert m'[e] == m'[..t][e] == m[..t][e];
    }
  }

  lemma SamePart(m: seq<byte>, m': seq<byte>, t: nat, a: nat, e: nat)
    requires |m'| == |m| && a <= e <= t <= |m| && m'[..t] == m[..t]
    ensures m'[a..e] == m[a..e]
  {
    assert m'[a..e] == m'[..t][a..e];
    assert m[a..e] == m[..t][a..e];
  }

  /** The unit at s extends what was read by its byte. */
  lemma UnitRead(q: seq<byte>, s: nat, cur: seq<byte>)
    requires s < |q| && Complete(cur)
    ensures var u := UnitLength(q[s..]);
      && UriDecode(cur + q[s..][..u]) == UriDecode(cur) + [UnitByte(q[s..])]
      && (s + u < |q| ==> Complete(cur + q[s..][..u]))
  {
    var u := UnitLength(q[s..]);
    var unit := q[s..][..u];
    assert UnitLength(unit) == u && UnitByte(unit) == UnitByte(q[s..]) && unit[u..] == [];
    if s + u < |q| {
      assert Complete(unit[u..]) && Complete(unit);
    }
    DecodeJoined(cur, unit);
  }

  /** One turn of the loop for a byte that is no separator. */
  method ReadUnit(mem: array<byte>, s0: nat, t: nat, ghost q: seq<byte>,
                  ghost keyAt: int, ghost valueAt: nat, ghost key: seq<byte>, ghost cur: seq<byte>) returns (s: nat)
    requires HoldsText(mem[..], q, s0) && t <= s0 < |q| && Complete(cur)
    requires Reading(mem[..], keyAt, valueAt, t, key, cur)
    modifies mem
    ensures s == s0 + UnitLength(q[s0..]) && HoldsText(mem[..], q, s)
    ensures Reading(mem[..], keyAt, valueAt, t + 1, key, cur + q[s0..][..UnitLength(q[s0..])])
    ensures s < |q| ==> Complete(cur + q[s0..][..UnitLength(q[s0..])])
  {
    hide UriDecode, Complete, UnitByte, UnitLength;
    UnitRead(q, s0, cur);
    ghost var m := mem[..];
    s := DecodeUnit(mem, s0, t, q);
    assert mem[..t] == m[..t];
    ReadingFrame(m, mem[..], keyAt, valueAt, t, key, cur);
    assert mem[valueAt..t + 1] == mem[valueAt..t] + [mem[t]];
  }

  /** The names and values so far are those of the pieces, and the rest is still blank. */
  ghost predicate Filled(names: seq<seq<byte>>, values: seq<seq<byte>>, p: seq<Piece>)
  {
    && |p| <= |names| == |values|
    && (forall i :: 0 <= i < |p| ==> names[i] == NameOf(p[i]) && values[i] == ValueOf(p[i]))
    && (forall i :: |p| <= i < |names| ==> names[i] == values[i] == [])
  }

  // ---- exactness of what is returned ----

  /** Nothing of a key=value piece is cut off by a decoded NUL. */
  predicate NulFree(p: Piece)
  {
    p.hasKey ==> 0 !in UriDecode(p.key) && 0 !in UriDecode(p.value)
  }

  /** The last part has a name or a value. */
  predicate EndsInText(q: seq<byte>)
  {
    var m := Meaning(q);
    |m| > 0 && (NameOf(m[|m| - 1]) != [] || ValueOf(m[|m| - 1]) != [])
  }

  lemma {:induction false} AmpersandInside(s: seq<byte>, n: nat)
    requires n <= |s| && AMPERSAND in s[..n]
    ensures Ampersands(s[n..]) < Ampersands(s)
    decreases n
  {
    if s[0] == AMPERSAND {
      AmpersandsBehind(s[1..], n - 1);
      assert s[1..][n - 1..] == s[n..];
    } else {
      assert s[..n] == [s[0]] + s[1..][..n - 1];
      AmpersandInside(s[1..], n - 1);
      assert s[1..][n - 1..] == s[n..];
    }
  }

  lemma {:induction false} IndexBehind(s: seq<byte>, u: nat)
    requires u <= |s| && AMPERSAND !in s[..u]
    ensures IndexOf(s, AMPERSAND) == u + IndexOf(s[u..], AMPERSAND)
  {
    if u == 0 {
      assert s[0..] == s;
    } else {
      assert s[..u] == [s[0]] + s[1..][..u - 1] && s[1..][u - 1..] == s[u..];
      IndexBehind(s[1..], u - 1);
    }
  }

  /** If there are as many pieces as there is room for, the pass ends a part at every ampersand. */
  lemma {:induction false} PassSplits(s: seq<byte>, hasKey: bool, key: seq<byte>, cur: seq<byte>)
    requires |Pass(s, hasKey, key, cur)| == Ampersands(s) + 1
    ensures var i := IndexOf(s, AMPERSAND);
      && Pass(s, hasKey, key, cur) == [Pass(s[..i], hasKey, key, cur)[0]]
                                      + (if i == |s| then [] else Pass(s[i + 1..], false, [], []))
      && (i < |s| ==> |Pass(s[i + 1..], false, [], [])| == Ampersands(s[i + 1..]) + 1)
      && (Undisturbed(s, hasKey) <==> Undisturbed(s[..i], hasKey) && (i == |s| || Undisturbed(s[i + 1..], false)))
    decreases |s|
  {
    var i := IndexOf(s, AMPERSAND);
    if s == [] || s[0] == AMPERSAND {
      assert s[..i] == [];
    } else if s[0] == EQUALS && !hasKey {
      assert s[..1] == [EQUALS];
      IndexBehind(s, 1);
      PassSplits(s[1..], true, cur, []);
      assert s[..i][1..] == s[1..][..i - 1] && (i < |s| ==> s[1..][i - 1 + 1..] == s[i + 1..]);
    } else {
      UnitSplits(s, hasKey, key, cur);
    }
  }

  lemma {:induction false} UnitSplits(s: seq<byte>, hasKey: bool, key: seq<byte>, cur: seq<byte>)
    requires |Pass(s, hasKey, key, cur)| == Ampersands(s) + 1
    requires s != [] && s[0] != AMPERSAND && (s[0] == EQUALS ==> hasKey)
    ensures var i := IndexOf(s, AMPERSAND);
      && Pass(s, hasKey, key, cur) == [Pass(s[..i], hasKey, key, cur)[0]]
                                      + (if i == |s| then [] else Pass(s[i + 1..], false, [], []))
      && (i < |s| ==> |Pass(s[i + 1..], false, [], [])| == Ampersands(s[i + 1..]) + 1)
      && (Undisturbed(s, hasKey) <==> Undisturbed(s[..i], hasKey) && (i == |s| || Undisturbed(s[i + 1..], false)))
    decreases |s|, 0
  {
    hide UnitLength, IndexOf, Ampersands, Pass, Undisturbed;
    var i, u := IndexOf(s, AMPERSAND), UnitLength(s);
    var next := cur + s[..u];
    FirstUnit(s, hasKey, key, cur);
    PiecesCounted(s[u..], hasKey, key, next);
    AmpersandsBehind(s, u);
    if AMPERSAND in s[..u] {
      AmpersandInside(s, u);
    }
    IndexBehind(s, u);
    PassSplits(s[u..], hasKey, key, next);
    UnitOfPart(s, i);
    FirstUnit(s[..i], hasKey, key, cur);
  }

  lemma FirstUnit(s: seq<byte>, hasKey: bool, key: seq<byte>, cur: seq<byte>)
    requires s != [] && s[0] != AMPERSAND && (s[0] == EQUALS ==> hasKey)
    ensures var u := UnitLength(s);
      && Pass(s, hasKey, key, cur) == Pass(s[u..], hasKey, key, cur + s[..u])
      && Undisturbed(s, hasKey)
         == (AMPERSAND !in s[1..u] && (hasKey || EQUALS !in s[1..u]) && Undisturbed(s[u..], hasKey))
  {
  }

  /** The first unit of a string is that of its first part. */
  lemma UnitOfPart(s: seq<byte>, i: nat)
    requires s != [] && i == UnitLength(s) + IndexOf(s[UnitLength(s)..], AMPERSAND) && AMPERSAND !in s[..UnitLength(s)]
    ensures var u, part := UnitLength(s), s[..i];
      && u <= i && part[0] == s[0] && UnitLength(part) == u
      && part[u..] == s[u..][..i - u] && part[..u] == s[..u] && part[1..u] == s[1..u]
      && AMPERSAND !in s[1..u] && (i < |s| ==> s[u..][i - u + 1..] == s[i + 1..])
  {
    hide IndexOf;
    var u := UnitLength(s);
    assert s[..u] == [s[0]] + s[1..u];
  }

  /** Behind a key the rest of a part is the value. */
  lemma {:induction false} KeyedPart(s: seq<byte>, key: seq<byte>, cur: seq<byte>)
    requires AMPERSAND !in s
    ensures Pass(s, true, key, cur) == [Piece(true, key, cur + s)] && Undisturbed(s, true)
    decreases |s|
  {
    if s == [] {
      assert cur + s == cur;
    } else {
      var u := UnitLength(s);
      KeyedPart(s[u..], key, cur + s[..u]);
      assert cur + s[..u] + s[u..] == cur + s;
    }
  }

  /** In a part without a key so far, one can only end at an equals sign in front of which no
      escape is cut off. */
  lemma {:induction false} KeyBehind(r: seq<byte>, base: seq<byte>, w0: seq<byte>) returns (w: seq<byte>)
    requires AMPERSAND !in r && Complete(w0)
    ensures var p := Pass(r, false, [], base + w0)[0];
      if p.hasKey then p.key == base + w && Complete(w) && w0 + r == w + ([EQUALS] + p.value)
      else p.key == []
    decreases |r|
  {
    w := w0;
    if r == [] {
    } else if r[0] == EQUALS {
      KeyedPart(r[1..], base + w0, []);
      assert [] + r[1..] == r[1..] && r == [EQUALS] + r[1..];
    } else {
      var u := UnitLength(r);
      assert base + w0 + r[..u] == base + (w0 + r[..u]) && w0 + r[..u] + r[u..] == w0 + r;
      if r[0] == PERCENT && |r| < 3 {
        assert r[u..] == [];
      } else {
        assert Complete(r[..u]) by { OneUnit(r); }
        DecodeJoined(w0, r[..u]);
        w := KeyBehind(r[u..], base, w0 + r[..u]);
      }
    }
  }

  lemma OneUnit(r: seq<byte>)
    requires r != [] && (r[0] == PERCENT ==> |r| >= 3)
    ensures Complete(r[..UnitLength(r)]) && UriDecode(r[..UnitLength(r)]) == [UnitByte(r)]
  {
    var a := r[..UnitLength(r)];
    assert UnitLength(a) == |a| && a[|a|..] == [] && UnitByte(a) == UnitByte(r);
    assert Complete(a[|a|..]) && UriDecode(a[|a|..]) == [];
  }

  lemma {:induction false} WholeString(d: seq<byte>)
    requires 0 !in d
    ensures CString(d) == d
  {
    if d != [] {
      assert d == [d[0]] + d[1..];
      WholeString(d[1..]);
    }
  }

  lemma {:induction false} StringBehind(d: seq<byte>, e: seq<byte>)
    requires 0 !in d
    ensures CString(d + e) == d + CString(e)
  {
    if d == [] {
      assert d + e == e;
    } else {
      assert (d + e)[1..] == d[1..] + e;
      StringBehind(d[1..], e);
    }
  }

  /** An escape that swallows the first equals sign of a part changes its name or its value: c was
      read, r follows, and the key meant is c and the escape without the sign. */
  lemma SwallowedEquals(c: seq<byte>, h: byte, r: seq<byte>)
    requires Complete(c) && AMPERSAND !in r
    requires NulFree(Piece(true, c + [PERCENT, h], r))
    ensures var p, m := Pass(r, false, [], c + [PERCENT, h, EQUALS])[0], Piece(true, c + [PERCENT, h], r);
      NameOf(p) != NameOf(m) || ValueOf(p) != ValueOf(m)
  {
    hide Pass, CString, Complete, UriDecode;
    var base, meant := c + [PERCENT, h, EQUALS], c + [PERCENT, h];
    EscapeDecoded(c, h);
    var d := UriDecode(meant);
    WholeString(d);
    WholeString(UriDecode(r));
    assert Complete([]) && base + [] == base && [] + r == r by { NothingComplete(); }
    var w := KeyBehind(r, base, []);
    var p := Pass(r, false, [], base)[0];
    if p.hasKey {
      DecodeJoined(base, w);
      StringBehind(d, UriDecode(w));
      DecodeJoined(w, [EQUALS] + p.value);
      SignDecoded(p.value);
      var dw, dv := UriDecode(w), UriDecode(p.value);
      assert UriDecode(r) == dw + ([EQUALS] + dv);
      if w == [] {
        assert UriDecode(r) == [EQUALS] + dv by { NothingComplete(); }
        ShorterString(dv);
      } else {
        FirstDecoded(w);
        assert dw[0] in UriDecode(r);
        NotEmpty(dw);
      }
    }
  }

  lemma NothingComplete()
    ensures Complete([]) && UriDecode([]) == []
  {
  }

  lemma FirstDecoded(w: seq<byte>)
    requires w != []
    ensures UriDecode(w) != []
  {
  }

  lemma NotEmpty(d: seq<byte>)
    requires d != [] && d[0] != 0
    ensures CString(d) != []
  {
  }

  lemma {:induction false} ShorterString(d: seq<byte>)
    ensures |CString(d)| <= |d|
  {
    if d != [] {
      ShorterString(d[1..]);
    }
  }

  lemma SignDecoded(v: seq<byte>)
    ensures UriDecode([EQUALS] + v) == [EQUALS] + UriDecode(v)
  {
    assert ([EQUALS] + v)[1..] == v;
  }

  /** The escape means the same with the equals sign as its second digit as without one. */
  lemma EscapeDecoded(c: seq<byte>, h: byte)
    requires Complete(c)
    ensures UriDecode(c + [PERCENT, h]) == UriDecode(c) + [16 * HexValue(h)]
    ensures UriDecode(c + [PERCENT, h, EQUALS]) == UriDecode(c) + [16 * HexValue(h)]
    ensures Complete(c + [PERCENT, h, EQUALS])
  {
    var short, long: seq<byte> := [PERCENT, h], [PERCENT, h, EQUALS];
    assert short[2..] == [] && long[3..] == [] && UriDecode([]) == [];
    assert Complete(long[3..]);
    DecodeJoined(c, short);
    DecodeJoined(c, long);
  }

  lemma CutEscape(c: seq<byte>)
    requires Complete(c)
    ensures 0 in UriDecode(c + [PERCENT])
  {
    var short: seq<byte> := [PERCENT];
    assert short[1..] == [] && UriDecode(short) == [0];
    DecodeJoined(c, short);
  }

  /** A disturbed part is not returned as what it means. */
  lemma {:induction false} PartDiffers(s: seq<byte>, c: seq<byte>)
    requires AMPERSAND !in s && EQUALS !in c && Complete(c) && !Undisturbed(s, false) && NulFree(PieceOf(c + s))
    ensures var p, m := Pass(s, false, [], c)[0], PieceOf(c + s);
      NameOf(p) != NameOf(m) || ValueOf(p) != ValueOf(m)
    decreases |s|
  {
    hide NameOf, ValueOf, NulFree, PieceOf, Complete, UriDecode;
    if s[0] == EQUALS {
      KeyedPart(s[1..], c, []);
    } else {
      var u := UnitLength(s);
      assert s == s[..u] + s[u..] && AMPERSAND !in s[u..] && AMPERSAND !in s[1..u];
      if EQUALS in s[1..u] {
        FirstSwallowed(s, c);
      } else {
        OneUnit(s);
        DecodeJoined(c, s[..u]);
        assert s[..u] == [s[0]] + s[1..u];
        assert c + s[..u] + s[u..] == c + s;
        PartDiffers(s[u..], c + s[..u]);
      }
    }
  }

  lemma FirstSwallowed(s: seq<byte>, c: seq<byte>)
    requires AMPERSAND !in s && EQUALS !in c && Complete(c) && NulFree(PieceOf(c + s))
    requires s != [] && s[0] != EQUALS && EQUALS in s[1..UnitLength(s)]
    ensures var p, m := Pass(s, false, [], c)[0], PieceOf(c + s);
      NameOf(p) != NameOf(m) || ValueOf(p) != ValueOf(m)
  {
    hide NameOf, ValueOf, NulFree, Complete, UriDecode, PieceOf, Pass;
    assert s[0] == PERCENT;
    if s[1] == EQUALS {
      KeyCutOff(s, c);
    } else {
      var r := s[3..];
      assert s[..3] == [PERCENT, s[1], EQUALS];
      FirstUnit(s, false, [], c);
      KeyLost(s, c);
      SwallowedEquals(c, s[1], r);
    }
  }

  lemma KeyCutOff(s: seq<byte>, c: seq<byte>)
    requires |s| >= 2 && s[0] == PERCENT && s[1] == EQUALS && EQUALS !in c && Complete(c)
    ensures !NulFree(PieceOf(c + s))
  {
    hide Complete, UriDecode, IndexOf;
    assert (c + s)[..|c| + 1] == c + [PERCENT];
    IndexIs(c + s, EQUALS, |c| + 1);
    CutEscape(c);
  }

  lemma KeyLost(s: seq<byte>, c: seq<byte>)
    requires |s| >= 3 && s[0] == PERCENT && s[1] != EQUALS && s[2] == EQUALS && EQUALS !in c
    ensures PieceOf(c + s) == Piece(true, c + [PERCENT, s[1]], s[3..])
  {
    hide IndexOf;
    var q := c + s;
    assert q[..|c| + 2] == c + [PERCENT, s[1]] && q[|c| + 3..] == s[3..];
    IndexIs(q, EQUALS, |c| + 2);
  }

  /** If every ampersand ends a part but the query is disturbed, some entry is wrong. */
  lemma {:induction false} EntryDiffers(q: seq<byte>) returns (k: nat)
    requires |OnePass(q)| == Ampersands(q) + 1 && !Undisturbed(q, false)
    requires forall p :: p in Meaning(q) ==> NulFree(p)
    ensures k < |OnePass(q)| == |Meaning(q)|
    ensures var p, m := OnePass(q)[k], Meaning(q)[k]; NameOf(p) != NameOf(m) || ValueOf(p) != ValueOf(m)
    decreases |q|
  {
    hide Meaning, NameOf, ValueOf, NulFree, PieceOf, Complete;
    MeaningCounted(q);
    MeaningStep(q);
    PassSplits(q, false, [], []);
    var i := IndexOf(q, AMPERSAND);
    if !Undisturbed(q[..i], false) {
      assert [] + q[..i] == q[..i];
      NothingComplete();
      assert PieceOf(q[..i]) in Meaning(q);
      PartDiffers(q[..i], []);
      k := 0;
    } else {
      var rest := Meaning(q[i + 1..]);
      assert forall p :: p in rest ==> p in Meaning(q);
      k := EntryDiffers(q[i + 1..]);
      k := k + 1;
    }
  }

  /** Unless decoded NULs or an empty last part hide it, the names and values returned are those
      the query means if and only if no escape covers a separator. */
  lemma ArraysExact(q: seq<byte>, names: seq<seq<byte>>, values: seq<seq<byte>>)
    requires |names| == Ampersands(q) + 1 && Filled(names, values, OnePass(q))
    requires EndsInText(q) && forall p :: p in Meaning(q) ==> NulFree(p)
    ensures Filled(names, values, Meaning(q)) <==> Undisturbed(q, false)
  {
    hide Meaning, NameOf, ValueOf, NulFree, OnePass, Undisturbed, Ampersands;
    OnePassIsExact(q);
    MeaningCounted(q);
    if !Undisturbed(q, false) && |OnePass(q)| == Ampersands(q) + 1 {
      var k := EntryDiffers(q);
      assert names[k] == NameOf(OnePass(q)[k]);
    }
  }

  /** "%4&b": the escape swallows the ampersand, so two parts come out as one: "@b" and an empty
      entry instead of "@" and "b". */
  lemma Swallowed()
    ensures OnePass(SWALLOWED) == [Piece(false, [], SWALLOWED)]
    ensures Meaning(SWALLOWED) == [Piece(false, [], SWALLOWED[..2]), Piece(false, [], [0x62])]
    ensures Filled([[], []], [[0x40, 0x62], []], OnePass(SWALLOWED))
    ensures Filled([[], []], [[0x40], [0x62]], Meaning(SWALLOWED))
  {
    hide *;
    OneCameOut();
    TwoWereMeant();
    SwallowedStrings();
  }

  lemma SwallowedStrings()
    ensures Filled([[], []], [[0x40, 0x62], []], [Piece(false, [], SWALLOWED)])
    ensures Filled([[], []], [[0x40], [0x62]], [Piece(false, [], SWALLOWED[..2]), Piece(false, [], [0x62])])
  {
    hide CString;
    var q, b: seq<byte> := SWALLOWED, [0x62];
    assert q[3..] == b && b[1..] == [] && q[..2][2..] == [];
    assert UriDecode(q) == [0x40] + UriDecode(b) == [0x40, 0x62] && UriDecode(b) == [0x62];
    assert UriDecode(q[..2]) == [0x40] && UriDecode([]) == [];
    SmallStrings();
  }

  const BLANK_END: seq<byte> := [PERCENT, 0x34, AMPERSAND]

  /** "%4&": the text that is swallowed is empty, so the arrays come out as they should. */
  lemma BlankEnd()
    ensures var names, values := [[], []], [[0x40], []];
      && !Undisturbed(BLANK_END, false)
      && Filled(names, values, OnePass(BLANK_END)) && Filled(names, values, Meaning(BLANK_END))
  {
    hide Meaning, Pass, OnePass, CString, UriDecode;
    var q := BLANK_END;
    assert !Undisturbed(q, false) by { assert q[1..3] == [0x34, AMPERSAND]; }
    BlankEndPasses();
    BlankEndMeans();
    BlankEndDecoded();
    SmallStrings();
  }

  lemma BlankEndPasses()
    ensures OnePass(BLANK_END) == [Piece(false, [], BLANK_END)]
  {
    hide Pass;
    var q := BLANK_END;
    PassStep(q, 0, false, [], []);
    PassStep(q, 3, false, [], q);
    assert q[0..] == q && q[..3] == q && [] + q == q;
  }

  lemma BlankEndMeans()
    ensures Meaning(BLANK_END) == [Piece(false, [], BLANK_END[..2]), Piece(false, [], [])]
  {
    hide IndexOf, Meaning;
    var q := BLANK_END;
    MeaningStep(q);
    MeaningStep([]);
    IndexIs(q, AMPERSAND, 2);
    IndexIs([], AMPERSAND, 0);
    IndexIs(q[..2], EQUALS, 2);
    IndexIs([], EQUALS, 0);
    assert q[3..] == [];
  }

  lemma BlankEndDecoded()
    ensures UriDecode(BLANK_END) == [0x40] && UriDecode(BLANK_END[..2]) == [0x40] && UriDecode([]) == []
  {
    assert BLANK_END[3..] == [] && BLANK_END[..2][2..] == [];
  }

  /** "a%0=x%00=x" */
  const NUL_TEXT: seq<byte> := [0x61, PERCENT, 0x30, EQUALS, 0x78, PERCENT, 0x30, 0x30, EQUALS, 0x78]

  /** Read with the key "a%0" or with "a%0=x%00", the name ends at a NUL behind "a" and the value
      is "x": the arrays come out as they should, although nothing in them is empty. */
  lemma NulText()
    ensures !Undisturbed(NUL_TEXT, false)
    ensures Filled([[0x61]], [[0x78]], OnePass(NUL_TEXT)) && Filled([[0x61]], [[0x78]], Meaning(NUL_TEXT))
  {
    hide Meaning, Pass, OnePass, CString, UriDecode;
    assert !Undisturbed(NUL_TEXT, false) by { NulTextDisturbed(); }
    NulTextMeans();
    NulTextPasses();
    NulTextDecoded();
    NulTextStrings();
  }

  lemma NulTextDisturbed()
    ensures !Undisturbed(NUL_TEXT, false)
  {
    assert NUL_TEXT[1..][1..3] == [0x30, EQUALS];
  }

  lemma NulTextPasses()
    ensures OnePass(NUL_TEXT) == [Piece(true, NUL_TEXT[..8], NUL_TEXT[9..])]
  {
    hide Pass;
    NulTextKey();
    var q := NUL_TEXT;
    PassStep(q, 8, false, [], q[..8]);
    PassStep(q, 9, true, q[..8], []);
    PassStep(q, 10, true, q[..8], q[9..]);
    assert [] + q[9..][..1] == q[9..];
  }

  lemma NulTextKey()
    ensures OnePass(NUL_TEXT) == Pass(NUL_TEXT[8..], false, [], NUL_TEXT[..8])
  {
    hide Pass;
    NulTextSign();
    var q := NUL_TEXT;
    PassStep(q, 4, false, [], q[..4]);
    PassStep(q, 5, false, [], q[..5]);
    assert q[..4] + q[4..][..1] == q[..5] && q[..5] + q[5..][..3] == q[..8];
  }

  lemma NulTextSign()
    ensures OnePass(NUL_TEXT) == Pass(NUL_TEXT[4..], false, [], NUL_TEXT[..4])
  {
    hide Pass;
    var q := NUL_TEXT;
    PassStep(q, 0, false, [], []);
    PassStep(q, 1, false, [], q[..1]);
    assert q[0..] == q && [] + q[..1] == q[..1] && q[..1] + q[1..][..3] == q[..4];
  }

  lemma NulTextMeans()
    ensures Meaning(NUL_TEXT) == [Piece(true, NUL_TEXT[..3], NUL_TEXT[4..])]
  {
    hide IndexOf, Meaning;
    var q := NUL_TEXT;
    MeaningStep(q);
    IndexIs(q, AMPERSAND, 10);
    IndexIs(q, EQUALS, 3);
    assert q[..10] == q;
  }

  lemma NulTextDecoded()
    ensures UriDecode(NUL_TEXT[..3]) == [0x61, 0] && UriDecode(NUL_TEXT[4..]) == [0x78, 0, EQUALS, 0x78]
    ensures UriDecode(NUL_TEXT[..8]) == [0x61, 0, 0x78, 0] && UriDecode(NUL_TEXT[9..]) == [0x78]
  {
    hide UriDecode, Complete;
    var q := NUL_TEXT;
    var a, e, x: seq<byte> := [0x61], [PERCENT, 0x30], [0x78];
    var sign, z: seq<byte> := [PERCENT, 0x30, EQUALS], [PERCENT, 0x30, 0x30];
    OneByte(0x61);
    OneByte(0x78);
    NulEscapes();
    assert q[..3] == a + e && q[4..] == x + (z + ([EQUALS] + x)) && q[..8] == a + (sign + (x + z)) && q[9..] == x;
    assert UriDecode(q[..3]) == [0x61, 0] by { DecodeJoined(a, e); }
    assert UriDecode(q[4..]) == [0x78, 0, EQUALS, 0x78] by {
      SignDecoded(x);
      DecodeJoined(z, [EQUALS] + x);
      DecodeJoined(x, z + ([EQUALS] + x));
    }
    assert UriDecode(q[..8]) == [0x61, 0, 0x78, 0] by {
      DecodeJoined(x, z);
      DecodeJoined(sign, x + z);
      DecodeJoined(a, sign + (x + z));
    }
  }

  lemma NulEscapes()
    ensures UriDecode([PERCENT, 0x30]) == [0]
    ensures UriDecode([PERCENT, 0x30, EQUALS]) == [0] && Complete([PERCENT, 0x30, EQUALS])
    ensures UriDecode([PERCENT, 0x30, 0x30]) == [0] && Complete([PERCENT, 0x30, 0x30])
  {
    var e, sign, z: seq<byte> := [PERCENT, 0x30], [PERCENT, 0x30, EQUALS], [PERCENT, 0x30, 0x30];
    assert e[2..] == [] && sign[3..] == [] && z[3..] == [] && Complete([]) && UriDecode([]) == [];
  }

  lemma OneByte(b: byte)
    requires b != PERCENT && b != PLUS
    ensures UriDecode([b]) == [b] && Complete([b])
  {
    assert [b][1..] == [] && Complete([b][1..]);
  }

  lemma NulTextStrings()
    ensures CString([0x61, 0]) == [0x61] && CString([0x61, 0, 0x78, 0]) == [0x61]
    ensures CString([0x78, 0, EQUALS, 0x78]) == [0x78] && CString([0x78]) == [0x78]
  {
    Terminated([0x61], []);
    Terminated([0x61], [0x78, 0]);
    Terminated([0x78], [EQUALS, 0x78]);
    WholeString([0x78]);
    assert [0x61] + ([0] + []) == [0x61, 0] && [0x61] + ([0] + [0x78, 0]) == [0x61, 0, 0x78, 0];
    assert [0x78] + ([0] + [EQUALS, 0x78]) == [0x78, 0, EQUALS, 0x78];
  }

  lemma Terminated(d: seq<byte>, e: seq<byte>)
    requires 0 !in d
    ensures CString(d + ([0] + e)) == d
  {
    StringBehind(d, [0] + e);
  }

  lemma SmallStrings()
    ensures CString([0x40]) == [0x40] && CString([0x62]) == [0x62] && CString([0]) == [] && CString([]) == []
    ensures CString([0x40, 0x62]) == [0x40, 0x62]
  {
    WholeString([0x40]);
    WholeString([0x62]);
    WholeString([0x40, 0x62]);
  }

  /** The end of a part: terminates the value and stores both strings. */
  method StorePart(mem: array<byte>, t: nat, keyAt: int, valueAt: nat,
                   names: array<seq<byte>>, values: array<seq<byte>>, parts: nat,
                   ghost done: seq<Piece>, ghost key: seq<byte>, ghost cur: seq<byte>)
    requires t < mem.Length && Reading(mem[..], keyAt, valueAt, t, key, cur)
    requires Filled(names[..], values[..], done) && parts == |done| < names.Length && names != values
    modifies mem, names, values
    ensures Filled(names[..], values[..], done + [Piece(keyAt >= 0, key, cur)])
    ensures forall i :: 0 <= i < mem.Length && i != t ==> mem[i] == old(mem[i])
  {
    hide UriDecode, CString;
    ghost var m := mem[..];
    mem[t] := 0;
    assert mem[..t] == m[..t];
    ReadingFrame(m, mem[..], keyAt, valueAt, t, key, cur);
    TextAt(mem[..], valueAt, UriDecode(cur));
    if keyAt >= 0 {
      TextAt(mem[..], keyAt, UriDecode(key));
    }
    names[parts] := if keyAt >= 0 then CString(mem[keyAt..]) else [];
    values[parts] := CString(mem[valueAt..]);
    assert mem[..][valueAt..] == mem[valueAt..];
    assert keyAt >= 0 ==> mem[..][keyAt..] == mem[keyAt..];
    ghost var p := Piece(keyAt >= 0, key, cur);
    assert names[parts] == NameOf(p) && values[parts] == ValueOf(p);
  }

  lemma StartReading(m: seq<byte>, t: nat)
    requires t <= |m|
    ensures Reading(m, -1, t, t, [], []) && Complete([])
  {
  }

  /** The first equals sign of a part: what was read becomes the key. */
  lemma KeyRead(m: seq<byte>, m': seq<byte>, keyAt: int, valueAt: nat, t: nat, key: seq<byte>, cur: seq<byte>)
    requires Reading(m, keyAt, valueAt, t, key, cur) && t < |m'| == |m| && m'[..t] == m[..t] && m'[t] == 0
    ensures Reading(m', valueAt, t + 1, t + 1, cur, [])
  {
    SamePart(m, m', t, valueAt, t);
  }

  lemma PassStep(q: seq<byte>, s: nat, hasKey: bool, key: seq<byte>, cur: seq<byte>)
    requires s <= |q|
    ensures s == |q| ==> Pass(q[s..], hasKey, key, cur) == [Piece(hasKey, key, cur)]
    ensures s < |q| && q[s] == EQUALS && !hasKey ==>
              Pass(q[s..], hasKey, key, cur) == Pass(q[s + 1..], true, cur, [])
    ensures s < |q| && q[s] == AMPERSAND ==>
              Pass(q[s..], hasKey, key, cur) == [Piece(hasKey, key, cur)] + Pass(q[s + 1..], false, [], [])
    ensures s < |q| && !(q[s] == EQUALS && !hasKey) && q[s] != AMPERSAND ==>
              var u := UnitLength(q[s..]);
              Pass(q[s..], hasKey, key, cur) == Pass(q[s + u..], hasKey, key, cur + q[s..][..u])
  {
    if s < |q| {
      var u := UnitLength(q[s..]);
      assert q[s..][1..] == q[s + 1..] && q[s..][u..] == q[s + u..];
    }
  }

  lemma StartPass(q: seq<byte>, names: seq<seq<byte>>, values: seq<seq<byte>>)
    requires |names| == |values| && forall i :: 0 <= i < |names| ==> names[i] == values[i] == []
    ensures [] + Pass(q[0..], false, [], []) == OnePass(q) && |OnePass(q)| <= Ampersands(q) + 1
    ensures Filled(names, values, [])
  {
    hide Pass, Ampersands;
    assert q[0..] == q;
    PiecesCounted(q, false, [], []);
  }

  /** parse_query: one value for every ampersand and one more; the first ones are the decoded
      pieces of a single pass. The text is overwritten, but never ahead of the reading. */
  method ParseQuery(mem: array<byte>, ghost q: seq<byte>) returns (res: array<seq<byte>>, names: array<seq<byte>>)
    requires HoldsText(mem[..], q, 0)
    modifies mem
    ensures names.Length == Ampersands(q) + 1 && Filled(names[..], res[..], OnePass(q))
    ensures Undisturbed(q, false) ==> Filled(names[..], res[..], Meaning(q))
    ensures EndsInText(q) && (forall p :: p in Meaning(q) ==> NulFree(p))
      ==> (Filled(names[..], res[..], Meaning(q)) <==> Undisturbed(q, false))
  {
    hide UriDecode, Complete, UnitByte, UnitLength, CString, Pass, Reading, Filled, OnePass, Meaning, Undisturbed,
      Ampersands, EndsInText, NulFree;
    var total := CountParts(mem, q);
    res := new seq<byte>[total](_ => []);
    names := new seq<byte>[total](_ => []);
    var s, t, keyAt, value, parts := 0, 0, -1, 0, 0;
    ghost var done, key, cur := [], [], [];
    StartReading(mem[..], 0);
    StartPass(q, names[..], res[..]);
    while true
      invariant t <= s <= |q| && HoldsText(mem[..], q, s)
      invariant Reading(mem[..], keyAt, value, t, key, cur) && (s < |q| ==> Complete(cur))
      invariant done + Pass(q[s..], keyAt >= 0, key, cur) == OnePass(q)
      invariant parts == |done| && Filled(names[..], res[..], done)
      decreases |q| - s
    {
      PassStep(q, s, keyAt >= 0, key, cur);
      ghost var m := mem[..];
      if mem[s] == EQUALS && keyAt < 0 {
        mem[t] := 0;
        assert mem[..t] == m[..t];
        KeyRead(m, mem[..], keyAt, value, t, key, cur);
        keyAt, t, s := value, t + 1, s + 1;
        value := t;
        key, cur := cur, [];
      } else if mem[s] == AMPERSAND || mem[s] == 0 {
        var lastEntry := mem[s] == 0;
        StorePart(mem, t, keyAt, value, names, res, parts, done, key, cur);
        parts := parts + 1;
        if lastEntry {
          OnePassIsExact(q);
          if EndsInText(q) && forall p :: p in Meaning(q) ==> NulFree(p) {
            ArraysExact(q, names[..], res[..]);
          }
          break;
        }
        Associates(done, [Piece(keyAt >= 0, key, cur)], Pass(q[s + 1..], false, [], []));
        done := done + [Piece(keyAt >= 0, key, cur)];
        t, s, keyAt := t + 1, s + 1, -1;
        value := t;
        key, cur := [], [];
        StartReading(mem[..], t);
      } else {
        ghost var u := q[s..][..UnitLength(q[s..])];
        s := ReadUnit(mem, s, t, q, keyAt, value, key, cur);
        cur := cur + u;
        t := t + 1;
      }
    }
  }

  method CountParts(mem: array<byte>, ghost q: seq<byte>) returns (parts: nat)
    requires HoldsText(mem[..], q, 0)
    ensures parts == Ampersands(q) + 1
  {
    var s := 0;
    parts := 0;
    assert q[0..] == q;
    while mem[s] != 0
      invariant s <= |q| && parts + Ampersands(q[s..]) == Ampersands(q)
      decreases |q| - s
    {
      assert q[s..][1..] == q[s + 1..];
      if mem[s] == AMPERSAND {
        parts := parts + 1;
      }
      s := s + 1;
    }
    parts := parts + 1;
  }

  lemma {:induction false} AmpersandsSplit(q: seq<byte>)
    ensures var i := IndexOf(q, AMPERSAND);
      Ampersands(q) == if i == |q| then 0 else 1 + Ampersands(q[i + 1..])
    decreases |q|
  {
    if q != [] && q[0] != AMPERSAND {
      AmpersandsSplit(q[1..]);
      var i := IndexOf(q, AMPERSAND);
      assert i < |q| ==> q[1..][i - 1 + 1..] == q[i + 1..];
    }
  }

  /** A query means one value for every ampersand and one more, so nothing stays blank when no
      escape covers a separator. */
  lemma {:induction false} MeaningCounted(q: seq<byte>)
    ensures |Meaning(q)| == Ampersands(q) + 1
    decreases |q|
  {
    hide Meaning;
    MeaningStep(q);
    AmpersandsSplit(q);
    if IndexOf(q, AMPERSAND) < |q| {
      MeaningCounted(q[IndexOf(q, AMPERSAND) + 1..]);
    }
  }
}
