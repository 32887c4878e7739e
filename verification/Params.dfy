/** The parameter list of a packet: what clients lay out and what the server's loop finds. */
module Params {
  import opened Bytes
  import opened Rsrv
  import opened Sums
  import opened RTalk

  datatype Param = Param(ty: byte, data: seq<byte>)

  /** Types leave the large flag alone and lengths are Java ints. */
  predicate Sendable(p: Param)
  {
    p.ty + XT_LARGE < 0x100 && !IS_LARGE(p.ty) && |p.data| <= MAX_INT32
  }

  /** The header bytes SetHdr produces. */
  function Header(ty: byte, len: nat): (h: seq<byte>)
    requires ty + XT_LARGE < 0x100 && len <= MAX_INT32
    ensures |h| == if len > LARGE_LIMIT then 8 else 4
  {
    if len > LARGE_LIMIT then WordBytes(SET_PAR(ty + XT_LARGE, len)) + WordBytes(len / LEN24)
    else WordBytes(SET_PAR(ty, len))
  }

  /** newHdr: a header of its own. */
  method NewHdr(ty: byte, len: nat) returns (h: seq<byte>)
    requires ty + XT_LARGE < 0x100 && !IS_LARGE(ty) && len <= MAX_INT32
    ensures h == Header(ty, len)
  {
    var hdr := new byte[if len > LARGE_LIMIT then 8 else 4];
    var end := SetHdr(ty, len, hdr, 0);
    h := hdr[..];
    WordUnique(h, 0, if len > LARGE_LIMIT then SET_PAR(ty + XT_LARGE, len) else SET_PAR(ty, len));
    if len > LARGE_LIMIT {
      WordUnique(h, 4, len / LEN24);
      assert h == h[0..4] + h[4..8];
    } else {
      assert h == h[0..4];
    }
  }

  lemma WordUnique(m: seq<byte>, o: nat, w: word)
    requires o + 4 <= |m| && WordAt(m, o) == w
    ensures m[o..o + 4] == WordBytes(w)
  {
    WordDigits(w, m[o], m[o + 1], m[o + 2], m[o + 3]);
    assert m[o..o + 4] == [m[o], m[o + 1], m[o + 2], m[o + 3]];
  }

  function Layout(ps: seq<Param>): seq<byte>
    requires forall i :: 0 <= i < |ps| ==> Sendable(ps[i])
  {
    if |ps| == 0 then []
    else
      assert Sendable(ps[0]);
      Header(ps[0].ty, |ps[0].data|) + ps[0].data + Layout(ps[1..])
  }

  // ---- the server's loop ----

  /** One entry of parT, parL and parP. */
  datatype Entry = Entry(ty: nat, len: nat, at: nat)

  function HeadType(m: seq<byte>, c: nat): byte
    requires c + 4 <= |m|
  {
    PAR_TYPE(WordAt(m, c))
  }

  function EntryAt(m: seq<byte>, c: nat): Entry
    requires c + 8 <= |m|
  {
    var large := IS_LARGE(HeadType(m, c));
    Entry(HeadType(m, c) - (if large then XT_LARGE else 0),
          PAR_LEN(WordAt(m, c)) + (if large then WordAt(m, c + 4) * LEN24 else 0),
          c + if large then 8 else 4)
  }

  /** The entries found from offset c on, up to end, when n are left to be found. */
  function Scan(m: seq<byte>, end: nat, c: nat, n: nat): seq<Entry>
    requires |m| >= end + 8
    decreases n
  {
    if c >= end || WordAt(m, c) == 0 || n == 0 then []
    else
      var e := EntryAt(m, c);
      [e] + Scan(m, end, e.at + e.len, n - 1)
  }

  lemma ScanStep(m: seq<byte>, end: nat, c: nat, n: nat)
    requires |m| >= end + 8
    ensures c >= end || WordAt(m, c) == 0 || n == 0 ==> Scan(m, end, c, n) == []
    ensures c < end && WordAt(m, c) != 0 && n > 0 ==>
      Scan(m, end, c, n) == [EntryAt(m, c)] + Scan(m, end, EntryAt(m, c).at + EntryAt(m, c).len, n - 1)
  {
    hide WordAt, EntryAt;
  }

  /** The loop at Rserv.c:2570-2601 on a buffer whose eight bytes behind the packet were cleared;
      par holds what the original keeps in parT, parL and parP. */
  method ScanParameters(m: seq<byte>, dof: nat, plen: nat) returns (par: seq<Entry>)
    requires |m| >= dof + plen + 8
    ensures par == Scan(m, dof + plen, dof, 16)
  {
    hide EntryAt, WordAt, Scan;
    par := [];
    var c: nat := dof;
    while c < dof + plen && WordAt(m, c) != 0
      invariant |par| < 16
      invariant par + Scan(m, dof + plen, c, 16 - |par|) == Scan(m, dof + plen, dof, 16)
      decreases 16 - |par|
    {
      var parType, parLen, at := ReadHeader(m, c);
      ghost var e := EntryAt(m, c);
      ScanStep(m, dof + plen, c, 16 - |par|);
      Associates(par, [e], Scan(m, dof + plen, e.at + e.len, 15 - |par|));
      par := par + [Entry(parType, parLen, at)];
      c := at + parLen;
      if |par| > 15 {
        break;
      }
    }
    ScanStep(m, dof + plen, c, 16 - |par|);
    assert par + [] == par;
  }

  /** The type, the length and where the data starts, for both header formats. */
  method ReadHeader(m: seq<byte>, c: nat) returns (parType: nat, parLen: nat, at: nat)
    requires c + 8 <= |m|
    ensures Entry(parType, parLen, at) == EntryAt(m, c)
  {
    var headSize, phead := 4, WordAt(m, c);
    parType, parLen := PAR_TYPE(phead), PAR_LEN(phead);
    if IS_LARGE(parType) {
      headSize := headSize + 4;
      parLen := parLen + WordAt(m, c + 4) * LEN24;
      parType := parType - XT_LARGE;
    }
    at := c + headSize;
  }

  // ---- inversion ----

  /** A parameter whose header reads as the end of the list. */
  predicate IsEnd(p: Param) { p.ty == 0 && p.data == [] }

  /** The parameters the server can see: those before the first such one, at most n. */
  function Visible(ps: seq<Param>, n: nat): seq<Param>
  {
    if ps == [] || IsEnd(ps[0]) || n == 0 then [] else [ps[0]] + Visible(ps[1..], n - 1)
  }

  /** The entry of a parameter says its type and length and points at its data. */
  ghost predicate Points(e: Entry, p: Param, m: seq<byte>)
  {
    && e.ty == p.ty && e.len == |p.data|
    && e.at + e.len <= |m| && m[e.at..e.at + e.len] == p.data
  }

  lemma HeaderRead(m: seq<byte>, c: nat, p: Param)
    requires Sendable(p)
    requires var h := Header(p.ty, |p.data|); c + 8 <= |m| && c + |h| <= |m| && m[c..c + |h|] == h
    ensures EntryAt(m, c) == Entry(p.ty, |p.data|, c + |Header(p.ty, |p.data|)|)
    ensures WordAt(m, c) == 0 <==> IsEnd(p)
  {
    hide WordBytes, WordAt;
    var len, h := |p.data|, Header(p.ty, |p.data|);
    if len > LARGE_LIMIT {
      assert m[c..c + 4] == m[c..c + 8][..4] == h[..4] == WordBytes(SET_PAR(p.ty + XT_LARGE, len));
      assert m[c + 4..c + 8] == m[c..c + 8][4..] == h[4..] == WordBytes(len / LEN24);
      WordRead(m, c, SET_PAR(p.ty + XT_LARGE, len));
      WordRead(m, c + 4, len / LEN24);
      assert len % LEN24 + len / LEN24 * LEN24 == len;
    } else {
      WordRead(m, c, SET_PAR(p.ty, len));
      assert len % LEN24 == len;
    }
  }

  /** Scanning inverts laying out: from any list of parameters, followed by any number of zero
      bytes, the server finds exactly the visible ones, in order, with their types, lengths and
      data. Short and large headers mix freely. */
  lemma {:induction false} Inversion(m: seq<byte>, end: nat, c: nat, ps: seq<Param>, n: nat)
    requires forall i :: 0 <= i < |ps| ==> Sendable(ps[i])
    requires |m| >= end + 8 && c + |Layout(ps)| <= end
    requires m[c..c + |Layout(ps)|] == Layout(ps)
    requires forall i :: c + |Layout(ps)| <= i < |m| ==> m[i] == 0
    ensures |Scan(m, end, c, n)| == |Visible(ps, n)|
    ensures forall i :: 0 <= i < |Visible(ps, n)| ==> Points(Scan(m, end, c, n)[i], Visible(ps, n)[i], m)
    decreases n
  {
    hide Header, EntryAt, Scan, WordAt, Layout, Points;
    LayoutStep(ps);
    ScanStep(m, end, c, n);
    if |ps| == 0 {
      if c < end {
        ZeroWord(m, c);
      }
    } else {
      var p := ps[0];
      var h, rest := Header(p.ty, |p.data|), Layout(ps[1..]);
      Parts(m, c, h, p.data, rest);
      HeaderRead(m, c, p);
      if !IsEnd(p) && n > 0 {
        Inversion(m, end, c + |h| + |p.data|, ps[1..], n - 1);
        PointsAt(EntryAt(m, c), p, m);
      }
    }
  }

  lemma LayoutStep(ps: seq<Param>)
    requires forall i :: 0 <= i < |ps| ==> Sendable(ps[i])
    ensures |ps| == 0 ==> Layout(ps) == []
    ensures |ps| > 0 ==> Sendable(ps[0])
    ensures |ps| > 0 ==> Layout(ps) == Header(ps[0].ty, |ps[0].data|) + ps[0].data + Layout(ps[1..])
  {
    hide Header;
  }

  lemma PointsAt(e: Entry, p: Param, m: seq<byte>)
    requires e.ty == p.ty && e.len == |p.data| && e.at + e.len <= |m| && m[e.at..e.at + e.len] == p.data
    ensures Points(e, p, m)
  {
  }

  lemma ZeroWord(m: seq<byte>, c: nat)
    requires c + 4 <= |m| && forall i :: c <= i < |m| ==> m[i] == 0
    ensures WordAt(m, c) == 0
  {
  }

  lemma Parts(m: seq<byte>, c: nat, a: seq<byte>, b: seq<byte>, d: seq<byte>)
    requires c + |a| + |b| + |d| <= |m| && m[c..c + |a| + |b| + |d|] == a + b + d
    ensures m[c..c + |a|] == a && m[c + |a|..c + |a| + |b|] == b
    ensures m[c + |a| + |b|..c + |a| + |b| + |d|] == d
  {
    var e := c + |a| + |b| + |d|;
    var all := a + b + d;
    assert all[..|a|] == a && all[|a|..|a| + |b|] == b && all[|a| + |b|..] == d;
    SliceOfSlice(m, c, e, 0, |a|);
    SliceOfSlice(m, c, e, |a|, |a| + |b|);
    SliceOfSlice(m, c, e, |a| + |b|, |all|);
  }

  /** The server frames its own replies with ll & 0xffffff and ll >> 24 (Rserv.c:3289-3297); the
      two parts recombine to ll for every length below 2^56. */
  lemma ReplyFraming(m: seq<byte>, ll: nat, ty: byte)
    requires |m| >= 8 && ll < LEN56 && ty + XT_LARGE < 0x100 && !IS_LARGE(ty)
    requires m[0..4] == WordBytes(if ll > LARGE_LIMIT then SET_PAR(ty + XT_LARGE, ll % LEN24) else SET_PAR(ty, ll))
    requires ll > LARGE_LIMIT ==> m[4..8] == WordBytes(ll / LEN24)
    ensures EntryAt(m, 0) == Entry(ty, ll, if ll > LARGE_LIMIT then 8 else 4)
  {
    hide WordBytes, WordAt;
    WordRead(m, 0, if ll > LARGE_LIMIT then SET_PAR(ty + XT_LARGE, ll % LEN24) else SET_PAR(ty, ll));
    if ll > LARGE_LIMIT {
      WordRead(m, 4, ll / LEN24);
      assert ll % LEN24 % LEN24 == ll % LEN24;
      assert ll % LEN24 + ll / LEN24 * LEN24 == ll;
    }
  }

  // ---- the string request ----

  const DT_STRING := 4

  /** The string with its terminator, padded to a multiple of four. */
  function Terminated(par: seq<byte>): (b: seq<byte>)
    ensures |b| == Align(|par| + 1)
  {
    par + seq(Align(|par| + 1) - |par|, _ => 0)
  }

  /** request(int, String): the length is rounded up by a mask of 24 bits, so a longer string is
      only sent if it needs no rounding, and ends in an exception otherwise. The body that is sent
      is one parameter and a zero byte exactly as long as the padded string does not need the
      large header, for which no room is made. */
  method RequestString(par: seq<byte>) returns (sent: bool, rq: seq<byte>)
    requires |par| + 8 <= MAX_INT32
    ensures sent <==> |par| + 1 < LEN24 || (|par| + 1) % 4 == 0
    ensures sent ==>
      (rq == Layout([Param(4, Terminated(par))]) + [0] <==> Align(|par| + 1) <= LARGE_LIMIT)
  {
    hide Header, Layout, Terminated;
    sent, rq := false, [];
    var sl := |par| + 1;
    if sl % 4 > 0 {
      sl := sl % LEN24 / 4 * 4 + 4;
    }
    Rounded(|par| + 1);
    var copied, buf := CopyString(par, sl);
    if !copied {
      return;
    }
    TerminatedIs(buf[4..], par);
    ghost var p, padded := Param(DT_STRING, Terminated(par)), buf[4..];
    LayoutStep([p]);
    LayoutStep([p][1..]);
    var end := SetHdr(DT_STRING, sl, buf, 0);
    sent, rq := true, buf[..];
    if sl <= LARGE_LIMIT {
      WordUnique(rq, 0, SET_PAR(DT_STRING, sl));
      ShortHeader(DT_STRING, sl);
      assert rq == rq[0..4] + rq[4..];
      assert rq[4..] == padded;
    }
  }

  /** The request for "x+1": the parameter's type and length, the text and its end; and the header of
      a string of 2^24 bytes. */
  lemma RequestSpelled()
    ensures Layout([Param(4, Terminated([0x78, 0x2b, 0x31]))]) == [4, 4, 0, 0, 0x78, 0x2b, 0x31, 0]
    ensures Header(4, 0x100_0000) == [4 + 64, 0, 0, 0, 1, 0, 0, 0]
  {
    hide WordBytes, Layout;
    var t: seq<byte> := Terminated([0x78, 0x2b, 0x31]);
    assert t == [0x78, 0x2b, 0x31, 0];
    LayoutOne(Param(4, t));
    WordDigits(0x404, 4, 4, 0, 0);
    WordDigits(0x44, 0x44, 0, 0, 0);
    WordDigits(1, 1, 0, 0, 0);
  }

  lemma LayoutOne(p: Param)
    requires Sendable(p)
    ensures Layout([p]) == Header(p.ty, |p.data|) + p.data
  {
    hide Header;
    assert [p][1..] == [];
  }

  /** A request buffer with the string and zeros behind it, or the exception if it does not fit. */
  method CopyString(par: seq<byte>, sl: nat) returns (copied: bool, buf: array<byte>)
    ensures fresh(buf) && buf.Length == sl + 5 && (copied <==> |par| <= sl + 1)
    ensures copied ==> buf[4..][..|par|] == par && forall j :: |par| <= j < sl + 1 ==> buf[4..][j] == 0
  {
    copied, buf := false, new byte[sl + 5](_ => 0);
    var i := 0;
    while i < |par|
      invariant i <= |par| && i <= sl + 1
      invariant forall j :: 0 <= j < i ==> buf[j + 4] == par[j]
      invariant forall j :: i + 4 <= j < buf.Length ==> buf[j] == 0
    {
      if i + 4 >= buf.Length {
        return;
      }
      buf[i + 4] := par[i];
      i := i + 1;
    }
    while i < sl
      invariant |par| <= i && i <= sl + 1
      invariant forall j :: 0 <= j < |par| ==> buf[j + 4] == par[j]
      invariant forall j :: |par| + 4 <= j < buf.Length ==> buf[j] == 0
    {
      buf[i + 4] := 0;
      i := i + 1;
    }
    copied := true;
  }

  lemma TerminatedIs(b: seq<byte>, par: seq<byte>)
    requires |b| == Align(|par| + 1) + 1 && b[..|par|] == par
    requires forall j :: |par| <= j < |b| ==> b[j] == 0
    ensures b == Terminated(par) + [0]
  {
  }

  /** A length that is not rounded within its 24 bits is rounded to less. */
  lemma Rounded(n: nat)
    ensures var sl := if n % 4 > 0 then n % LEN24 / 4 * 4 + 4 else n;
      if n < LEN24 || n % 4 == 0 then sl == Align(n) else sl + 2 < n
  {
  }

  lemma ShortHeader(ty: byte, len: nat)
    requires ty + XT_LARGE < 0x100 && len <= LARGE_LIMIT
    ensures Header(ty, len) == WordBytes(SET_PAR(ty, len))
  {
  }
}
