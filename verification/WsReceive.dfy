/** The receiving half of the WebSocket layer: a resumable reader over a fixed buffer that
    delivers the unmasked payload stream for any chunking of the wire. */
module WsReceive {
  import opened Bytes
  import opened Sums
  import opened Frames
  import opened Masks

  function Min(a: nat, b: nat): nat { if a < b then a else b }

  // ---- what the receiver still owes its caller ----

  /** The receiver's state as a value: the valid part of the buffer, whether it begins inside
      a frame, how much of that frame is undelivered, and how to unmask what is still to come. */
  datatype Rx = Rx(buf: seq<byte>, inFrame: bool, left: nat, masked: bool, phase: nat, key: Key)

  /** The stream from the next frame boundary on. */
  function NextFrames(rx: Rx, wire: seq<byte>): seq<byte>
  {
    if !rx.inFrame then rx.buf + wire
    else if |rx.buf| >= rx.left then rx.buf[rx.left..] + wire
    else if |wire| >= rx.left - |rx.buf| then wire[rx.left - |rx.buf|..]
    else []
  }

  /** What is left of the current frame: buffered bytes are already unmasked, bytes on the
      wire are not. */
  function CurrentFrame(rx: Rx, wire: seq<byte>): seq<byte>
  {
    if !rx.inFrame then []
    else if |rx.buf| >= rx.left then rx.buf[..rx.left]
    else rx.buf + Unmask(wire[..Min(rx.left - |rx.buf|, |wire|)], rx.masked, rx.key, rx.phase)
  }

  /** The undelivered payload bytes in the buffer and on the wire. */
  function Pending(rx: Rx, wire: seq<byte>): seq<byte>
  {
    CurrentFrame(rx, wire) + Payloads(NextFrames(rx, wire))
  }

  /** The current frame is completely buffered. */
  predicate Whole(rx: Rx)
  {
    rx.inFrame ==> |rx.buf| >= rx.left
  }

  /** Or else it is the last one. */
  predicate WholeOrLast(rx: Rx, wire: seq<byte>)
  {
    rx.inFrame && |rx.buf| < rx.left ==> NextFrames(rx, wire) == []
  }

  /** Two states that agree on everything that is looked at. */
  predicate Like(a: Rx, b: Rx)
  {
    && a.buf == b.buf && a.inFrame == b.inFrame
    && (a.inFrame ==> a.left == b.left && a.masked == b.masked && (a.masked ==> a.phase == b.phase && a.key == b.key))
  }

  lemma LikePending(a: Rx, b: Rx, wire: seq<byte>)
    requires Like(a, b)
    ensures Pending(a, wire) == Pending(b, wire) && NextFrames(a, wire) == NextFrames(b, wire)
    ensures Whole(a) == Whole(b) && WholeOrLast(a, wire) == WholeOrLast(b, wire)
  {
    hide Payloads;
  }

  // ---- the transitions ----

  /** n bytes of the current frame are handed over from the buffer. */
  function AfterDelivery(rx: Rx, n: nat): Rx
    requires rx.inFrame && n <= |rx.buf| && n <= rx.left
  {
    rx.(buf := rx.buf[n..], inFrame := n < rx.left, left := rx.left - n)
  }

  lemma DeliveryConserves(rx: Rx, wire: seq<byte>, n: nat)
    requires rx.inFrame && n <= |rx.buf| && n <= rx.left
    ensures Pending(rx, wire) == rx.buf[..n] + Pending(AfterDelivery(rx, n), wire)
    ensures NextFrames(AfterDelivery(rx, n), wire) == NextFrames(rx, wire)
  {
    hide Payloads, Unmask;
    var next := AfterDelivery(rx, n);
    assert NextFrames(next, wire) == NextFrames(rx, wire);
    assert CurrentFrame(rx, wire) == rx.buf[..n] + CurrentFrame(next, wire);
  }

  /** The buffer was empty in the middle of a frame, chunk was read from the wire and its
      first n bytes were handed over. What remains in the buffer is the beginning of chunk
      again, because the bytes are not moved. */
  function AfterRefill(rx: Rx, chunk: seq<byte>, n: nat): Rx
    requires rx.inFrame && n <= |chunk| && n <= rx.left
  {
    Rx(chunk[..|chunk| - n], n < rx.left, rx.left - n, rx.masked,
       if rx.masked then (n + rx.phase) % 4 else rx.phase, rx.key)
  }

  lemma RefillConserves(rx: Rx, chunk: seq<byte>, wire: seq<byte>)
    requires rx.inFrame && rx.buf == [] && |chunk| <= rx.left
    ensures Pending(rx, chunk + wire)
         == Unmask(chunk, rx.masked, rx.key, rx.phase) + Pending(AfterRefill(rx, chunk, |chunk|), wire)
    ensures NextFrames(AfterRefill(rx, chunk, |chunk|), wire) == NextFrames(rx, chunk + wire)
  {
    hide Payloads, Unmask, AfterRefill, CurrentFrame, NextFrames;
    RefillFrames(rx, chunk, wire);
    RefillFrame(rx, chunk, wire);
    var plain, rest := Unmask(chunk, rx.masked, rx.key, rx.phase), CurrentFrame(AfterRefill(rx, chunk, |chunk|), wire);
    Associates(plain, rest, Payloads(NextFrames(rx, chunk + wire)));
  }

  lemma RefillFrames(rx: Rx, chunk: seq<byte>, wire: seq<byte>)
    requires rx.inFrame && rx.buf == [] && |chunk| <= rx.left
    ensures NextFrames(AfterRefill(rx, chunk, |chunk|), wire) == NextFrames(rx, chunk + wire)
  {
    var n := |chunk|;
    assert chunk[..0] == [];
    if rx.left == n {
      assert (chunk + wire)[n..] == wire;
    } else if |chunk + wire| >= rx.left {
      assert (chunk + wire)[rx.left..] == wire[rx.left - n..];
    }
  }

  lemma RefillFrame(rx: Rx, chunk: seq<byte>, wire: seq<byte>)
    requires rx.inFrame && rx.buf == [] && |chunk| <= rx.left
    ensures CurrentFrame(rx, chunk + wire)
         == Unmask(chunk, rx.masked, rx.key, rx.phase) + CurrentFrame(AfterRefill(rx, chunk, |chunk|), wire)
  {
    hide Unmask;
    var n, all := |chunk|, chunk + wire;
    var tail := wire[..Min(rx.left - n, |wire|)];
    assert chunk[..0] == [];
    if rx.left > 0 {
      assert all[..Min(rx.left, |all|)] == chunk + tail;
    }
    UnmaskSplit(chunk, tail, rx.masked, rx.key, rx.phase);
    UnmaskPhase(tail, rx.masked, rx.key, rx.phase + n);
    UnmaskedAnyPhase(tail, rx.key, rx.phase + n, rx.phase);
    if rx.left == n {
      assert tail == [] && Unmask(tail, rx.masked, rx.key, rx.phase + n) == [];
    }
  }

  lemma UnmaskedAnyPhase(s: seq<byte>, key: Key, p: nat, q: nat)
    ensures Unmask(s, false, key, p) == Unmask(s, false, key, q)
  {
  }

  /** What the buffer ought to hold after the refill: the rest of the frame, unmasked, and
      whatever was read beyond it. */
  function RightBuffer(rx: Rx, chunk: seq<byte>, n: nat): seq<byte>
    requires rx.inFrame && n <= |chunk| && n <= rx.left
  {
    var end := Min(rx.left, |chunk|);
    Unmask(chunk[n..end], rx.masked, rx.key, rx.phase + n) + chunk[end..]
  }

  /** Reads of c bytes into the empty buffer, of which n are handed over, leave the right bytes
      behind whatever they are. */
  ghost predicate RefillIsRight(masked: bool, left: nat, phase: nat, c: nat, n: nat)
    requires n <= c && n <= left
  {
    forall key: Key, chunk: seq<byte> {:trigger Unmask(chunk, masked, key, 0)} :: |chunk| == c ==>
      var rx := Rx([], true, left, masked, phase, key);
      AfterRefill(rx, chunk, n).buf == RightBuffer(rx, chunk, n)
  }

  /** The refill is right for all contents exactly when it reads no more than it hands over,
      or hands over nothing of an unmasked frame. */
  lemma RefillExact(masked: bool, left: nat, phase: nat, c: nat, n: nat)
    requires n <= c && n <= left && left > 0
    ensures RefillIsRight(masked, left, phase, c, n) <==> (c == n || (n == 0 && !masked))
  {
    if c == n {
      RefillRight(masked, left, phase, c, n);
    } else if n == 0 && !masked {
      RefillRight(masked, left, phase, c, n);
    } else {
      RefillWrong(masked, left, phase, c, n);
    }
  }

  lemma RefillRight(masked: bool, left: nat, phase: nat, c: nat, n: nat)
    requires n <= c && n <= left && (c == n || (n == 0 && !masked))
    ensures RefillIsRight(masked, left, phase, c, n)
  {
    forall key: Key, chunk: seq<byte> | |chunk| == c
      ensures var rx := Rx([], true, left, masked, phase, key);
        AfterRefill(rx, chunk, n).buf == RightBuffer(rx, chunk, n)
    {
      var rx := Rx([], true, left, masked, phase, key);
      var end := Min(left, c);
      if c == n {
        assert chunk[n..end] == [] && chunk[end..] == [];
      } else {
        assert Unmask(chunk[..end], false, key, phase) == chunk[..end];
        assert chunk[0..end] == chunk[..end] && chunk == chunk[..end] + chunk[end..];
      }
    }
  }

  /** A content for which the bytes left behind are wrong. */
  lemma RefillWrong(masked: bool, left: nat, phase: nat, c: nat, n: nat)
    requires n < c && n <= left && left > 0 && (n > 0 || masked)
    ensures !RefillIsRight(masked, left, phase, c, n)
  {
    var key: Key := if n == 0 then [1, 1, 1, 1] else [0, 0, 0, 0];
    var chunk: seq<byte> := seq(c, i => if i == 0 && n > 0 then 1 else 0);
    var rx := Rx([], true, left, masked, phase, key);
    var got, right := AfterRefill(rx, chunk, n).buf, RightBuffer(rx, chunk, n);
    XorSmall();
    assert got[0] == chunk[0];
    if n == 0 {
      assert right[0] == Xor(0, key[phase % 4]) == 1;
    } else if n < left {
      assert right[0] == if masked then Xor(chunk[n], key[(phase + n) % 4]) else chunk[n];
    } else {
      assert right[0] == chunk[left];
    }
    assert got != right;
    assert Unmask(chunk, masked, key, 0) == Unmask(chunk, masked, key, 0);
  }

  lemma XorSmall()
    ensures Xor(0, 0) == 0 && Xor(0, 1) == 1
  {
    assert XorBits(0, 0, 7) == 0 by { XorZeros(7); }
  }

  lemma {:induction false} XorZeros(n: nat)
    ensures XorBits(0, 0, n) == 0
  {
    if n > 0 {
      XorZeros(n - 1);
    }
  }

  /** A frame of the stream has begun; body is the stream behind its header, got of its len
      payload bytes are buffered and unmasked, n of them are handed over, extra are the bytes
      read beyond the frame. */
  function AfterStart(body: seq<byte>, len: nat, masked: bool, key: Key, got: nat, extra: seq<byte>,
                      n: nat, phase: nat): Rx
    requires n <= got <= len && got <= |body|
  {
    Rx(Unmask(body[..got], masked, key, 0)[n..] + extra, n < len, len - n, masked, phase, key)
  }

  lemma FirstFrame(body: seq<byte>, len: nat, masked: bool, key: Key)
    ensures FramePayloads(body, len, masked, key)
         == Unmask(body[..Min(len, |body|)], masked, key, 0) + Payloads(if |body| >= len then body[len..] else [])
  {
    hide Unmask;
    assert Payloads([]) == [];
    if |body| < len {
      assert body[..|body|] == body;
    }
  }

  /** Starting a frame conserves the stream, whether the frame is completely buffered or part
      of it is still on the wire. */
  lemma StartConserves(body: seq<byte>, len: nat, masked: bool, key: Key, got: nat, extra: seq<byte>, wire: seq<byte>,
                       n: nat, phase: nat)
    requires n <= got <= len && got <= |body| && body[got..] == extra + wire
    requires got < len ==> extra == [] && (masked ==> phase == got % 4)
    ensures var rx := AfterStart(body, len, masked, key, got, extra, n, phase);
      && FramePayloads(body, len, masked, key) == Unmask(body[..got], masked, key, 0)[..n] + Pending(rx, wire)
      && NextFrames(rx, wire) == (if |body| >= len then body[len..] else [])
      && (got == len ==> Whole(rx))
  {
    hide Unmask, CurrentFrame, NextFrames, Payloads, Whole, FramePayloads;
    FirstFrame(body, len, masked, key);
    assert got == len ==> body[..len] == body[..got];
    var plain := Unmask(body[..got], masked, key, 0);
    if got == len {
      WholeFrame(plain, extra, wire, n, masked, phase, key);
      assert plain == plain[..n] + plain[n..];
      Associates(plain[..n], plain[n..], Payloads(extra + wire));
    } else {
      assert wire == body[got..];
      assert plain[n..] + [] == plain[n..];
      PartialNext(body, got, len, n, masked, phase, key, plain);
      PartialFrame(body, got, len, n, masked, phase, key);
      PartialJoin(body, got, len, n, masked, key);
      var rest := CurrentFrame(AfterStart(body, len, masked, key, got, [], n, phase), wire);
      Associates(plain[..n], rest, Payloads(if |body| >= len then body[len..] else []));
    }
  }

  lemma WholeFrame(plain: seq<byte>, extra: seq<byte>, wire: seq<byte>, n: nat, masked: bool, phase: nat, key: Key)
    requires n <= |plain|
    ensures var rx := Rx(plain[n..] + extra, n < |plain|, |plain| - n, masked, phase, key);
      CurrentFrame(rx, wire) == plain[n..] && NextFrames(rx, wire) == extra + wire && Whole(rx)
  {
    hide Unmask;
    if n == |plain| {
      assert plain[n..] == [];
    } else {
      assert (plain[n..] + extra)[..|plain| - n] == plain[n..];
      assert (plain[n..] + extra)[|plain| - n..] == extra;
    }
  }

  lemma PartialNext(body: seq<byte>, got: nat, len: nat, n: nat, masked: bool, phase: nat, key: Key, plain: seq<byte>)
    requires n <= got < len && got <= |body| && |plain| == got
    ensures NextFrames(Rx(plain[n..], true, len - n, masked, phase, key), body[got..])
         == if |body| >= len then body[len..] else []
  {
    hide Unmask;
    if |body| >= len {
      assert body[got..][len - got..] == body[len..];
    }
  }

  lemma PartialFrame(body: seq<byte>, got: nat, len: nat, n: nat, masked: bool, phase: nat, key: Key)
    requires n <= got < len && got <= |body| && (masked ==> phase == got % 4)
    ensures var plain := Unmask(body[..got], masked, key, 0);
      CurrentFrame(Rx(plain[n..], true, len - n, masked, phase, key), body[got..])
      == plain[n..] + Unmask(body[got..][..Min(len - got, |body| - got)], masked, key, got)
  {
    hide Unmask;
    var tail := body[got..][..Min(len - got, |body| - got)];
    UnmaskPhase(tail, masked, key, got);
    UnmaskedAnyPhase(tail, key, got, phase);
  }

  lemma PartialJoin(body: seq<byte>, got: nat, len: nat, n: nat, masked: bool, key: Key)
    requires n <= got < len && got <= |body|
    ensures var plain := Unmask(body[..got], masked, key, 0);
      plain[..n] + (plain[n..] + Unmask(body[got..][..Min(len - got, |body| - got)], masked, key, got))
      == Unmask(body[..Min(len, |body|)], masked, key, 0)
  {
    hide Unmask;
    var plain, tail := Unmask(body[..got], masked, key, 0), body[got..][..Min(len - got, |body| - got)];
    UnmaskSplit(body[..got], tail, masked, key, 0);
    assert body[..Min(len, |body|)] == body[..got] + tail;
    Associates(plain[..n], plain[n..], Unmask(tail, masked, key, got));
    assert plain == plain[..n] + plain[n..];
  }
}
