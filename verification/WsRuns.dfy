/** Whole sessions of the WebSocket layer: frames in, bytes out. */
module WsRuns {
  import opened Bytes
  import opened Sums
  import opened Frames
  import opened WsReceive
  import opened WsSocket
  import opened WsSend

  lemma {:induction false} StreamWithin(fs: seq<ClientFrame>, bl: nat)
    requires forall i :: 0 <= i < |fs| ==> |fs[i].data| < FRAME_LIMIT
    requires forall i :: 0 <= i < |fs| ==> Fits(fs[i], bl)
    ensures FramesWithin(WireOf(fs), bl)
  {
    hide EncodeFrame, Payloads;
    if fs != [] {
      StreamWithin(fs[1..], bl);
      FrameParsed(fs[0].b0, fs[0].masked, fs[0].key, fs[0].data, WireOf(fs[1..]));
    }
  }

  lemma {:induction false} OthersInStream(fs: seq<ClientFrame>, bl: nat)
    requires forall i :: 0 <= i < |fs| ==> |fs[i].data| < FRAME_LIMIT
    requires forall i :: 0 <= i < |fs| - 1 ==> Fits(fs[i], bl)
    ensures OthersWithin(WireOf(fs), bl)
  {
    hide EncodeFrame, Payloads, HeadLength, PayloadLength, TooBig;
    if fs != [] {
      var f, rest := fs[0], WireOf(fs[1..]);
      FrameAt(f.b0, f.masked, f.key, f.data, rest);
      OthersInStream(fs[1..], bl);
      var frame := EncodeFrame(f.b0, f.masked, f.key, f.data);
      assert (frame + rest)[|frame|..] == rest;
      assert |fs| == 1 ==> rest == [];
    }
  }

  predicate Fits(f: ClientFrame, bl: nat) { |EncodeFrame(f.b0, f.masked, f.key, f.data)| <= bl }

  /** A client sends any frames, with any keys; the server asks for any lengths, one after the
      other. However the network cuts the stream into pieces, what comes out and what is still
      owed make up the data that was put into the frames, as long as no call has read too much in
      the middle of a frame (which exact notes, and which ends the run). None does if all frames
      fit the receiver's buffer, or if all but the last one do and the server always asks for a
      buffer full. */
  method Session(fs: seq<ClientFrame>, bl: nat, lens: seq<nat>)
    returns (got: seq<byte>, ghost owed: seq<byte>, exact: bool)
    requires bl >= 14 && forall i :: 0 <= i < |fs| ==> |fs[i].data| < FRAME_LIMIT
    ensures exact ==> got + owed == DataOf(fs)
    ensures (forall i :: 0 <= i < |fs| ==> Fits(fs[i], bl)) ==> exact
    ensures (forall i :: 0 <= i < |fs| - 1 ==> Fits(fs[i], bl)) && (forall i :: 0 <= i < |lens| ==> lens[i] >= bl)
      ==> exact
  {
    hide Fits, Payloads, Pending, NextFrames, Whole, WholeOrLast, FramesWithin, OthersWithin, Supported, InFrame,
      Masked, GET_MASK_ID, WireOf, DataOf, SameOutside, Overread, Receiver.AwaitsLast,
      Receiver.Owed, Receiver.Later, Receiver.State;
    StreamParsed(fs);
    ghost var all := forall i :: 0 <= i < |fs| ==> Fits(fs[i], bl);
    ghost var asked := forall i :: 0 <= i < |lens| ==> lens[i] >= bl;
    ghost var others := asked && forall i :: 0 <= i < |fs| - 1 ==> Fits(fs[i], bl);
    if all {
      StreamWithin(fs, bl);
    }
    if others {
      OthersInStream(fs, bl);
    }
    var w := new Wire(WireOf(fs));
    var r := new Receiver(w, bl);
    got, exact := [], true;
    assert got + r.Owed() == DataOf(fs);
    for i := 0 to |lens|
      invariant r.Valid() && fresh(r) && fresh(r.buf) && fresh(r.wire) && r.buf.Length == bl
      invariant Supported(r.Later()) && exact
      invariant all ==> Whole(r.State()) && FramesWithin(r.Later(), bl)
      invariant others ==> r.AwaitsLast()
      invariant got + r.Owed() == DataOf(fs)
    {
      owed := r.Owed();
      var rx, before := r.State(), r.wire.rest;
      var dst := new byte[lens[i]];
      var n := r.RecvData(dst, 0, lens[i]);
      Associates(got, dst[..Count(n)], r.Owed());
      got := got + dst[..Count(n)];
      exact := !Overread(rx, |before| - |r.wire.rest|, lens[i]);
      if !exact {
        return;
      }
      assert owed == dst[0..Count(n)] + r.Owed();
    }
    owed := r.Owed();
  }
}
