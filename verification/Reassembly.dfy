/** GameServer's onMessage: cutting the received stream into frames, however it arrives. */
module Reassembly {
  import opened Bytes
  import opened Framing

  /** The prefix in front of every frame is one 16-bit length, the frame's own. */
  const HEADER_LENGTH := 2

  predicate ValidLength(len: int) {
    2 <= len <= PACKET_SIZE
  }

  /** A whole frame of valid length is at the front. */
  predicate FrameReady(s: seq<byte>) {
    |s| >= HEADER_LENGTH && ValidLength(WordAt(s, 0)) && |s| >= WordAt(s, 0)
  }

  /** The frames a stream holds, up to the first invalid length or the first incomplete frame. */
  ghost function Frames(s: seq<byte>): seq<seq<byte>> {
    if FrameReady(s) then [s[..WordAt(s, 0)]] + Frames(s[WordAt(s, 0)..]) else []
  }

  /** What is left behind them. */
  ghost function Rest(s: seq<byte>): seq<byte> {
    if FrameReady(s) then Rest(s[WordAt(s, 0)..]) else s
  }

  predicate Broken(s: seq<byte>) {
    |s| >= HEADER_LENGTH && !ValidLength(WordAt(s, 0))
  }

  // ---- The stream ----

  /** No byte is lost, added or reordered, and what is left holds no frame. */
  lemma {:induction false} FramesAndRest(s: seq<byte>)
    ensures Concat(Frames(s)) + Rest(s) == s && !FrameReady(Rest(s))
    ensures forall f | f in Frames(s) :: FrameReady(f) && |f| == WordAt(f, 0)
    decreases |s|
  {
    if FrameReady(s) {
      var len := WordAt(s, 0);
      FramesAndRest(s[len..]);
      assert Frames(s)[1..] == Frames(s[len..]);
      assert Concat(Frames(s)) == s[..len] + Concat(Frames(s[len..]));
      Rejoined(s, len, Concat(Frames(s[len..])), Rest(s[len..]));
    }
  }

  lemma Rejoined(s: seq<byte>, len: nat, a: seq<byte>, b: seq<byte>)
    requires len <= |s| && a + b == s[len..]
    ensures s[..len] + a + b == s
  {
  }

  /** Bytes that arrive later are read on from what was left. */
  lemma {:induction false} FramesOfConcat(s: seq<byte>, t: seq<byte>)
    ensures Frames(s + t) == Frames(s) + Frames(Rest(s) + t)
    ensures Rest(s + t) == Rest(Rest(s) + t)
    decreases |s|
  {
    if FrameReady(s) {
      var len := WordAt(s, 0);
      assert (s + t)[..len] == s[..len] && (s + t)[len..] == s[len..] + t;
      FramesOfConcat(s[len..], t);
    } else {
      assert Frames(s) == [];
    }
  }

  /** After an invalid length no frame is read any more, whatever follows. */
  lemma NothingAfterBroken(s: seq<byte>, t: seq<byte>)
    requires Broken(Rest(s))
    ensures Frames(s + t) == Frames(s) && Rest(s + t) == Rest(s) + t && Broken(Rest(s + t))
  {
    FramesOfConcat(s, t);
    assert !FrameReady(Rest(s) + t);
  }

  // ---- The connection ----

  class Connection {
    var buf: seq<byte>
    var delivered: seq<seq<byte>>
    var shutdown: bool
    ghost var received: seq<byte>

    ghost predicate Valid()
      reads this
    {
      && delivered == Frames(received) && buf == Rest(received)
      && (shutdown <==> Broken(buf))
    }

    constructor ()
      ensures Valid() && received == [] && !shutdown
    {
      buf, delivered, shutdown, received := [], [], false, [];
    }

    /** The network appends a chunk to the buffer and calls back. */
    method OnMessage(chunk: seq<byte>)
      requires Valid()
      modifies this
      ensures Valid() && received == old(received) + chunk
    {
      hide Broken, Frames, Rest, FrameReady;
      FramesOfConcat(received, chunk);
      BrokenStays(buf, chunk);
      received := received + chunk;
      buf := buf + chunk;
      while |buf| >= HEADER_LENGTH
        invariant received == old(received) + chunk
        invariant Frames(received) == delivered + Frames(buf) && Rest(received) == Rest(buf)
        invariant shutdown ==> Broken(buf)
      {
        FrameCases(buf);
        var len := WordAt(buf, 0);
        if len > PACKET_SIZE || len < 2 {
          shutdown := true;
          break;
        } else if |buf| >= len {
          delivered := delivered + [buf[..len]];
          buf := buf[len..];
        } else {
          break;
        }
      }
      FrameCases(buf);
    }
  }

  /** What the front of a stream can be. */
  lemma FrameCases(s: seq<byte>)
    ensures |s| < HEADER_LENGTH ==> Frames(s) == [] && Rest(s) == s && !Broken(s)
    ensures |s| >= HEADER_LENGTH && !ValidLength(WordAt(s, 0)) ==> Frames(s) == [] && Rest(s) == s && Broken(s)
    ensures |s| >= HEADER_LENGTH && ValidLength(WordAt(s, 0)) ==>
              && !Broken(s)
              && if |s| >= WordAt(s, 0) then
                   Frames(s) == [s[..WordAt(s, 0)]] + Frames(s[WordAt(s, 0)..]) && Rest(s) == Rest(s[WordAt(s, 0)..])
                 else
                   Frames(s) == [] && Rest(s) == s
  {
  }

  lemma BrokenStays(s: seq<byte>, t: seq<byte>)
    ensures Broken(s) ==> Broken(s + t)
  {
  }

  /** However a stream is cut into chunks, the frames delivered are those of the whole stream. */
  method Receive(chunks: seq<seq<byte>>) returns (delivered: seq<seq<byte>>, shutdown: bool)
    ensures delivered == Frames(Concat(chunks))
    ensures shutdown <==> Broken(Rest(Concat(chunks)))
  {
    var c := new Connection();
    assert chunks[..0] == [];
    for i := 0 to |chunks|
      invariant c.Valid() && c.received == Concat(chunks[..i]) && fresh(c)
    {
      ConcatAppend(chunks[..i], chunks[i]);
      assert chunks[..i + 1] == chunks[..i] + [chunks[i]];
      c.OnMessage(chunks[i]);
    }
    assert chunks[..|chunks|] == chunks;
    delivered, shutdown := c.delivered, c.shutdown;
  }

  // ---- From one end to the other ----

  /** What sendData sends for a buffer with the given headers. */
  datatype Sending = Sending(prev: seq<byte>, command: seq<byte>, data: seq<byte>) {
    ghost predicate Valid() {
      |prev| == PREV_SIZE && |command| == HEADER_SIZE && PREV_SIZE + HEADER_SIZE <= |data| < 0x10000
    }

    ghost predicate RightVersion()
      requires Valid()
    {
      WordAt(command, 4) == PROTO_VER && WordAt(command, 6) == HEADER_SIGN
    }

    ghost function Bytes(): seq<byte>
      requires Valid()
    {
      Packet(prev, command, data)
    }
  }

  ghost function Sent(sendings: seq<Sending>): seq<seq<byte>>
    requires forall s | s in sendings :: s.Valid()
  {
    seq(|sendings|, i requires 0 <= i < |sendings| => sendings[i].Bytes())
  }

  /** A packet at the front of the stream is read whole exactly when it is not over PACKET_SIZE; a
      longer one stops the reading for good. */
  lemma PacketRead(s: Sending, t: seq<byte>)
    requires s.Valid()
    ensures |s.data| <= PACKET_SIZE ==>
              Frames(s.Bytes() + t) == [s.Bytes()] + Frames(t) && Rest(s.Bytes() + t) == Rest(t)
    ensures |s.data| > PACKET_SIZE ==> Frames(s.Bytes() + t) == [] && Broken(Rest(s.Bytes() + t))
  {
    PacketAccepted(s.prev, s.command, s.data);
    var p := s.Bytes();
    assert WordAt(p + t, 0) == WordAt(p, 0) == |p|;
    assert (p + t)[..|p|] == p && (p + t)[|p|..] == t;
  }

  /** Any number of packets, sent one after the other and received in any pieces, arrive as they
      were built, and pass processRequest's test if they carry the right version and sign. */
  lemma {:induction false} AllPacketsArrive(sendings: seq<Sending>)
    requires forall s | s in sendings :: s.Valid() && |s.data| <= PACKET_SIZE
    ensures Frames(Concat(Sent(sendings))) == Sent(sendings) && Rest(Concat(Sent(sendings))) == []
    ensures forall i | 0 <= i < |sendings| :: Accepted(Sent(sendings)[i]) <==> sendings[i].RightVersion()
  {
    if sendings != [] {
      var s := sendings[0];
      assert s in sendings;
      AllPacketsArrive(sendings[1..]);
      assert Sent(sendings)[1..] == Sent(sendings[1..]);
      PacketRead(s, Concat(Sent(sendings[1..])));
    }
    SentAccepted(sendings);
  }

  lemma SentAccepted(sendings: seq<Sending>)
    requires forall s | s in sendings :: s.Valid()
    ensures forall i | 0 <= i < |sendings| :: Accepted(Sent(sendings)[i]) <==> sendings[i].RightVersion()
  {
    forall i | 0 <= i < |sendings|
      ensures Accepted(Sent(sendings)[i]) <==> sendings[i].RightVersion()
    {
      assert sendings[i] in sendings;
      PacketAccepted(sendings[i].prev, sendings[i].command, sendings[i].data);
    }
  }
}
