/**
 * PingPacketHandler: congestion control from the round-trip time the client reports, and
 * the pong, which echoes the serialized event back in a binary WebSocket frame.
 */
module Ping {
  import opened Bytes
  import NetworkUtils
  import WebSocket
  import Network

  const MIN_BITRATE: int := 500
  const MAX_BITRATE: int := 8000

  /** Integer division rounding toward zero, as a C cast of the quotient does. */
  function TruncDiv(a: int, b: int): (q: int)
    requires b > 0
    ensures a >= 0 ==> q == a / b
    ensures a < 0 ==> q == -((-a) / b)
  {
    if a >= 0 then a / b else -((-a) / b)
  }

  /**
   * The bitrate after a ping with round-trip time rtt >= 0: above 150 ms it backs off 20%
   * (not below 500), below 50 ms it grows 5% (not above 8000), and in between it stays.
   * The products prev * 0.8 and prev * 1.05 in double, cast to int32, are prev * 4 / 5 and
   * prev * 21 / 20 truncated toward zero.
   */
  function Adjust(prev: int, rtt: int): (r: int)
  {
    if rtt > 150 then
      var n := TruncDiv(prev * 4, 5);
      if n < MIN_BITRATE then MIN_BITRATE else n
    else if rtt < 50 then
      var n := TruncDiv(prev * 21, 20);
      if n > MAX_BITRATE then MAX_BITRATE else n
    else prev
  }

  /**
   * Within [500, 8000] an adjustment stays within [500, 8000]; backoff never raises the rate,
   * growth never lowers it, and the middle band keeps it.
   */
  lemma AdjustBounds(prev: int, rtt: int)
    requires MIN_BITRATE <= prev <= MAX_BITRATE
    ensures MIN_BITRATE <= Adjust(prev, rtt) <= MAX_BITRATE
    ensures rtt > 150 ==> Adjust(prev, rtt) <= prev
    ensures rtt < 50 ==> Adjust(prev, rtt) >= prev
    ensures 50 <= rtt <= 150 ==> Adjust(prev, rtt) == prev
  {
  }

  /** A long run of slow pings drives the rate down to the floor, and fast ones up to the cap. */
  lemma AdjustReachesLimits(prev: int, rtt: int)
    requires MIN_BITRATE <= prev <= MAX_BITRATE
    ensures rtt > 150 && prev <= 625 ==> Adjust(prev, rtt) == MIN_BITRATE
    ensures rtt < 50 && prev >= 7620 ==> Adjust(prev, rtt) == MAX_BITRATE
  {
  }

  /** The rate after a run of pings, each with its reported rtt; a negative rtt changes nothing. */
  function AfterPings(b: int, rtts: seq<int>): int
    decreases |rtts|
  {
    if rtts == [] then b
    else AfterPings(if rtts[0] >= 0 then Adjust(b, rtts[0]) else b, rtts[1..])
  }

  /** From the initial 2000 kbit/s the rate stays within [500, 8000] whatever the pings report. */
  lemma {:induction false} BitrateStaysInRange(b: int, rtts: seq<int>)
    requires MIN_BITRATE <= b <= MAX_BITRATE
    ensures MIN_BITRATE <= AfterPings(b, rtts) <= MAX_BITRATE
    decreases |rtts|
  {
    if rtts != [] {
      if rtts[0] >= 0 {
        AdjustBounds(b, rtts[0]);
      }
      BitrateStaysInRange(if rtts[0] >= 0 then Adjust(b, rtts[0]) else b, rtts[1..]);
    }
  }

  lemma InitialBitrateInRange(rtts: seq<int>)
    ensures MIN_BITRATE <= AfterPings(Network.INITIAL_BITRATE, rtts) <= MAX_BITRATE
  {
    BitrateStaysInRange(Network.INITIAL_BITRATE, rtts);
  }

  /**
   * The pong header: 0x82 (FIN, binary), then the 7-bit length, or 126 and the 16-bit
   * big-endian length; an event of 65536 bytes or more gets no pong at all.
   */
  function PongHeader(size: nat): (h: Option<seq<Byte>>)
  {
    if size < 126 then Some([0x82, size])
    else if size < 65536 then Some([0x82, 126, (size / 256) % 256, size % 256])
    else None
  }

  /** For every size it handles, the pong header is the one MakeWebSocketHeader writes for opcode 0x02. */
  lemma PongHeaderIsFrameHeader(size: nat)
    ensures PongHeader(size).Some? <==> size < 65536
    ensures size < 65536 ==> PongHeader(size) == Some(NetworkUtils.Header(size, 0x02))
  {
    if 126 <= size < 65536 {
      var h := NetworkUtils.Header(size, 0x02);
      BeValuePair(h[2..4]);
      assert h[2..4][0] == h[2] && h[2..4][1] == h[3];
      DivModUnique(size, 256, h[2], h[3]);
      assert h[0] == 0x82 && h[1] == 126;
      assert h == [h[0], h[1], h[2], h[3]];
      assert PongHeader(size).value == [0x82, 126, h[2], h[3]];
    } else if size < 126 {
      assert NetworkUtils.Header(size, 0x02) == [0x82, size];
    }
  }

  /** The writes SendToClient makes for the pong: header, then the event, to an accepted client. */
  function PongWrites(client: Network.ClientState, event: seq<Byte>): seq<(int, seq<Byte>)>
  {
    match PongHeader(|event|)
    case None => []
    case Some(h) => if client.sslAccepted then [(client.socket, h), (client.socket, event)] else []
  }

  /** The pong the client receives decodes as one final binary frame carrying the event. */
  lemma PongDecodes(client: Network.ClientState, event: seq<Byte>)
    requires |PongWrites(client, event)| == 2
    ensures var w := PongWrites(client, event);
      WebSocket.Decode(w[0].1 + w[1].1) ==
        WebSocket.Complete(WebSocket.Frame(true, 0x02, false, event), |w[0].1| + |event|)
  {
    PongHeaderIsFrameHeader(|event|);
    var h := NetworkUtils.Header(|event|, 0x02);
    WebSocket.RoundTrip(0x02, event, []);
    assert h + event + [] == h + event;
  }

  /**
   * Handle for one InputEvent. Without a ping sub-message nothing happens. With rtt >= 0 the
   * bitrate is adjusted and the application is told the new rate when it moved by more
   * than 50; then the serialized event is echoed back as the pong.
   */
  method Handle(server: Network.NetworkServer, client: Network.ClientState,
                hasPing: bool, rtt: int, event: seq<Byte>)
    modifies server`bitrate, server`signals, server`sent
    ensures !hasPing ==> unchanged(server`bitrate, server`signals, server`sent)
    ensures hasPing ==>
      var b := old(server.bitrate);
      var nb := if rtt >= 0 then Adjust(b, rtt) else b;
      server.bitrate == nb &&
      server.signals == old(server.signals) +
        (if rtt >= 0 && (nb - b > 50 || b - nb > 50) && server.targetValid
         then [Network.UpdateBitrate(nb)] else []) &&
      server.sent == old(server.sent) + PongWrites(client, event)
  {
    if !hasPing {
      return;
    }
    if rtt >= 0 {
      var oldBitrate := server.bitrate;
      var newBitrate := oldBitrate;
      if rtt > 150 {
        newBitrate := TruncDiv(oldBitrate * 4, 5);
        if newBitrate < MIN_BITRATE {
          newBitrate := MIN_BITRATE;
        }
      } else if rtt < 50 {
        newBitrate := TruncDiv(oldBitrate * 21, 20);
        if newBitrate > MAX_BITRATE {
          newBitrate := MAX_BITRATE;
        }
      }
      server.SetBitrate(newBitrate);
      var diff := newBitrate - oldBitrate;
      if (if diff < 0 then -diff else diff) > 50 {
        server.Notify(Network.UpdateBitrate(newBitrate));
      }
    }
    var size := |event|;
    var header: seq<Byte>;
    if size < 126 {
      header := [0x82, size];
    } else if size < 65536 {
      header := [0x82, 126, (size / 256) % 256, size % 256];
    } else {
      return;
    }
    server.SendToClient(client, header);
    server.SendToClient(client, event);
  }
}
