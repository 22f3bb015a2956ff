/**
 * The connection bookkeeping of NetworkServer: the client list with its per-client flags and
 * receive buffers, the WebSocket client count, the current bitrate, the CRLF CRLF gate in
 * front of the HTTP parser, the frame drain loop and the binary-frame filter in front of the
 * protobuf dispatcher. Sockets, TLS and select() are outside the model: every step below is
 * one event of ProcessEvents on one client, with the outcome of the TLS call as a parameter.
 */
module Network {
  import opened Bytes
  import WebSocket
  import Http
  import NetworkUtils

  /** SSL_read is asked for at most BUFFER_SIZE - 1 bytes. */
  const BUFFER_SIZE: nat := 4096

  /** The default bitrate in kbit/s set by the constructor. */
  const INITIAL_BITRATE: int := 2000

  /** One connected client: its socket, the upgrade and handshake flags, and its receive buffer. */
  datatype ClientState = ClientState(socket: int, isWebSocket: bool, sslAccepted: bool, buffer: seq<Byte>)

  /** Messages sent to the application (MSG_CLIENTS_CONNECTED, MSG_NO_CLIENTS, MSG_UPDATE_BITRATE). */
  datatype Signal = ClientsConnected | NoClients | UpdateBitrate(bitrate: int)

  /** What SSL_accept reports: done, needs another round (WANT_READ/WANT_WRITE), or failed. */
  datatype Handshake = Accepted | WantMore | Failed

  /** Number of upgraded clients in the list. */
  function CountWs(cs: seq<ClientState>): nat
  {
    if cs == [] then 0 else (if cs[0].isWebSocket then 1 else 0) + CountWs(cs[1..])
  }

  lemma {:induction false} CountWsAppend(a: seq<ClientState>, b: seq<ClientState>)
    ensures CountWs(a + b) == CountWs(a) + CountWs(b)
  {
    if a != [] {
      assert (a + b)[0] == a[0] && (a + b)[1..] == a[1..] + b;
      CountWsAppend(a[1..], b);
    } else {
      assert a + b == b;
    }
  }

  /** Removing client i lowers the count by one exactly when client i had upgraded. */
  lemma CountWsRemove(cs: seq<ClientState>, i: nat)
    requires i < |cs|
    ensures CountWs(cs[..i] + cs[i + 1..]) == CountWs(cs) - (if cs[i].isWebSocket then 1 else 0)
  {
    SplitAt(cs, i);
    CountWsSplit(cs, i, cs[i]);
    CountWsAppend(cs[..i], cs[i + 1..]);
  }

  /** The count over the two parts around index i with c between them. */
  lemma CountWsSplit(cs: seq<ClientState>, i: nat, c: ClientState)
    requires i < |cs|
    ensures CountWs(cs[..i] + ([c] + cs[i + 1..])) ==
      CountWs(cs[..i]) + (if c.isWebSocket then 1 else 0) + CountWs(cs[i + 1..])
  {
    CountWsAppend(cs[..i], [c] + cs[i + 1..]);
    CountWsAppend([c], cs[i + 1..]);
    assert [c][1..] == [];
  }

  /** A second update at the same index overwrites the first. */
  lemma UpdateOverwrite<T>(s: seq<T>, i: nat, a: T, b: T)
    requires i < |s|
    ensures s[i := a][i := b] == s[i := b]
  {
  }

  /** Replacing client i changes the count by the change of its upgrade flag. */
  lemma CountWsUpdate(cs: seq<ClientState>, i: nat, c: ClientState)
    requires i < |cs|
    ensures CountWs(cs[i := c]) == CountWs(cs) - (if cs[i].isWebSocket then 1 else 0) + (if c.isWebSocket then 1 else 0)
  {
    SplitAt(cs, i);
    UpdateSplit(cs, i, c);
    CountWsSplit(cs, i, cs[i]);
    CountWsSplit(cs, i, c);
  }

  // ---- The CRLF CRLF gate ----

  predicate TerminatorAt(buf: seq<Byte>, k: nat)
  {
    k + 4 <= |buf| && buf[k] == 0x0D && buf[k + 1] == 0x0A && buf[k + 2] == 0x0D && buf[k + 3] == 0x0A
  }

  /** The buffer holds a blank line "\r\n\r\n" somewhere: the request head is complete. */
  predicate HeaderComplete(buf: seq<Byte>)
  {
    exists k: nat :: k < |buf| && TerminatorAt(buf, k)
  }

  /** The search loop of ProcessEvents over k = 0 .. size - 4. */
  method HasHeaderTerminator(buf: seq<Byte>) returns (found: bool)
    ensures found <==> HeaderComplete(buf)
  {
    found := false;
    if |buf| >= 4 {
      var k := 0;
      while k <= |buf| - 4
        invariant 0 <= k <= |buf| - 3
        invariant forall j: nat :: j < k ==> !TerminatorAt(buf, j)
      {
        if buf[k] == 0x0D && buf[k + 1] == 0x0A && buf[k + 2] == 0x0D && buf[k + 3] == 0x0A {
          assert TerminatorAt(buf, k);
          found := true;
          break;
        }
        k := k + 1;
      }
    }
  }

  /** More bytes never hide a blank line already received. */
  lemma HeaderCompleteExtend(buf: seq<Byte>, more: seq<Byte>)
    requires HeaderComplete(buf)
    ensures HeaderComplete(buf + more)
  {
    var k: nat :| k < |buf| && TerminatorAt(buf, k);
    var b := buf + more;
    assert b[k] == buf[k] && b[k + 1] == buf[k + 1] && b[k + 2] == buf[k + 2] && b[k + 3] == buf[k + 3];
    assert TerminatorAt(b, k);
  }

  /** The request text handed to _ParseHTTP: the buffer bytes as characters. */
  function RequestText(buf: seq<Byte>): (s: string)
    ensures |s| == |buf| && forall i :: 0 <= i < |buf| ==> s[i] as int == buf[i]
  {
    seq(|buf|, i requires 0 <= i < |buf| => buf[i] as char)
  }

  /** The request bytes, read as text and written back, are the bytes received. */
  lemma RequestTextBytes(buf: seq<Byte>)
    ensures AsBytes(RequestText(buf)) == buf
  {
  }

  // ---- The binary-frame filter ----

  /** _HandleInputPacket sees only FIN frames and drops all but opcode 0x02 (binary). */
  predicate Dispatchable(f: WebSocket.Frame)
  {
    f.fin && f.opcode == 0x02
  }

  /** The payloads handed to the protobuf parser, in arrival order. */
  function BinaryPayloads(fs: seq<WebSocket.Frame>): (ps: seq<seq<Byte>>)
    ensures |ps| <= |fs|
  {
    if fs == [] then []
    else (if Dispatchable(fs[0]) then [fs[0].payload] else []) + BinaryPayloads(fs[1..])
  }

  lemma {:induction false} BinaryPayloadsAppend(a: seq<WebSocket.Frame>, b: seq<WebSocket.Frame>)
    ensures BinaryPayloads(a + b) == BinaryPayloads(a) + BinaryPayloads(b)
  {
    if a != [] {
      assert (a + b)[0] == a[0] && (a + b)[1..] == a[1..] + b;
      BinaryPayloadsAppend(a[1..], b);
    } else {
      assert a + b == b;
    }
  }

  /** A payload reaches the dispatcher only from a FIN binary frame, and every such frame's does. */
  lemma {:induction false} BinaryPayloadsExact(fs: seq<WebSocket.Frame>)
    ensures forall p :: p in BinaryPayloads(fs) <==> exists f :: f in fs && Dispatchable(f) && f.payload == p
  {
    if fs != [] {
      BinaryPayloadsExact(fs[1..]);
      assert forall f :: f in fs <==> f == fs[0] || f in fs[1..];
    }
  }

  /** One step of the drain loop adds the frame's payload exactly when it is a FIN binary frame. */
  lemma DispatchOne(before: seq<seq<Byte>>, done: seq<WebSocket.Frame>, f: WebSocket.Frame)
    ensures Dispatchable(f) ==> before + BinaryPayloads(done + [f]) == (before + BinaryPayloads(done)) + [f.payload]
    ensures !Dispatchable(f) ==> before + BinaryPayloads(done + [f]) == before + BinaryPayloads(done)
  {
    BinaryPayloadsAppend(done, [f]);
    assert [f][1..] == [];
  }

  // ---- Broadcast and the welcome frame ----

  /** What Broadcast writes: msg once to each upgraded, accepted client, in list order. */
  function Deliveries(cs: seq<ClientState>, msg: seq<Byte>): seq<(int, seq<Byte>)>
  {
    if cs == [] then []
    else (if cs[0].isWebSocket && cs[0].sslAccepted then [(cs[0].socket, msg)] else []) + Deliveries(cs[1..], msg)
  }

  /**
   * A broadcast writes at most one copy per client, every copy is the message itself, and
   * every copy goes to the socket of an upgraded, accepted client.
   */
  lemma {:induction false} DeliveriesCarryMessage(cs: seq<ClientState>, msg: seq<Byte>)
    ensures |Deliveries(cs, msg)| <= |cs|
    ensures forall e :: e in Deliveries(cs, msg) ==>
      e.1 == msg && exists c :: c in cs && c.socket == e.0 && c.isWebSocket && c.sslAccepted
  {
    if cs != [] {
      DeliveriesCarryMessage(cs[1..], msg);
      forall e | e in Deliveries(cs, msg)
        ensures e.1 == msg && exists c :: c in cs && c.socket == e.0 && c.isWebSocket && c.sslAccepted
      {
        var here := if cs[0].isWebSocket && cs[0].sslAccepted then [(cs[0].socket, msg)] else [];
        if e in here {
          assert cs[0] in cs;
        } else {
          assert e in Deliveries(cs[1..], msg);
          var c :| c in cs[1..] && c.socket == e.0 && c.isWebSocket && c.sslAccepted;
          assert c in cs;
        }
      }
    }
  }

  lemma {:induction false} DeliveriesAppend(a: seq<ClientState>, b: seq<ClientState>, msg: seq<Byte>)
    ensures Deliveries(a + b, msg) == Deliveries(a, msg) + Deliveries(b, msg)
  {
    if a != [] {
      assert (a + b)[0] == a[0] && (a + b)[1..] == a[1..] + b;
      DeliveriesAppend(a[1..], b, msg);
    } else {
      assert a + b == b;
    }
  }

  /**
   * When every upgraded client has finished its handshake, a broadcast reaches exactly the
   * upgraded clients: one copy each, as many copies as the count.
   */
  lemma {:induction false} DeliveriesReachUpgraded(cs: seq<ClientState>, msg: seq<Byte>)
    requires forall i :: 0 <= i < |cs| && cs[i].isWebSocket ==> cs[i].sslAccepted
    ensures |Deliveries(cs, msg)| == CountWs(cs)
  {
    if cs != [] {
      assert cs[0].isWebSocket ==> cs[0].sslAccepted;
      assert forall i :: 0 <= i < |cs[1..]| ==> cs[1..][i] == cs[i + 1];
      DeliveriesReachUpgraded(cs[1..], msg);
    }
  }

  /**
   * The welcome message as _ParseHTTP writes it: a text-frame header (opcode 0x01) and then
   * the message, in two writes; nothing when no message is set.
   */
  function WelcomeFrame(socket: int, welcome: seq<Byte>): (d: seq<(int, seq<Byte>)>)
    requires |welcome| < TWO_64
    ensures |welcome| == 0 <==> d == []
    ensures |welcome| > 0 ==> (|d| == 2 && d[0].0 == d[1].0 == socket &&
      WebSocket.Decode(d[0].1 + d[1].1) == WebSocket.Complete(WebSocket.Frame(true, 0x01, false, welcome), |d[0].1| + |welcome|))
  {
    if |welcome| == 0 then []
    else
      WebSocket.RoundTrip(0x01, welcome, []);
      assert NetworkUtils.Header(|welcome|, 0x01) + welcome + [] == NetworkUtils.Header(|welcome|, 0x01) + welcome;
      [(socket, NetworkUtils.Header(|welcome|, 0x01)), (socket, welcome)]
  }

  class NetworkServer {
    var clients: seq<ClientState>
    var wsCount: int
    var bitrate: int
    var inputPort: int
    /** Whether fTarget names a live messenger; the default-constructed one does not. */
    var targetValid: bool
    /** Messages sent to the application target, oldest first. */
    var signals: seq<Signal>
    /**
     * Payloads of the frames passed on to _HandleInputPacket (parse and handler), oldest
     * first; the handlers' own effects are not applied here.
     */
    var dispatched: seq<seq<Byte>>
    /** Bytes written to clients (HTTP replies, frames, pongs): (socket, bytes), oldest first. */
    var sent: seq<(int, seq<Byte>)>
    /** The welcome message (the encoder configuration) sent to each newly upgraded client. */
    var welcome: seq<Byte>

    /** The count is the number of upgraded clients, and only clients past the TLS handshake upgrade. */
    ghost predicate Valid()
      reads this
    {
      wsCount == CountWs(clients) && |welcome| < TWO_64 &&
      forall i :: 0 <= i < |clients| && clients[i].isWebSocket ==> clients[i].sslAccepted
    }

    constructor(inputPort: int)
      ensures Valid()
      ensures clients == [] && wsCount == 0 && bitrate == INITIAL_BITRATE && this.inputPort == inputPort
      ensures !targetValid && signals == [] && dispatched == [] && sent == [] && welcome == []
    {
      targetValid := false;
      clients := [];
      wsCount := 0;
      bitrate := INITIAL_BITRATE;
      this.inputPort := inputPort;
      signals := [];
      dispatched := [];
      sent := [];
      welcome := [];
    }

    /** _HandleNewConnection after a successful accept: a new client waiting for its handshake. */
    method AddClient(socket: int)
      requires Valid()
      modifies this
      ensures Valid()
      ensures clients == old(clients) + [ClientState(socket, false, false, [])]
      ensures wsCount == old(wsCount) && unchanged(this`targetValid, this`signals, this`dispatched, this`sent, this`bitrate, this`welcome)
    {
      CountWsAppend(clients, [ClientState(socket, false, false, [])]);
      clients := clients + [ClientState(socket, false, false, [])];
    }

    /**
     * One SSL_accept round for a client still in its handshake: success marks it accepted,
     * WANT_READ/WANT_WRITE keeps it, any other error removes it.
     */
    method HandshakeStep(i: nat, result: Handshake)
      requires Valid() && i < |clients| && !clients[i].sslAccepted
      modifies this
      ensures Valid()
      ensures result == Accepted ==> clients == old(clients)[i := old(clients)[i].(sslAccepted := true)]
      ensures result == WantMore ==> clients == old(clients)
      ensures result == Failed ==> clients == old(clients)[..i] + old(clients)[i + 1..]
      ensures wsCount == old(wsCount) && unchanged(this`targetValid, this`signals, this`dispatched, this`sent, this`bitrate, this`welcome)
    {
      match result {
        case Accepted =>
          CountWsUpdate(clients, i, clients[i].(sslAccepted := true));
          clients := clients[i := clients[i].(sslAccepted := true)];
        case WantMore =>
        case Failed =>
          // a client in its handshake has not upgraded, so the count stays
          CountWsRemove(clients, i);
          clients := clients[..i] + clients[i + 1..];
      }
    }

    /**
     * SSL_read failed for good: the client is removed; an upgraded client lowers the count,
     * and the application hears MSG_NO_CLIENTS when the count reaches zero.
     */
    method Disconnect(i: nat)
      requires Valid() && i < |clients|
      modifies this
      ensures Valid()
      ensures clients == old(clients)[..i] + old(clients)[i + 1..]
      ensures wsCount == old(wsCount) - (if old(clients[i].isWebSocket) then 1 else 0)
      ensures signals == old(signals) +
        (if old(clients[i].isWebSocket) && wsCount == 0 && targetValid then [NoClients] else [])
      ensures unchanged(this`targetValid, this`dispatched, this`sent, this`bitrate, this`welcome)
    {
      var client := clients[i];
      CountWsRemove(clients, i);
      if client.isWebSocket {
        wsCount := wsCount - 1;
        if wsCount == 0 && targetValid {
          signals := signals + [NoClients];
        }
      }
      clients := clients[..i] + clients[i + 1..];
    }

    /**
     * The drain loop of ProcessEvents for an upgraded client: decode frames from the front of
     * its buffer, pass FIN binary frames on, erase what each frame used, and stop when no
     * complete frame is left or the buffer is empty.
     */
    method DrainClient(i: nat)
      requires Valid() && i < |clients|
      modifies this`clients, this`dispatched
      ensures Valid()
      ensures var (frames, rest) := WebSocket.DrainFrames(old(clients[i].buffer));
        clients == old(clients)[i := old(clients[i]).(buffer := rest)] &&
        dispatched == old(dispatched) + BinaryPayloads(frames)
    {
      var buf := DrainBuffer(clients[i].buffer);
      CountWsUpdate(clients, i, clients[i].(buffer := buf));
      clients := clients[i := clients[i].(buffer := buf)];
    }

    /**
     * The _ParseWebSocketFrame loop on a client's buffer, kept in a local while frames are
     * erased from its front: every complete frame is parsed and the final binary ones are
     * dispatched; what is left is returned.
     */
    method DrainBuffer(start: seq<Byte>) returns (buf: seq<Byte>)
      modifies this`dispatched
      ensures buf == WebSocket.DrainFrames(start).1
      ensures dispatched == old(dispatched) + BinaryPayloads(WebSocket.DrainFrames(start).0)
    {
      buf := start;
      ghost var done: seq<WebSocket.Frame> := [];
      assert [] + WebSocket.DrainFrames(buf).0 == WebSocket.DrainFrames(buf).0;
      while true
        invariant WebSocket.DrainFrames(start) == (done + WebSocket.DrainFrames(buf).0, WebSocket.DrainFrames(buf).1)
        invariant dispatched == old(dispatched) + BinaryPayloads(done)
        decreases |buf|
      {
        var r := WebSocket.ParseWebSocketFrame(buf);
        if r.Incomplete? {
          assert WebSocket.DrainFrames(buf) == ([], buf);
          break;
        }
        WebSocket.DrainFramesStep(start, done, buf, r.frame, r.consumed);
        DispatchOne(old(dispatched), done, r.frame);
        if r.frame.fin && r.frame.opcode == 0x02 {
          dispatched := dispatched + [r.frame.payload];
        }
        done := done + [r.frame];
        // the erase is guarded by consumed <= size, which always holds
        buf := buf[r.consumed..];
        if |buf| == 0 {
          assert WebSocket.Decode([]) == WebSocket.Incomplete;
          assert WebSocket.DrainFrames(buf) == ([], buf);
          break;
        }
      }
      assert done + [] == done;
    }

    /**
     * The state changes of _ParseHTTP on a complete request head. A WebSocket upgrade writes
     * the 101 response, marks the client, counts it, sends it the welcome message as a text
     * frame when one is set and signals MSG_CLIENTS_CONNECTED to a valid target, and the
     * connection stays open. A 404 writes the not-found reply; a served file is written from
     * the file system. Both of those ask for the connection to be closed.
     */
    method ParseHttpClient(i: nat, available: set<string>,
                           sha1: string -> seq<Byte>, base64: seq<Byte> -> string)
      returns (o: Http.Outcome, closeConn: bool)
      requires Valid() && i < |clients| && clients[i].sslAccepted && !clients[i].isWebSocket
      modifies this
      ensures Valid()
      ensures o == Http.Route(Http.ScanLines(Http.Lines(RequestText(old(clients[i].buffer)))), available)
      ensures closeConn <==> !o.Upgrade?
      ensures o.Upgrade? ==>
        var socket := old(clients[i]).socket;
        clients == old(clients)[i := old(clients[i]).(isWebSocket := true)] &&
        wsCount == old(wsCount) + 1 &&
        signals == old(signals) + (if targetValid then [ClientsConnected] else []) &&
        sent == old(sent) + [(socket, AsBytes(Http.UpgradeResponse(o.key, sha1, base64)))] +
          WelcomeFrame(socket, welcome)
      ensures !o.Upgrade? ==>
        clients == old(clients) && wsCount == old(wsCount) && signals == old(signals) &&
        sent == old(sent) + (if o.NotFound? then [(old(clients[i]).socket, AsBytes(Http.NotFoundReply))] else [])
      ensures unchanged(this`targetValid, this`dispatched, this`bitrate, this`welcome)
    {
      var client := clients[i];
      o, closeConn := Http.ParseHttp(RequestText(client.buffer), available);
      if o.Upgrade? {
        sent := sent + [(client.socket, AsBytes(Http.UpgradeResponse(o.key, sha1, base64)))];
        CountWsUpdate(clients, i, client.(isWebSocket := true));
        clients := clients[i := client.(isWebSocket := true)];
        wsCount := wsCount + 1;
        sent := sent + WelcomeFrame(client.socket, welcome);
        if targetValid {
          signals := signals + [ClientsConnected];
        }
      } else if o.NotFound? {
        sent := sent + [(client.socket, AsBytes(Http.NotFoundReply))];
      }
    }

    /** client->buffer.clear() on the client at index i. */
    method ClearBuffer(i: nat)
      requires Valid() && i < |clients|
      modifies this`clients
      ensures Valid()
      ensures clients == old(clients)[i := old(clients[i]).(buffer := [])]
    {
      CountWsUpdate(clients, i, clients[i].(buffer := []));
      clients := clients[i := clients[i].(buffer := [])];
    }

    /** fClients.RemoveItem(i) after the connection is shut down and closed. */
    method RemoveClient(i: nat)
      requires Valid() && i < |clients| && !clients[i].isWebSocket
      modifies this`clients
      ensures Valid()
      ensures clients == old(clients)[..i] + old(clients)[i + 1..]
    {
      CountWsRemove(clients, i);
      clients := clients[..i] + clients[i + 1..];
    }

    /**
     * One successful SSL_read of data for an accepted client. The bytes are appended to its
     * buffer. A client that has not upgraded is answered once its buffer holds a blank line:
     * after an upgrade its buffer is cleared, after any other outcome it is closed and
     * removed. An upgraded client drains its frames.
     */
    method Receive(i: nat, data: seq<Byte>, available: set<string>,
                   sha1: string -> seq<Byte>, base64: seq<Byte> -> string)
      returns (outcome: Option<Http.Outcome>)
      requires Valid() && i < |clients| && clients[i].sslAccepted
      requires 0 < |data| < BUFFER_SIZE
      modifies this
      ensures Valid()
      ensures unchanged(this`targetValid, this`bitrate, this`welcome)
      ensures var c := old(clients[i]);
        var buf := c.buffer + data;
        c.isWebSocket ==>
          var (frames, rest) := WebSocket.DrainFrames(buf);
          outcome == None &&
          clients == old(clients)[i := c.(buffer := rest)] &&
          dispatched == old(dispatched) + BinaryPayloads(frames) &&
          wsCount == old(wsCount) && signals == old(signals) && sent == old(sent)
      ensures var c := old(clients[i]);
        var buf := c.buffer + data;
        !c.isWebSocket && !HeaderComplete(buf) ==>
          outcome == None && clients == old(clients)[i := c.(buffer := buf)] &&
          dispatched == old(dispatched) && wsCount == old(wsCount) &&
          signals == old(signals) && sent == old(sent)
      ensures var c := old(clients[i]);
        var buf := c.buffer + data;
        !c.isWebSocket && HeaderComplete(buf) ==>
          outcome == Some(Http.Route(Http.ScanLines(Http.Lines(RequestText(buf))), available)) &&
          dispatched == old(dispatched)
      ensures var c := old(clients[i]);
        outcome.Some? && outcome.value.Upgrade? ==>
          clients == old(clients)[i := c.(isWebSocket := true, buffer := [])] &&
          wsCount == old(wsCount) + 1 &&
          signals == old(signals) + (if targetValid then [ClientsConnected] else []) &&
          sent == old(sent) + [(c.socket, AsBytes(Http.UpgradeResponse(outcome.value.key, sha1, base64)))] +
            WelcomeFrame(c.socket, welcome)
      ensures var c := old(clients[i]);
        outcome.Some? && !outcome.value.Upgrade? ==>
          clients == old(clients)[..i] + old(clients)[i + 1..] &&
          wsCount == old(wsCount) && signals == old(signals) &&
          sent == old(sent) + (if outcome.value.NotFound? then [(c.socket, AsBytes(Http.NotFoundReply))] else [])
    {
      var client := clients[i];
      var buffer := client.buffer + data;
      CountWsUpdate(clients, i, client.(buffer := buffer));
      clients := clients[i := client.(buffer := buffer)];
      outcome := None;
      var closeConn := false;
      if !client.isWebSocket {
        var headerFound := HasHeaderTerminator(buffer);
        if headerFound {
          var o;
          o, closeConn := ParseHttpClient(i, available, sha1, base64);
          outcome := Some(o);
          if !closeConn {
            ClearBuffer(i);
            UpdateOverwrite(old(clients), i, client.(buffer := buffer), client.(isWebSocket := true, buffer := buffer));
            UpdateOverwrite(old(clients), i, client.(isWebSocket := true, buffer := buffer), client.(isWebSocket := true, buffer := []));
          }
        }
      } else {
        DrainClient(i);
      }
      if closeConn {
        RemoveClient(i);
      }
    }

    /**
     * Broadcast: header and data, joined, go to every client that has upgraded and finished
     * its TLS handshake, in list order.
     */
    method Broadcast(header: seq<Byte>, data: seq<Byte>)
      modifies this`sent
      ensures sent == old(sent) + Deliveries(clients, header + data)
    {
      var msg := header + data;
      for k := 0 to |clients|
        invariant sent == old(sent) + Deliveries(clients[..k], msg)
      {
        DeliveriesAppend(clients[..k], [clients[k]], msg);
        assert clients[..k + 1] == clients[..k] + [clients[k]];
        if clients[k].isWebSocket && clients[k].sslAccepted {
          sent := sent + [(clients[k].socket, msg)];
        }
      }
      assert clients[..|clients|] == clients;
    }

    /** SetWelcomeMessage: the text sent to each client right after its upgrade. */
    method SetWelcomeMessage(msg: seq<Byte>)
      requires Valid() && |msg| < TWO_64
      modifies this`welcome
      ensures Valid() && welcome == msg
    {
      welcome := msg;
    }

    /** Stop: every client is dropped and the count is reset. */
    method Stop()
      requires Valid()
      modifies this
      ensures Valid()
      ensures clients == [] && wsCount == 0
      ensures unchanged(this`targetValid, this`signals, this`dispatched, this`sent, this`bitrate, this`welcome)
    {
      clients := [];
      wsCount := 0;
    }

    /** SendToClient: bytes reach only a client that finished its TLS handshake. */
    method SendToClient(c: ClientState, data: seq<Byte>)
      modifies this`sent
      ensures sent == old(sent) + (if c.sslAccepted then [(c.socket, data)] else [])
    {
      if c.sslAccepted {
        sent := sent + [(c.socket, data)];
      }
    }

    /** GetBitrate / SetBitrate. */
    method SetBitrate(kbps: int)
      modifies this`bitrate
      ensures bitrate == kbps
    {
      bitrate := kbps;
    }

    /** SetTarget: the application the server reports to; false stands for an invalid messenger. */
    method SetTarget(valid: bool)
      modifies this`targetValid
      ensures targetValid == valid
    {
      targetValid := valid;
    }

    /** SendMessageToTarget: a message reaches the application only through a valid target. */
    method Notify(s: Signal)
      modifies this`signals
      ensures signals == old(signals) + (if targetValid then [s] else [])
    {
      if targetValid {
        signals := signals + [s];
      }
    }
  }

  /** The count and the list agree after any number of connects, upgrades and disconnects. */
  lemma NoClientsExactlyAtZero(cs: seq<ClientState>, i: nat)
    requires i < |cs| && cs[i].isWebSocket
    ensures CountWs(cs[..i] + cs[i + 1..]) == 0 <==> CountWs(cs) == 1
  {
    CountWsRemove(cs, i);
  }
}
