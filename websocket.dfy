/**
 * NetworkServer::_ParseWebSocketFrame: decoding one client frame from the front of a
 * client's receive buffer (section 5.2 of RFC 6455, unmasking per section 5.3).
 */
module WebSocket {
  import opened Bytes
  import NetworkUtils

  /** A decoded frame. RSV bits are read past and not kept, as in the source. */
  datatype Frame = Frame(fin: bool, opcode: Byte, masked: bool, payload: seq<Byte>)

  /** What the decoder reports: 0 ("need more bytes") or a frame and the bytes it used. */
  datatype Parsed = Incomplete | Complete(frame: Frame, consumed: nat)

  /** Extra length bytes announced by the 7-bit length field (126: 16-bit, 127: 64-bit). */
  function ExtLenSize(len7: nat): nat
  {
    if len7 == 126 then 2 else if len7 == 127 then 8 else 0
  }

  /** payload[i] XOR key[i mod 4] for every i (section 5.3 of RFC 6455). */
  function Unmask(raw: seq<Byte>, key: seq<Byte>): seq<Byte>
    requires |key| == 4
  {
    seq(|raw|, i requires 0 <= i < |raw| => Xor(raw[i], key[i % 4]))
  }

  /** Masking is its own inverse: unmasking a masked payload with the same key restores it. */
  lemma UnmaskInvolutive(p: seq<Byte>, key: seq<Byte>)
    requires |key| == 4
    ensures Unmask(Unmask(p, key), key) == p
  {
    forall i | 0 <= i < |p|
      ensures Unmask(Unmask(p, key), key)[i] == p[i]
    {
      XorInvolutive(p[i], key[i % 4]);
    }
  }

  /** The header fields, once every header byte (length extension and mask key included) is present. */
  datatype FrameHeader = FrameHeader(fin: bool, opcode: Byte, masked: bool, payloadLen: nat, size: nat)

  /**
   * Reads the header at the front of buf: FIN and opcode from byte 0, MASK and the 7-bit
   * length from byte 1, then 2 or 8 big-endian length bytes, then a 4-byte key if masked.
   * None while the buffer is shorter than the header.
   */
  function ParseHeader(buf: seq<Byte>): Option<FrameHeader>
  {
    if |buf| < 2 then None
    else
      var len7 := buf[1] % 128;
      var ext := ExtLenSize(len7);
      var masked := buf[1] >= 128;
      var size := 2 + ext + (if masked then 4 else 0);
      if |buf| < size then None
      else
        var payloadLen := if ext == 0 then len7 else BeValue(buf[2..2 + ext]);
        Some(FrameHeader(buf[0] >= 128, buf[0] % 16, masked, payloadLen, size))
  }

  /** The frame at the front of buf, or Incomplete while any part of it is still missing. */
  function Decode(buf: seq<Byte>): Parsed
  {
    match ParseHeader(buf)
    case None => Incomplete
    case Some(h) =>
      if |buf| < h.size + h.payloadLen then Incomplete
      else
        var raw := buf[h.size..h.size + h.payloadLen];
        var payload := if h.masked then Unmask(raw, buf[h.size - 4..h.size]) else raw;
        Complete(Frame(h.fin, h.opcode, h.masked, payload), h.size + h.payloadLen)
  }

  /** A parsed header is 2, 4 or 10 bytes, plus 4 when masked, and lies inside the buffer. */
  lemma ParseHeaderSize(buf: seq<Byte>)
    requires ParseHeader(buf).Some?
    ensures var h := ParseHeader(buf).value;
      h.size <= |buf| &&
      h.size == (if buf[1] % 128 < 126 then 2 else if buf[1] % 128 == 126 then 4 else 10)
                + (if h.masked then 4 else 0)
  {
  }

  /**
   * A complete frame uses exactly its header and its payload, at least two bytes and never
   * more than the buffer holds.
   */
  lemma DecodeConsumed(buf: seq<Byte>)
    requires Decode(buf).Complete?
    ensures ParseHeader(buf).Some?
    ensures var r := Decode(buf);
      2 <= r.consumed <= |buf| &&
      r.consumed == ParseHeader(buf).value.size + |r.frame.payload|
  {
  }

  /** The unmasked payload byte i is the raw byte XOR mask byte i mod 4; unmasked payloads are copied. */
  lemma DecodePayloadAt(buf: seq<Byte>, i: nat)
    requires Decode(buf).Complete? && i < |Decode(buf).frame.payload|
    ensures var hs := ParseHeader(buf).value.size;
      var p := Decode(buf).frame.payload;
      if buf[1] >= 128 then p[i] == Xor(buf[hs + i], buf[hs - 4 + i % 4])
      else p[i] == buf[hs + i]
  {
  }

  /** Bytes after a complete header do not change how it parses. */
  lemma ParseHeaderExtend(buf: seq<Byte>, more: seq<Byte>)
    requires ParseHeader(buf).Some?
    ensures ParseHeader(buf + more) == ParseHeader(buf)
  {
    var ext := ExtLenSize(buf[1] % 128);
    assert (buf + more)[2..2 + ext] == buf[2..2 + ext];
  }

  /** Bytes after a complete frame do not change how it decodes. */
  lemma DecodeExtend(buf: seq<Byte>, more: seq<Byte>)
    requires Decode(buf).Complete?
    ensures Decode(buf + more) == Decode(buf)
  {
    var h := ParseHeader(buf).value;
    var b := buf + more;
    assert ParseHeader(b) == Some(h) by {
      ParseHeaderExtend(buf, more);
    }
    assert h.size + h.payloadLen <= |buf|;
    DecodeWith(buf, h);
    DecodeWith(b, h);
    SliceOfExtend(buf, more, h.size, h.size + h.payloadLen);
    if h.masked {
      SliceOfExtend(buf, more, h.size - 4, h.size);
    }
  }

  lemma SliceOfExtend(buf: seq<Byte>, more: seq<Byte>, i: nat, j: nat)
    requires i <= j <= |buf|
    ensures (buf + more)[i..j] == buf[i..j]
  {
  }

  /** Decoding with a parsed header h whose payload is all there. */
  lemma DecodeWith(buf: seq<Byte>, h: FrameHeader)
    requires ParseHeader(buf) == Some(h) && h.size + h.payloadLen <= |buf|
    ensures h.masked ==> 4 <= h.size
    ensures var raw := buf[h.size..h.size + h.payloadLen];
      Decode(buf) == Complete(Frame(h.fin, h.opcode, h.masked,
        if h.masked then Unmask(raw, buf[h.size - 4..h.size]) else raw), h.size + h.payloadLen)
  {
  }

  /** The header written by MakeWebSocketHeader parses back to FIN, the opcode, no mask and the length. */
  lemma ParseServerHeader(n: nat, opcode: Byte, tail: seq<Byte>)
    requires n < TWO_64
    ensures ParseHeader(NetworkUtils.Header(n, opcode) + tail)
         == Some(FrameHeader(true, opcode % 16, false, n, NetworkUtils.HeaderSize(n)))
  {
    var h := NetworkUtils.Header(n, opcode);
    var buf := h + tail;
    if 126 <= n < 65536 {
      assert buf[2..4] == h[2..4];
    } else if 65536 <= n {
      assert buf[2..10] == h[2..10];
    }
  }

  /** The server frame Header(n, op) followed by an n-byte payload decodes back to that payload. */
  lemma RoundTrip(opcode: Byte, payload: seq<Byte>, rest: seq<Byte>)
    requires |payload| < TWO_64
    ensures Decode(NetworkUtils.Header(|payload|, opcode) + payload + rest)
         == Complete(Frame(true, opcode % 16, false, payload),
                     NetworkUtils.HeaderSize(|payload|) + |payload|)
  {
    var n := |payload|;
    var h := NetworkUtils.Header(n, opcode);
    var buf := h + payload + rest;
    assert buf == h + (payload + rest);
    ParseServerHeader(n, opcode, payload + rest);
    assert buf[|h|..|h| + n] == payload;
  }

  /**
   * A client-to-server frame as section 5.3 of RFC 6455 has it: the server header with the
   * MASK bit set, the 4-byte key, and the payload XORed with the key.
   */
  function ClientFrame(opcode: Byte, key: seq<Byte>, payload: seq<Byte>): seq<Byte>
    requires |key| == 4 && |payload| < TWO_64
  {
    var h := NetworkUtils.Header(|payload|, opcode);
    [h[0], h[1] + 128] + h[2..] + key + Unmask(payload, key)
  }

  /** The header of a client frame parses to FIN, the opcode, the mask and the length. */
  lemma ParseClientHeader(opcode: Byte, key: seq<Byte>, n: nat, tail: seq<Byte>)
    requires |key| == 4 && n < TWO_64
    ensures var h := NetworkUtils.Header(n, opcode);
      ParseHeader([h[0], h[1] + 128] + h[2..] + key + tail)
        == Some(FrameHeader(true, opcode % 16, true, n, NetworkUtils.HeaderSize(n) + 4))
  {
    var h := NetworkUtils.Header(n, opcode);
    var buf := [h[0], h[1] + 128] + h[2..] + key + tail;
    if 126 <= n < 65536 {
      assert buf[2..4] == h[2..4];
    } else if 65536 <= n {
      assert buf[2..10] == h[2..10];
    }
  }

  /** The decoder recovers the payload a client masked, whatever the key. */
  lemma MaskedRoundTrip(opcode: Byte, key: seq<Byte>, payload: seq<Byte>, rest: seq<Byte>)
    requires |key| == 4 && |payload| < TWO_64
    ensures Decode(ClientFrame(opcode, key, payload) + rest)
         == Complete(Frame(true, opcode % 16, true, payload),
                     NetworkUtils.HeaderSize(|payload|) + 4 + |payload|)
  {
    var n := |payload|;
    var h := NetworkUtils.Header(n, opcode);
    var masked := Unmask(payload, key);
    var buf := ClientFrame(opcode, key, payload) + rest;
    var prefix := [h[0], h[1] + 128] + h[2..];
    assert buf == prefix + key + (masked + rest);
    ParseClientHeader(opcode, key, n, masked + rest);
    var e := |h| + 4;
    assert buf[e - 4..e] == key;
    assert buf[e..e + n] == masked;
    UnmaskInvolutive(payload, key);
  }

  /**
   * The header half of the decoder as the source runs it: FIN, opcode, MASK and the 7-bit
   * length, then the 16-bit length (ntohs) or the 64-bit length (a shift-and-or loop), then
   * the mask key; None wherever the source returns 0 for a short buffer.
   */
  method ReadFrameHeader(buf: seq<Byte>) returns (h: Option<FrameHeader>)
    ensures h == ParseHeader(buf)
  {
    if |buf| < 2 {
      return None;
    }
    var b1 := buf[0];
    var fin := b1 >= 128;          // b1 & 0x80
    var opcode := b1 % 16;         // b1 & 0x0F
    var b2 := buf[1];
    var masked := b2 >= 128;       // b2 & 0x80
    var payloadLen: nat := b2 % 128;  // b2 & 0x7F
    var headerSize := 2;
    if payloadLen == 126 {
      if |buf| < 4 {
        return None;
      }
      var high: nat := buf[2];
      payloadLen := high * 256 + buf[3];  // ntohs
      BeValuePair(buf[2..4]);
      headerSize := headerSize + 2;
    } else if payloadLen == 127 {
      if |buf| < 10 {
        return None;
      }
      payloadLen := 0;
      for i := 0 to 8
        invariant payloadLen == BeValue(buf[2..2 + i])
      {
        assert buf[2..2 + i + 1][..i] == buf[2..2 + i];
        payloadLen := payloadLen * 256 + buf[2 + i];  // (payloadLen << 8) | buffer[2 + i]
      }
      headerSize := headerSize + 8;
    }
    if masked {
      if |buf| < headerSize + 4 {
        return None;
      }
      headerSize := headerSize + 4;
    }
    return Some(FrameHeader(fin, opcode, masked, payloadLen, headerSize));
  }

  /** The unmask loop: payload[i] ^= maskKey[i % 4] over the whole payload, in place. */
  method UnmaskInPlace(payload: array<Byte>, maskKey: seq<Byte>)
    requires |maskKey| == 4
    modifies payload
    ensures payload[..] == Unmask(old(payload[..]), maskKey)
  {
    ghost var raw := payload[..];
    for i := 0 to payload.Length
      invariant forall k :: 0 <= k < i ==> payload[k] == Xor(raw[k], maskKey[k % 4])
      invariant forall k :: i <= k < payload.Length ==> payload[k] == raw[k]
    {
      payload[i] := Xor(payload[i], maskKey[i % 4]);
    }
  }

  /**
   * The decoder as the source runs it: the header, the completeness check, a copy of the
   * payload into a fresh array and the unmask loop.
   */
  method ParseWebSocketFrame(buf: seq<Byte>) returns (r: Parsed)
    ensures r == Decode(buf)
  {
    var header := ReadFrameHeader(buf);
    if header.None? {
      return Incomplete;
    }
    var h := header.value;
    if |buf| < h.size + h.payloadLen {
      return Incomplete;
    }
    var payload := new Byte[h.payloadLen];
    forall k | 0 <= k < h.payloadLen {  // memcpy
      payload[k] := buf[h.size + k];
    }
    assert payload[..] == buf[h.size..h.size + h.payloadLen];
    if h.masked {
      UnmaskInPlace(payload, buf[h.size - 4..h.size]);
    }
    r := Complete(Frame(h.fin, h.opcode, h.masked, payload[..]), h.size + h.payloadLen);
  }

  /**
   * What the drain loop in ProcessEvents does to a WebSocket client's buffer: decode and
   * remove frames from the front until nothing complete is left. Returns the frames in
   * order and the unconsumed tail.
   */
  function DrainFrames(buf: seq<Byte>): (seq<Frame>, seq<Byte>)
    decreases |buf|
  {
    match Decode(buf)
    case Incomplete => ([], buf)
    case Complete(f, c) =>
      DecodeConsumed(buf);
      var next := DrainFrames(buf[c..]);
      ([f] + next.0, next.1)
  }

  /**
   * The drain leaves a suffix of the buffer that holds no complete frame, and the buffer is
   * exactly the frames' bytes followed by that suffix.
   */
  lemma {:induction false} DrainFramesRest(buf: seq<Byte>)
    ensures var (_, rest) := DrainFrames(buf);
      |rest| <= |buf| && rest == buf[|buf| - |rest|..] && Decode(rest).Incomplete?
    decreases |buf|
  {
    match Decode(buf)
    case Incomplete =>
    case Complete(f, c) =>
      DecodeConsumed(buf);
      DrainFramesRest(buf[c..]);
      DrainFramesRestStep(buf, f, c);
  }

  /** The drain of a buffer that starts with a complete frame ends where the drain of its tail ends. */
  lemma DrainFramesRestStep(buf: seq<Byte>, f: Frame, c: nat)
    requires Decode(buf) == Complete(f, c)
    requires c <= |buf|
    requires var rest := DrainFrames(buf[c..]).1;
      |rest| <= |buf[c..]| && rest == buf[c..][|buf[c..]| - |rest|..] && Decode(rest).Incomplete?
    ensures var rest := DrainFrames(buf).1;
      |rest| <= |buf| && rest == buf[|buf| - |rest|..] && Decode(rest).Incomplete?
  {
    DrainFramesFront(buf, f, c);
    SuffixOfSuffix(buf, c, |DrainFrames(buf[c..]).1|);
  }

  lemma SuffixOfSuffix(buf: seq<Byte>, c: nat, k: nat)
    requires c + k <= |buf|
    ensures buf[c..][|buf| - c - k..] == buf[|buf| - k..]
  {
  }

  /** Each drained frame is the decoding of the buffer at the point where it was removed. */
  lemma {:induction false} DrainFramesFirst(buf: seq<Byte>)
    requires Decode(buf).Complete?
    ensures var (fs, _) := DrainFrames(buf);
      |fs| >= 1 && fs[0] == Decode(buf).frame &&
      fs[1..] == DrainFrames(buf[Decode(buf).consumed..]).0
  {
  }

  /**
   * One turn of the drain loop: when the frames removed so far followed by the drain of the
   * current buffer make up the drain of the starting buffer, removing one more complete
   * frame keeps that so.
   */
  lemma DrainFramesStep(start: seq<Byte>, done: seq<Frame>, buf: seq<Byte>, f: Frame, c: nat)
    requires Decode(buf) == Complete(f, c)
    requires DrainFrames(start) == (done + DrainFrames(buf).0, DrainFrames(buf).1)
    ensures c <= |buf|
    ensures DrainFrames(start) == ((done + [f]) + DrainFrames(buf[c..]).0, DrainFrames(buf[c..]).1)
  {
    DrainFramesFront(buf, f, c);
    SeqAssoc(done, [f], DrainFrames(buf[c..]).0);
  }

  /** A buffer that starts with a complete frame drains that frame, then the rest. */
  lemma DrainFramesFront(buf: seq<Byte>, f: Frame, c: nat)
    requires Decode(buf) == Complete(f, c)
    ensures c <= |buf|
    ensures DrainFrames(buf) == ([f] + DrainFrames(buf[c..]).0, DrainFrames(buf[c..]).1)
  {
    DecodeConsumed(buf);
  }

  // ---- Finding: the completeness check adds header and payload length in size_t ----

  /**
   * The check `bufferLen < headerSize + payloadLen` as written: the sum is a 64-bit size_t
   * and wraps, so a 64-bit length field near 2^64 passes the check with the payload absent.
   */
  function PayloadPresentAsWritten(bufferLen: nat, headerSize: nat, payloadLen: nat): bool
  {
    !(bufferLen < (headerSize + payloadLen) % TWO_64)
  }

  /**
   * The ten bytes 82 7F FF FF FF FF FF FF FF FF announce a payload of 2^64 - 1 bytes; the
   * wrapped sum is 9, so the check as written accepts the buffer and the allocation of
   * 2^64 - 1 bytes follows. The unbounded check in Decode reports Incomplete.
   */
  lemma WrappedLengthPassesCheck()
    ensures var buf: seq<Byte> := [0x82, 0x7F, 0xFF, 0xFF, 0xFF, 0xFF, 0xFF, 0xFF, 0xFF, 0xFF];
      var payloadLen := BeValue(buf[2..10]);
      payloadLen == TWO_64 - 1 &&
      PayloadPresentAsWritten(|buf|, 10, payloadLen) &&
      |buf| < 10 + payloadLen &&
      Decode(buf).Incomplete?
  {
    var buf: seq<Byte> := [0x82, 0x7F, 0xFF, 0xFF, 0xFF, 0xFF, 0xFF, 0xFF, 0xFF, 0xFF];
    assert buf[2..10] == seq(8, _ => 0xFF);
    BeValueAllOnes(8);
    assert Pow256(8) == TWO_64;
  }

  /** n bytes of 0xFF carry the largest n-byte value. */
  lemma {:induction false} BeValueAllOnes(n: nat)
    ensures BeValue(seq(n, _ => 0xFF)) == Pow256(n) - 1
  {
    if n > 0 {
      var s: seq<Byte> := seq(n, _ => 0xFF);
      assert s[..n - 1] == seq(n - 1, _ => 0xFF);
      BeValueAllOnes(n - 1);
    }
  }

  /**
   * The corrected check `bufferLen - headerSize < payloadLen`, computed in size_t: the
   * subtraction cannot wrap because the header lies inside the buffer.
   */
  function PayloadPresentCorrected(bufferLen: nat, headerSize: nat, payloadLen: nat): bool
  {
    !((bufferLen - headerSize) % TWO_64 < payloadLen)
  }

  /**
   * For every buffer that fits in memory and every header parsed from it, the corrected
   * size_t check passes exactly when Decode finds the frame complete.
   */
  lemma CorrectedCheckMatchesDecode(buf: seq<Byte>)
    requires |buf| < TWO_64 && ParseHeader(buf).Some?
    ensures var h := ParseHeader(buf).value;
      PayloadPresentCorrected(|buf|, h.size, h.payloadLen) <==> Decode(buf).Complete?
  {
    ParseHeaderSize(buf);
  }

  /** The corrected check rejects the frame that passes the check as written. */
  lemma CorrectedCheckRejectsWrappedFrame()
    ensures var buf: seq<Byte> := [0x82, 0x7F, 0xFF, 0xFF, 0xFF, 0xFF, 0xFF, 0xFF, 0xFF, 0xFF];
      ParseHeader(buf).Some? && ParseHeader(buf).value.size == 10 &&
      !PayloadPresentCorrected(|buf|, 10, ParseHeader(buf).value.payloadLen)
  {
    var buf: seq<Byte> := [0x82, 0x7F, 0xFF, 0xFF, 0xFF, 0xFF, 0xFF, 0xFF, 0xFF, 0xFF];
    WrappedLengthPassesCheck();
    ParseHeaderSize(buf);
    CorrectedCheckMatchesDecode(buf);
  }

  /** The corrected check never lets a frame claim bytes that are not in the buffer. */
  lemma DecodeNeverOverreads(buf: seq<Byte>)
    ensures Decode(buf).Complete? ==>
      ParseHeader(buf).Some? &&
      ParseHeader(buf).value.size + ParseHeader(buf).value.payloadLen <= |buf|
  {
    if Decode(buf).Complete? {
      DecodeConsumed(buf);
    }
  }
}
