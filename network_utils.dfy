/**
 * NetworkUtils::MakeWebSocketHeader: the header of a server-to-client WebSocket frame
 * (section 5.2 of RFC 6455). SHA1 and Base64Encode of the same class wrap OpenSSL and
 * appear only as parameters of the handshake model (module Http).
 */
module NetworkUtils {
  import opened Bytes

  /** Number of header bytes written for a payload of the given length. */
  function HeaderSize(payloadLen: nat): (n: nat)
    ensures n == 2 || n == 4 || n == 10
    ensures n == 2 <==> payloadLen < 126
    ensures n == 10 <==> payloadLen >= 65536
  {
    if payloadLen < 126 then 2 else if payloadLen < 65536 then 4 else 10
  }

  /**
   * The header bytes: FIN set, RSV1-3 clear, the opcode cut to 4 bits, the MASK bit clear,
   * then the 7-bit length, or 126 and a 16-bit length, or 127 and a 64-bit length.
   */
  function Header(payloadLen: nat, opcode: Byte): (h: seq<Byte>)
    requires payloadLen < TWO_64
    ensures |h| == HeaderSize(payloadLen)
    // byte 0: FIN bit set, the three RSV bits clear, low nibble = opcode & 0x0F
    ensures h[0] / 128 == 1 && (h[0] / 16) % 8 == 0 && h[0] % 16 == opcode % 16
    // byte 1: the MASK bit is never set on a server frame (section 5.1 of RFC 6455)
    ensures h[1] < 128
    ensures payloadLen < 126 ==> h[1] == payloadLen
    ensures 126 <= payloadLen < 65536 ==> h[1] == 126 && BeValue(h[2..4]) == payloadLen
    ensures 65536 <= payloadLen ==> h[1] == 127 && BeValue(h[2..10]) == payloadLen
  {
    var first := [0x80 + opcode % 16];
    if payloadLen < 126 then
      first + [payloadLen]
    else if payloadLen < 65536 then
      BeRoundTrip(payloadLen, 2);
      first + [126] + BeBytes(payloadLen, 2)
    else
      assert Pow256(8) == TWO_64;
      BeRoundTrip(payloadLen, 8);
      var h := first + [127] + BeBytes(payloadLen, 8);
      assert h[2..10] == BeBytes(payloadLen, 8);
      h
  }

  /**
   * Writes the header into frame[0..n) and returns n. The caller's buffer must hold the
   * header; the callers pass 16 bytes, and n is at most 10.
   */
  method MakeWebSocketHeader(payloadLen: nat, frame: array<Byte>, opcode: Byte) returns (n: nat)
    requires payloadLen < TWO_64
    requires HeaderSize(payloadLen) <= frame.Length
    modifies frame
    ensures n == HeaderSize(payloadLen)
    ensures frame[..n] == Header(payloadLen, opcode)
    ensures frame[n..] == old(frame[n..])
  {
    // 0x80 | (opcode & 0x0F): the low nibble never reaches bit 7, so the OR is a sum
    frame[0] := 0x80 + opcode % 16;
    if payloadLen < 126 {
      frame[1] := payloadLen;
      return 2;
    } else if payloadLen < 65536 {
      frame[1] := 126;
      // htons, then memcpy of the two bytes: high byte first
      frame[2] := payloadLen / 256;
      frame[3] := payloadLen % 256;
      BeBytesAt(payloadLen, 2, 0);
      BeBytesAt(payloadLen, 2, 1);
      return 4;
    } else {
      frame[1] := 127;
      ghost var be := BeBytes(payloadLen, 8);
      for i := 0 to 8
        invariant frame[0] == 0x80 + opcode % 16 && frame[1] == 127
        invariant forall k :: 0 <= k < i ==> frame[2 + k] == be[k]
        invariant frame[10..] == old(frame[10..])
      {
        // (len64 >> ((7 - i) * 8)) & 0xFF
        frame[2 + i] := (payloadLen / Pow256(7 - i)) % 256;
        BeBytesAt(payloadLen, 8, i);
      }
      assert frame[..10] == [0x80 + opcode % 16] + [127] + be;
      return 10;
    }
  }
}
