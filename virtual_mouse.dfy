/**
 * The virtual input-server device: the packet the server writes to its port, and what one
 * full-size packet does to the device. A mouse packet turns each changed button bit into a
 * press or release message and counts multi-clicks; a key packet becomes a key message with
 * the Ctrl-letter mapping and the UTF-8 bytes of its character. Start and Stop share a
 * reference count that creates the port and thread on the first Start and tears them down
 * on the last Stop.
 */
module VirtualInput {
  import opened Bytes

  /** A C++ `uint32`. */
  type U32 = x: int | 0 <= x < 0x1_0000_0000

  const PACKET_MOUSE: int := 1
  const PACKET_KEY: int := 2
  /** sizeof(input_packet): the int32 type and the 20-byte mouse member of the union. */
  const PACKET_SIZE: int := 24
  const B_OK: int := 0
  /** The Ctrl bit of the Haiku modifier mask. */
  const B_CONTROL_KEY: bv32 := 0x04

  /** input_packet: the type field and the union member it selects. */
  datatype Packet =
    | MousePacket(buttons: bv32)
    | KeyPacket(keyCode: U32, down: bool, modifiers: bv32, utf32: U32)
    | OtherPacket(kind: int)

  /** The type field: PACKET_MOUSE, PACKET_KEY, or whatever else was written. */
  function Kind(p: Packet): int
  {
    match p
    case MousePacket(_) => PACKET_MOUSE
    case KeyPacket(_, _, _, _) => PACKET_KEY
    case OtherPacket(k) => k
  }

  /** An OtherPacket stands for a type field that is neither PACKET_MOUSE nor PACKET_KEY. */
  predicate WellFormed(p: Packet)
  {
    p.OtherPacket? ==> p.kind != PACKET_MOUSE && p.kind != PACKET_KEY
  }

  /** For a well-formed packet the type field selects exactly the union member it names. */
  lemma KindSelectsMember(p: Packet)
    requires WellFormed(p)
    ensures Kind(p) == PACKET_MOUSE <==> p.MousePacket?
    ensures Kind(p) == PACKET_KEY <==> p.KeyPacket?
  {
  }

  /** The messages the device enqueues (positions and times as far as they are integers). */
  datatype Message =
    | MouseDown(when: int, buttons: bv32, clicks: int)
    | MouseUp(when: int, buttons: bv32)
    | KeyMessage(down: bool, when: int, key: U32, modifiers: bv32, bytes: seq<Byte>, rawChar: U32, byte: Option<int>)

  // ---- Button transitions ----

  /** Bit i of a button mask, tested as `x & (1 << i)`. */
  predicate Bit(x: bv32, i: bv32)
    requires i < 32
  {
    x & (1 << i) != 0
  }

  /** A bit of the XOR of two masks is set exactly when the masks differ in that bit. */
  lemma BitXor(a: bv32, b: bv32, i: bv32)
    requires i < 32
    ensures Bit(a ^ b, i) <==> Bit(a, i) != Bit(b, i)
  {
  }

  /** Masks whose XOR is zero are equal. */
  lemma BitsEqual(a: bv32, b: bv32)
    requires a ^ b == 0
    ensures a == b
  {
  }

  /**
   * The click tracking fields: the last pressed button (the int32 fLastClickBtn as its 32-bit
   * pattern, so the initial -1 is 0xFFFFFFFF and equals no bit index), the time of that
   * press, and the count.
   */
  datatype Clicks = Clicks(btn: bv32, time: int, count: int)

  /** A press of button i at time now: same button within the click speed counts on, otherwise 1. */
  function Press(c: Clicks, i: bv32, now: int, speed: int): (r: Clicks)
    ensures r.btn == i && r.time == now
    ensures r.count == (if i == c.btn && now - c.time < speed then c.count + 1 else 1)
  {
    if i == c.btn && now - c.time < speed then Clicks(i, now, c.count + 1) else Clicks(i, now, 1)
  }

  /**
   * One turn of the bit loop: a changed bit i gives a press (counted by Press) when it is
   * set in the new mask and a release when it is clear; an unchanged bit gives nothing.
   */
  function Step(buttons: bv32, changes: bv32, i: bv32, ev: seq<Message>, c: Clicks, now: int, speed: int): (seq<Message>, Clicks)
    requires i < 32
  {
    if !Bit(changes, i) then (ev, c)
    else if Bit(buttons, i) then
      var c2 := Press(c, i, now, speed);
      (ev + [MouseDown(now, buttons, c2.count)], c2)
    else (ev + [MouseUp(now, buttons)], c)
  }

  /** The messages for bits 0 .. i-1 of the changed mask, in bit order, and the click fields afterwards. */
  function Transitions(buttons: bv32, changes: bv32, i: bv32, c: Clicks, now: int, speed: int): (r: (seq<Message>, Clicks))
    requires i <= 32
    decreases i
  {
    if i == 0 then ([], c)
    else
      var prev := Transitions(buttons, changes, i - 1, c, now, speed);
      Step(buttons, changes, i - 1, prev.0, prev.1, now, speed)
  }

  lemma TransitionsNext(buttons: bv32, changes: bv32, i: bv32, c: Clicks, now: int, speed: int)
    requires i < 32
    ensures var prev := Transitions(buttons, changes, i, c, now, speed);
      Transitions(buttons, changes, i + 1, c, now, speed) == Step(buttons, changes, i, prev.0, prev.1, now, speed)
  {
    assert (i + 1) - 1 == i;
  }

  /** The changed bits below i, in increasing order. */
  function ChangedBits(changes: bv32, i: bv32): (bs: seq<bv32>)
    requires i <= 32
    ensures forall k :: 0 <= k < |bs| ==> bs[k] < i
    decreases i
  {
    if i == 0 then []
    else ChangedBits(changes, i - 1) + (if Bit(changes, i - 1) then [i - 1] else [])
  }

  /**
   * One message per changed bit, in bit order: the k-th message is a press exactly when the
   * k-th changed bit is set in the new mask; only presses carry a click count, and from a
   * count that is not negative (the constructor starts at 0) that count is at least 1.
   */
  lemma {:induction false} TransitionsPerBit(buttons: bv32, changes: bv32, i: bv32, c: Clicks, now: int, speed: int)
    requires i <= 32 && c.count >= 0
    ensures Transitions(buttons, changes, i, c, now, speed).1.count >= 0
    ensures PerBit(buttons, changes, Transitions(buttons, changes, i, c, now, speed).0, ChangedBits(changes, i))
    decreases i
  {
    if i > 0 {
      var j := i - 1;
      TransitionsPerBit(buttons, changes, j, c, now, speed);
      var prev := Transitions(buttons, changes, j, c, now, speed);
      assert Transitions(buttons, changes, i, c, now, speed) == Step(buttons, changes, j, prev.0, prev.1, now, speed);
      assert ChangedBits(changes, i) == ChangedBits(changes, j) + (if Bit(changes, j) then [j] else []);
      if Bit(changes, j) {
        var m := Step(buttons, changes, j, prev.0, prev.1, now, speed).0[|prev.0|];
        assert Step(buttons, changes, j, prev.0, prev.1, now, speed).0 == prev.0 + [m];
        PerBitAppend(buttons, changes, prev.0, ChangedBits(changes, j), m, j);
      }
    }
  }

  /**
   * The k-th message answers the k-th changed bit: a press exactly when that bit is set in the
   * new mask, a release otherwise, and a press carries a count of at least 1.
   */
  predicate PerBit(buttons: bv32, changes: bv32, ev: seq<Message>, bs: seq<bv32>)
  {
    |ev| == |bs| && forall k :: 0 <= k < |ev| ==> Answers(buttons, changes, ev[k], bs[k])
  }

  /**
   * Message m answers changed bit b: a press exactly when b is set in the new mask, counting
   * at least 1, else a release; either way it carries the new mask.
   */
  predicate Answers(buttons: bv32, changes: bv32, m: Message, b: bv32)
  {
    b < 32 && Bit(changes, b) && (m.MouseDown? <==> Bit(buttons, b)) &&
    (m.MouseDown? || m.MouseUp?) && m.buttons == buttons && (m.MouseDown? ==> m.clicks >= 1)
  }

  lemma PerBitAppend(buttons: bv32, changes: bv32, ev: seq<Message>, bs: seq<bv32>, m: Message, b: bv32)
    requires PerBit(buttons, changes, ev, bs) && Answers(buttons, changes, m, b)
    ensures PerBit(buttons, changes, ev + [m], bs + [b])
  {
    var ev', bs' := ev + [m], bs + [b];
    forall k | 0 <= k < |ev'|
      ensures Answers(buttons, changes, ev'[k], bs'[k])
    {
      if k < |ev| {
        assert ev'[k] == ev[k] && bs'[k] == bs[k];
      } else {
        assert ev'[k] == m && bs'[k] == b;
      }
    }
  }

  /** Unchanged masks give no messages and leave the click fields alone. */
  lemma {:induction false} NoChangeNoMessages(buttons: bv32, i: bv32, c: Clicks, now: int, speed: int)
    requires i <= 32
    ensures Transitions(buttons, 0, i, c, now, speed) == ([], c)
    decreases i
  {
    if i > 0 {
      NoChangeNoMessages(buttons, i - 1, c, now, speed);
    }
  }

  /** Some message of ev is a press. */
  predicate HasPress(ev: seq<Message>)
  {
    exists j :: 0 <= j < |ev| && ev[j].MouseDown?
  }

  /** Every press after the first one in ev has a count of 1. */
  predicate LaterSingle(ev: seq<Message>)
  {
    forall j, k :: 0 <= j < k < |ev| && ev[j].MouseDown? && ev[k].MouseDown? ==> ev[k].clicks == 1
  }

  /** A packet whose mask equals the last one: the same mask, no messages, and the click fields kept. */
  lemma SameMask(buttons: bv32, last: bv32, c: Clicks, now: int, speed: int)
    requires buttons ^ last == 0
    ensures buttons == last && Transitions(buttons, buttons ^ last, 32, c, now, speed) == ([], c)
  {
    BitsEqual(buttons, last);
    NoChangeNoMessages(buttons, 32, c, now, speed);
  }

  /**
   * Within one packet only the first press can continue a multi-click: every later press is
   * on a higher bit than the one pressed before it, so its count starts again at 1. The
   * click fields move only when some bit was pressed, and then to a bit below i.
   */
  lemma {:induction false} LaterPressesSingle(buttons: bv32, changes: bv32, i: bv32, c: Clicks, now: int, speed: int)
    requires i <= 32
    ensures var r := Transitions(buttons, changes, i, c, now, speed);
      LaterSingle(r.0) && (HasPress(r.0) ==> r.1.btn < i) && (!HasPress(r.0) ==> r.1 == c)
    decreases i
  {
    if i > 0 {
      var j := i - 1;
      LaterPressesSingle(buttons, changes, j, c, now, speed);
      var prev := Transitions(buttons, changes, j, c, now, speed);
      assert Transitions(buttons, changes, i, c, now, speed) == Step(buttons, changes, j, prev.0, prev.1, now, speed);
      LaterPressesStep(buttons, changes, j, prev.0, prev.1, c, now, speed);
    }
  }

  lemma LaterPressesStep(buttons: bv32, changes: bv32, j: bv32, ev: seq<Message>, c1: Clicks, c: Clicks, now: int, speed: int)
    requires j < 32
    requires LaterSingle(ev) && (HasPress(ev) ==> c1.btn < j) && (!HasPress(ev) ==> c1 == c)
    ensures var r := Step(buttons, changes, j, ev, c1, now, speed);
      LaterSingle(r.0) && (HasPress(r.0) ==> r.1.btn < j + 1) && (!HasPress(r.0) ==> r.1 == c)
  {
    if !Bit(changes, j) {
      assert Step(buttons, changes, j, ev, c1, now, speed) == (ev, c1);
    } else if Bit(buttons, j) {
      var c2 := Press(c1, j, now, speed);
      assert Step(buttons, changes, j, ev, c1, now, speed) == (ev + [MouseDown(now, buttons, c2.count)], c2);
      PressAfterPresses(ev, c1, j, now, speed);
      AppendPress(ev, MouseDown(now, buttons, c2.count));
    } else {
      assert Step(buttons, changes, j, ev, c1, now, speed) == (ev + [MouseUp(now, buttons)], c1);
      AppendRelease(ev, MouseUp(now, buttons));
    }
  }

  /** A press of bit j after a press of a lower bit starts its count again. */
  lemma PressAfterPresses(ev: seq<Message>, c1: Clicks, j: bv32, now: int, speed: int)
    requires HasPress(ev) ==> c1.btn < j
    ensures Press(c1, j, now, speed).btn == j
    ensures HasPress(ev) ==> Press(c1, j, now, speed).count == 1
  {
  }

  /** A press appended after earlier presses keeps LaterSingle when its count is 1. */
  lemma AppendPress(ev: seq<Message>, m: Message)
    requires LaterSingle(ev) && m.MouseDown? && (HasPress(ev) ==> m.clicks == 1)
    ensures LaterSingle(ev + [m]) && HasPress(ev + [m])
  {
    var r := ev + [m];
    assert r[|ev|] == m;
    forall j, k | 0 <= j < k < |r| && r[j].MouseDown? && r[k].MouseDown?
      ensures r[k].clicks == 1
    {
      if k < |ev| {
        assert r[j] == ev[j] && r[k] == ev[k];
      } else {
        assert r[j] == ev[j];
      }
    }
  }

  /** A release appended keeps LaterSingle and adds no press. */
  lemma AppendRelease(ev: seq<Message>, m: Message)
    requires LaterSingle(ev) && m.MouseUp?
    ensures LaterSingle(ev + [m]) && (HasPress(ev + [m]) <==> HasPress(ev))
  {
    var r := ev + [m];
    assert r[|ev|] == m;
    if HasPress(r) {
      var j :| 0 <= j < |r| && r[j].MouseDown?;
      assert j < |ev| && ev[j] == r[j];
    }
    if HasPress(ev) {
      var j :| 0 <= j < |ev| && ev[j].MouseDown?;
      assert r[j] == ev[j];
    }
    forall j, k | 0 <= j < k < |r| && r[j].MouseDown? && r[k].MouseDown?
      ensures r[k].clicks == 1
    {
      assert k < |ev|;
      assert r[j] == ev[j] && r[k] == ev[k];
    }
  }

  /**
   * Pressing a single button b: one press message, whose count goes on from the last press
   * exactly when b was the last button pressed and the click speed has not run out.
   */
  lemma SinglePress(last: bv32, b: bv32, c: Clicks, now: int, speed: int)
    requires b < 32 && !Bit(last, b)
    ensures var buttons := last | (1 << b);
      Transitions(buttons, buttons ^ last, 32, c, now, speed).0 ==
        [MouseDown(now, buttons, if b == c.btn && now - c.time < speed then c.count + 1 else 1)]
  {
    var buttons := last | (1 << b);
    var changes := buttons ^ last;
    SetBit(last, b);
    forall j: bv32 | j < 32
      ensures Bit(changes, j) <==> j == b
    {
      SingleBit(b, j);
    }
    SingleBitPrefix(buttons, changes, b, 32, c, now, speed);
    var p := Press(c, b, now, speed);
    assert !(32 <= b);
    assert Transitions(buttons, changes, 32, c, now, speed).0 == [MouseDown(now, buttons, p.count)];
  }

  /** Setting a clear bit b changes exactly that bit, and sets it. */
  lemma SetBit(last: bv32, b: bv32)
    requires b < 32 && !Bit(last, b)
    ensures (last | (1 << b)) ^ last == 1 << b && Bit(last | (1 << b), b)
  {
  }

  lemma SingleBit(b: bv32, j: bv32)
    requires b < 32 && j < 32
    ensures Bit(1 << b, j) <==> j == b
  {
  }

  lemma {:induction false} SingleBitPrefix(buttons: bv32, changes: bv32, b: bv32, i: bv32, c: Clicks, now: int, speed: int)
    requires b < 32 && i <= 32
    requires forall j: bv32 :: j < 32 ==> (Bit(changes, j) <==> j == b)
    requires Bit(buttons, b)
    ensures Transitions(buttons, changes, i, c, now, speed) ==
      if i <= b then ([], c)
      else ([MouseDown(now, buttons, Press(c, b, now, speed).count)], Press(c, b, now, speed))
    decreases i
  {
    if i > 0 {
      var j := i - 1;
      SingleBitPrefix(buttons, changes, b, j, c, now, speed);
      assert Bit(changes, j) <==> j == b;
      var prev := Transitions(buttons, changes, j, c, now, speed);
      assert Transitions(buttons, changes, i, c, now, speed) == Step(buttons, changes, j, prev.0, prev.1, now, speed);
      if j < b {
        assert i <= b;
      } else if j == b {
        assert prev == ([], c);
        assert !(i <= b) && Bit(buttons, j) && Bit(changes, j);
        assert [] + [MouseDown(now, buttons, Press(c, b, now, speed).count)] == [MouseDown(now, buttons, Press(c, b, now, speed).count)];
      } else {
        assert b < j && !(i <= b);
      }
    }
  }

  // ---- Key messages ----

  /** With Ctrl held, letters become control codes: 'a'..'z' minus 96, 'A'..'Z' minus 64. */
  function CtrlMap(c: U32, modifiers: bv32): (r: U32)
  {
    if modifiers & B_CONTROL_KEY != 0 then
      if 'a' as int <= c <= 'z' as int then c - 96
      else if 'A' as int <= c <= 'Z' as int then c - 64
      else c
    else c
  }

  /** Ctrl-letter gives the control codes 1 .. 26, upper and lower case alike; nothing else changes. */
  lemma CtrlMapCodes(c: U32, modifiers: bv32)
    ensures var r := CtrlMap(c, modifiers);
      (modifiers & B_CONTROL_KEY != 0 && 'a' as int <= c <= 'z' as int ==> r == c - 'a' as int + 1) &&
      (modifiers & B_CONTROL_KEY != 0 && 'A' as int <= c <= 'Z' as int ==> r == c - 'A' as int + 1) &&
      (1 <= r <= 26 || r == c) &&
      (modifiers & B_CONTROL_KEY == 0 || !('a' as int <= c <= 'z' as int || 'A' as int <= c <= 'Z' as int) ==> r == c)
  {
  }

  /** The low 8 bits of 0xF0 | x, as the store into a char keeps them. */
  function LeadF0(x: nat): (b: Byte)
  {
    ((0xF0 as bv8) | ((x % 256) as bv8)) as int
  }

  lemma LeadF0Small(x: nat)
    requires x < 16
    ensures LeadF0(x) == 0xF0 + x
  {
    var y := x as bv8;
    assert (0xF0 as bv8) | y == 0xF0 + y;
  }

  /**
   * utf8[0..4] of the zero-filled 5-byte buffer: one byte below 0x80, two below 0x800, three
   * below 0x10000, else four. The lead and continuation bits are disjoint from the payload
   * bits below those bounds, so each OR is a sum; the four-byte lead keeps the low 8 bits.
   */
  function Utf8(c: U32): (u: seq<Byte>)
    ensures |u| == 4
  {
    if c < 0x80 then [c, 0, 0, 0]
    else if c < 0x800 then [0xC0 + c / 64, 0x80 + c % 64, 0, 0]
    else if c < 0x10000 then [0xE0 + c / 4096, 0x80 + (c / 64) % 64, 0x80 + c % 64, 0]
    else [LeadF0(c / 262144), 0x80 + (c / 4096) % 64, 0x80 + (c / 64) % 64, 0x80 + c % 64]
  }

  /** The bytes up to the first NUL, as AddString reads them. */
  function CString(s: seq<Byte>): (r: seq<Byte>)
    ensures |r| <= |s| && r == s[..|r|]
    ensures forall k :: 0 <= k < |r| ==> r[k] != 0
    ensures |r| < |s| ==> s[|r|] == 0
  {
    if s == [] || s[0] == 0 then [] else [s[0]] + CString(s[1..])
  }

  /** UTF-8 decoding of one well-formed sequence (section 3 of RFC 3629). */
  function Utf8Decode(s: seq<Byte>): int
    requires 1 <= |s| <= 4
  {
    if |s| == 1 then s[0]
    else if |s| == 2 then (s[0] as int - 0xC0) * 64 + (s[1] as int - 0x80)
    else if |s| == 3 then (s[0] as int - 0xE0) * 4096 + (s[1] as int - 0x80) * 64 + (s[2] as int - 0x80)
    else (s[0] as int - 0xF0) * 262144 + (s[1] as int - 0x80) * 4096 + (s[2] as int - 0x80) * 64 + (s[3] as int - 0x80)
  }

  /**
   * For every non-zero code point up to U+10FFFF the "bytes" string has the RFC 3629 length,
   * the lead byte carries the length marker, every other byte is a continuation byte, and
   * decoding gives the code point back.
   */
  lemma Utf8RoundTrip(c: U32)
    requires 0 < c <= 0x10FFFF
    ensures var s := CString(Utf8(c));
      |s| == (if c < 0x80 then 1 else if c < 0x800 then 2 else if c < 0x10000 then 3 else 4) &&
      (|s| == 1 ==> s[0] < 0x80) &&
      (|s| == 2 ==> 0xC0 <= s[0] < 0xE0) &&
      (|s| == 3 ==> 0xE0 <= s[0] < 0xF0) &&
      (|s| == 4 ==> 0xF0 <= s[0] < 0xF8) &&
      (forall k :: 1 <= k < |s| ==> 0x80 <= s[k] < 0xC0) &&
      Utf8Decode(s) == c
  {
    var u := Utf8(c);
    if c >= 0x10000 {
      Utf8Four(c);
    } else if c >= 0x800 {
      Utf8Three(c);
    } else if c >= 0x80 {
      Utf8Two(c);
    } else {
      assert CString(u[1..]) == [];
      assert CString(u) == u[..1];
    }
  }

  lemma Utf8Two(c: U32)
    requires 0x80 <= c < 0x800
    ensures CString(Utf8(c)) == Utf8(c)[..2]
    ensures Utf8Decode(Utf8(c)[..2]) == c
  {
    var u := Utf8(c);
    assert CString(u[2..]) == [];
    assert CString(u[1..]) == [u[1]] + CString(u[2..]);
  }

  lemma Utf8Three(c: U32)
    requires 0x800 <= c < 0x10000
    ensures CString(Utf8(c)) == Utf8(c)[..3]
    ensures Utf8Decode(Utf8(c)[..3]) == c
  {
    var u := Utf8(c);
    assert CString(u[3..]) == [];
    assert CString(u[2..]) == [u[2]] + CString(u[3..]);
    assert CString(u[1..]) == [u[1]] + CString(u[2..]);
    var q := c / 64;
    assert c == q * 64 + c % 64;
    assert q == (q / 64) * 64 + q % 64;
    DivDiv(c, 64, 64);
  }

  lemma Utf8Four(c: U32)
    requires 0x10000 <= c <= 0x10FFFF
    ensures CString(Utf8(c)) == Utf8(c)
    ensures Utf8Decode(Utf8(c)) == c
  {
    var u := Utf8(c);
    LeadF0Small(c / 262144);
    assert CString(u[4..]) == [];
    assert CString(u[3..]) == [u[3]] + CString(u[4..]);
    assert CString(u[2..]) == [u[2]] + CString(u[3..]);
    assert CString(u[1..]) == [u[1]] + CString(u[2..]);
    SixBitGroups(c);
  }

  /** A number is its base-64 digits below 262144 plus the rest above. */
  lemma SixBitGroups(c: nat)
    ensures c == (c / 262144) * 262144 + ((c / 4096) % 64) * 4096 + ((c / 64) % 64) * 64 + c % 64
  {
    var q := c / 64;
    var r := q / 64;
    assert c == q * 64 + c % 64;
    assert q == r * 64 + q % 64;
    assert r == (r / 64) * 64 + r % 64;
    DivDiv(c, 64, 64);
    DivDiv(c, 4096, 64);
  }

  /** The key message for one key packet. The legacy "byte" field is there exactly when the first UTF-8 byte is not NUL. */
  function KeyEvent(keyCode: U32, down: bool, modifiers: bv32, utf32: U32, now: int): (m: Message)
    ensures m.KeyMessage? && m.down == down && m.key == keyCode && m.modifiers == modifiers
  {
    var c := CtrlMap(utf32, modifiers);
    var u := Utf8(c);
    KeyMessage(down, now, keyCode, modifiers, CString(u), c,
               if u[0] != 0 then Some(if u[0] >= 128 then u[0] as int - 256 else u[0] as int) else None)
  }

  /** The "byte" field appears exactly for a non-zero character, and raw_char is the mapped character. */
  lemma KeyEventByte(keyCode: U32, down: bool, modifiers: bv32, utf32: U32, now: int)
    ensures var m := KeyEvent(keyCode, down, modifiers, utf32, now);
      m.rawChar == CtrlMap(utf32, modifiers) &&
      (m.byte.Some? <==> CtrlMap(utf32, modifiers) != 0) &&
      (m.bytes == [] <==> CtrlMap(utf32, modifiers) == 0)
  {
    var c := CtrlMap(utf32, modifiers);
    if c >= 0x10000 {
      var x := c / 262144;
      assert LeadF0(x) >= 0xF0 by {
        var y := (x % 256) as bv8;
        assert ((0xF0 as bv8) | y) & 0xF0 == 0xF0;
        assert ((0xF0 as bv8) | y) >= 0xF0;
      }
    }
  }

  /** The device and the add-on's shared state (the slots for the two devices and the count). */
  class VirtualMouse {
    var port: int
    var thread: int
    var running: bool
    /** A port created by Start and not yet deleted. */
    var portLive: bool
    var lastButtons: bv32
    var clickSpeed: int
    var clicks: Clicks
    /** sMouse / sKeyboard are set: messages for that device are enqueued, not dropped. */
    var mouseSlot: bool
    var keyboardSlot: bool
    /** sRef, shared by all Start and Stop calls. */
    var ref: int
    /** Messages enqueued to the input server, oldest first. */
    var enqueued: seq<Message>

    /** The fields as the constructor sets them; get_click_speed supplies the click speed. */
    constructor(systemClickSpeed: int)
      ensures port == -1 && thread == -1 && !running && !portLive && lastButtons == 0
      ensures clickSpeed == systemClickSpeed && clicks == Clicks(0xFFFF_FFFF, 0, 0)
      ensures !mouseSlot && !keyboardSlot && ref == 0 && enqueued == []
    {
      port := -1;
      thread := -1;
      running := false;
      portLive := false;
      lastButtons := 0;
      clickSpeed := systemClickSpeed;
      clicks := Clicks(0xFFFF_FFFF, 0, 0);
      mouseSlot := false;
      keyboardSlot := false;
      ref := 0;
      enqueued := [];
    }

    /**
     * Start: the named device takes its slot and the count goes up. Only the call that
     * raises the count from 0 creates the port (create_port's result is given) and the
     * thread (spawn_thread's result is given); a failure is returned as the status and the
     * count stays raised.
     */
    method Start(name: string, portResult: int, threadResult: int) returns (status: int)
      modifies this`mouseSlot, this`keyboardSlot, this`ref, this`port, this`running, this`thread, this`portLive
      ensures mouseSlot == (name == "VirtualMouse" || old(mouseSlot))
      ensures keyboardSlot == ((name != "VirtualMouse" && name == "VirtualKeyboard") || old(keyboardSlot))
      ensures ref == old(ref) + 1
      ensures old(ref) > 0 ==> status == B_OK && unchanged(this`port, this`running, this`thread, this`portLive)
      ensures old(ref) <= 0 ==> port == portResult
      ensures old(ref) <= 0 && portResult < 0 ==>
        status == portResult && unchanged(this`running, this`thread, this`portLive)
      ensures old(ref) <= 0 && portResult >= 0 ==>
        running && thread == threadResult && portLive == (threadResult >= 0) &&
        status == (if threadResult < 0 then threadResult else B_OK)
    {
      if name == "VirtualMouse" {
        mouseSlot := true;
      } else if name == "VirtualKeyboard" {
        keyboardSlot := true;
      }
      var before := ref;
      ref := ref + 1;
      if before > 0 {
        return B_OK;
      }
      port := portResult;
      if port < 0 {
        return port;
      }
      portLive := true;
      running := true;
      thread := threadResult;
      if thread < 0 {
        portLive := false;
        return thread;
      }
      status := B_OK;
    }

    /**
     * Stop: the named device leaves its slot and the count goes down. Only the call that
     * takes the count from 1 (or below) tears down: the loop stops, a valid port is deleted
     * and forgotten, and the thread is joined.
     */
    method Stop(name: string) returns (status: int)
      modifies this`mouseSlot, this`keyboardSlot, this`ref, this`port, this`running, this`portLive
      ensures mouseSlot == (name != "VirtualMouse" && old(mouseSlot))
      ensures keyboardSlot == ((name == "VirtualMouse" || name != "VirtualKeyboard") && old(keyboardSlot))
      ensures ref == old(ref) - 1 && status == B_OK
      ensures old(ref) > 1 ==> unchanged(this`port, this`running, this`portLive)
      ensures old(ref) <= 1 ==>
        !running && port == (if old(port) >= 0 then -1 else old(port)) &&
        portLive == (old(port) < 0 && old(portLive))
    {
      if name == "VirtualMouse" {
        mouseSlot := false;
      } else if name == "VirtualKeyboard" {
        keyboardSlot := false;
      }
      var before := ref;
      ref := ref - 1;
      if before > 1 {
        return B_OK;
      }
      running := false;
      if port >= 0 {
        portLive := false;
        port := -1;
      }
      status := B_OK;
    }

    /** The button loop of one mouse packet: bits 0..31 of the changed mask in order. */
    method ButtonTransitions(buttons: bv32, changes: bv32, now: int)
      modifies this`clicks, this`enqueued
      ensures var r := Transitions(buttons, changes, 32, old(clicks), now, clickSpeed);
        clicks == r.1 && enqueued == old(enqueued) + (if mouseSlot then r.0 else [])
    {
      var i: bv32 := 0;
      ghost var ev: seq<Message> := [];
      while i < 32
        invariant i <= 32
        invariant (ev, clicks) == Transitions(buttons, changes, i, old(clicks), now, clickSpeed)
        invariant mouseSlot ==> enqueued == old(enqueued) + ev
        invariant !mouseSlot ==> enqueued == old(enqueued)
        decreases 32 - i
      {
        ghost var before := (ev, clicks);
        if Bit(changes, i) {
          var down := Bit(buttons, i);
          var event: Message;
          if down {
            if i == clicks.btn && now - clicks.time < clickSpeed {
              clicks := clicks.(count := clicks.count + 1);
            } else {
              clicks := clicks.(count := 1);
            }
            clicks := clicks.(btn := i, time := now);
            event := MouseDown(now, buttons, clicks.count);
          } else {
            event := MouseUp(now, buttons);
          }
          if mouseSlot {
            assert (old(enqueued) + ev) + [event] == old(enqueued) + (ev + [event]);
            enqueued := enqueued + [event];
          }
          ev := ev + [event];
        }
        assert (ev, clicks) == Step(buttons, changes, i, before.0, before.1, now, clickSpeed);
        TransitionsNext(buttons, changes, i, old(clicks), now, clickSpeed);
        i := i + 1;
      }
      assert old(enqueued) + [] == old(enqueued);
    }

    /**
     * One packet read from the port at time now. Only a full-size packet is looked at; a
     * mouse packet produces its button messages and remembers the mask, a key packet its key
     * message; any other type does nothing.
     */
    method ProcessPacket(bytes: int, p: Packet, now: int)
      requires WellFormed(p)
      modifies this`clicks, this`enqueued, this`lastButtons
      ensures bytes != PACKET_SIZE || p.OtherPacket? ==> unchanged(this`clicks, this`enqueued, this`lastButtons)
      ensures bytes == PACKET_SIZE && p.MousePacket? && p.buttons ^ old(lastButtons) == 0 ==>
        unchanged(this`clicks, this`enqueued, this`lastButtons)
      ensures bytes == PACKET_SIZE && p.MousePacket? && p.buttons ^ old(lastButtons) != 0 ==>
        var r := Transitions(p.buttons, p.buttons ^ old(lastButtons), 32, old(clicks), now, clickSpeed);
        lastButtons == p.buttons && clicks == r.1 && enqueued == old(enqueued) + (if mouseSlot then r.0 else [])
      ensures bytes == PACKET_SIZE && p.KeyPacket? ==>
        clicks == old(clicks) && lastButtons == old(lastButtons) &&
        enqueued == old(enqueued) +
          (if keyboardSlot then [KeyEvent(p.keyCode, p.down, p.modifiers, p.utf32, now)] else [])
    {
      if bytes != PACKET_SIZE {
        return;
      }
      match p {
        case MousePacket(buttons) =>
          MouseStep(buttons, now);
        case KeyPacket(keyCode, down, modifiers, utf32) =>
          KeyStep(keyCode, down, modifiers, utf32, now);
        case OtherPacket(_) =>
      }
    }

    /**
     * A mouse packet: the button loop runs only when some bit changed, and then records the
     * new mask; an unchanged mask leaves everything as it was (which SameMask shows is also
     * what the loop would have done).
     */
    method MouseStep(buttons: bv32, now: int)
      modifies this`clicks, this`enqueued, this`lastButtons
      ensures buttons ^ old(lastButtons) == 0 ==> unchanged(this`clicks, this`enqueued, this`lastButtons)
      ensures buttons ^ old(lastButtons) != 0 ==>
        var r := Transitions(buttons, buttons ^ old(lastButtons), 32, old(clicks), now, clickSpeed);
        lastButtons == buttons && clicks == r.1 && enqueued == old(enqueued) + (if mouseSlot then r.0 else [])
    {
      var changes := buttons ^ lastButtons;
      if changes != 0 {
        ButtonTransitions(buttons, changes, now);
        lastButtons := buttons;
      }
    }

    /** A key packet: the Ctrl mapping, the UTF-8 bytes, and one key message when a keyboard slot is attached. */
    method KeyStep(keyCode: U32, down: bool, modifiers: bv32, utf32: U32, now: int)
      modifies this`enqueued
      ensures enqueued == old(enqueued) + (if keyboardSlot then [KeyEvent(keyCode, down, modifiers, utf32, now)] else [])
    {
      var c := utf32;
      if modifiers & B_CONTROL_KEY != 0 {
        if 'a' as int <= c <= 'z' as int {
          c := c - 96;
        } else if 'A' as int <= c <= 'Z' as int {
          c := c - 64;
        }
      }
      var utf8 := Utf8(c);
      var byte: Option<int> := None;
      if utf8[0] != 0 {
        byte := Some(if utf8[0] >= 128 then utf8[0] as int - 256 else utf8[0] as int);
      }
      var event := KeyMessage(down, now, keyCode, modifiers, CString(utf8), c, byte);
      if keyboardSlot {
        enqueued := enqueued + [event];
      }
    }
  }
}
