/**
 * ScreenApp (server.cpp): the application that ties capture, encoder and network together.
 * Modelled here: the frame-rate clamp, the choice of the closest display mode and the
 * restart around a mode switch, the codec switch, starting and stopping capture (with the
 * init-config message it broadcasts), and the capture loop's schedule, presentation times,
 * keyframe rule and frame message layout. The screen, the clock and the codec library are
 * outside: what they report arrives as parameters.
 */
module ScreenServer {
  import opened Bytes
  import NetworkUtils
  import WebSocket
  import Network
  import Video

  const MIN_FPS: int := 1
  const MAX_FPS: int := 120
  /** Microseconds in a second: the frame wait is this divided by the frame rate. */
  const ONE_SECOND: int := 1000000
  /** A keyframe is forced when the last key packet is more than this many microseconds old. */
  const KEYFRAME_INTERVAL: int := 60000000
  /** The bitrate, in kbit/s, the encoder is started with. */
  const CAPTURE_BITRATE: int := 2000
  /** The starting value of bestDiff (INT32_MAX): a mode this far off or farther is never chosen. */
  const NO_DIFF: int := 0x7FFFFFFF
  /** The magic trailer of every frame message. */
  const MAGIC: seq<Byte> := [0xDE, 0xAD, 0xBE, 0xEF]

  // ---------------------------------------------------------------- frame rate

  /** The frame rate _ChangeFps keeps: below 1 becomes 1, above 120 becomes 120. */
  function ClampFps(fps: int): (f: int)
    ensures MIN_FPS <= f <= MAX_FPS
    ensures MIN_FPS <= fps <= MAX_FPS ==> f == fps
    ensures fps < MIN_FPS ==> f == MIN_FPS
    ensures fps > MAX_FPS ==> f == MAX_FPS
  {
    if fps < MIN_FPS then MIN_FPS else if fps > MAX_FPS then MAX_FPS else fps
  }

  /**
   * For a clamped rate the frame wait lies in [8333, 1000000] microseconds, and it is the
   * longest wait for which fps frames still fit in one second.
   */
  lemma FrameWaitBounds(fps: int)
    requires MIN_FPS <= fps <= MAX_FPS
    ensures 8333 <= ONE_SECOND / fps <= ONE_SECOND
    ensures fps * (ONE_SECOND / fps) <= ONE_SECOND < fps * (ONE_SECOND / fps + 1)
  {
  }

  // ---------------------------------------------------------------- display modes

  /** A display mode's virtual width and height. */
  datatype Mode = Mode(width: int, height: int)

  function Abs(x: int): nat
  {
    if x < 0 then -x else x
  }

  /** How far a mode is from the requested size: |w - width| + |h - height|. */
  function Distance(m: Mode, width: int, height: int): (d: nat)
    ensures d == 0 <==> m.width == width && m.height == height
  {
    Abs(m.width - width) + Abs(m.height - height)
  }

  /**
   * The index the search of _ChangeResolution ends with, defined over the list prefix by
   * prefix: a mode replaces the current choice only when strictly closer, and the first
   * choice must beat INT32_MAX. An exact match has distance 0, which nothing later beats, so
   * stopping at it (as the loop does) picks the same index. -1 when nothing was chosen.
   */
  function BestIndex(modes: seq<Mode>, width: int, height: int): (i: int)
    ensures -1 <= i < |modes|
    decreases |modes|
  {
    if modes == [] then -1
    else
      var n := |modes| - 1;
      var b := BestIndex(modes[..n], width, height);
      var bestDiff := if b < 0 then NO_DIFF else Distance(modes[b], width, height);
      if Distance(modes[n], width, height) < bestDiff then n else b
  }

  /** The choice is the earliest mode at the smallest distance, provided that is below INT32_MAX. */
  predicate EarliestClosest(modes: seq<Mode>, width: int, height: int, i: int)
  {
    if i < 0 then
      i == -1 && forall k :: 0 <= k < |modes| ==> Distance(modes[k], width, height) >= NO_DIFF
    else
      i < |modes| && Distance(modes[i], width, height) < NO_DIFF &&
      (forall k :: 0 <= k < |modes| ==> Distance(modes[i], width, height) <= Distance(modes[k], width, height)) &&
      (forall k :: 0 <= k < i ==> Distance(modes[i], width, height) < Distance(modes[k], width, height))
  }

  lemma {:induction false} BestIndexIsEarliestClosest(modes: seq<Mode>, width: int, height: int)
    ensures EarliestClosest(modes, width, height, BestIndex(modes, width, height))
    decreases |modes|
  {
    if modes != [] {
      var n := |modes| - 1;
      BestIndexIsEarliestClosest(modes[..n], width, height);
      assert forall k :: 0 <= k < n ==> modes[..n][k] == modes[k];
    }
  }

  /** There is at most one earliest closest mode. */
  lemma EarliestClosestUnique(modes: seq<Mode>, width: int, height: int, i: int, j: int)
    requires EarliestClosest(modes, width, height, i) && EarliestClosest(modes, width, height, j)
    ensures i == j
  {
    if i >= 0 && j >= 0 {
      assert Distance(modes[i], width, height) <= Distance(modes[j], width, height);
      assert Distance(modes[j], width, height) <= Distance(modes[i], width, height);
    }
  }

  /**
   * An exact match always wins, and the first one: a requested size the screen offers is
   * the size it switches to.
   */
  lemma ExactMatchChosen(modes: seq<Mode>, width: int, height: int, e: nat)
    requires e < |modes| && modes[e] == Mode(width, height)
    requires forall k :: 0 <= k < e ==> modes[k] != Mode(width, height)
    ensures BestIndex(modes, width, height) == e
  {
    BestIndexIsEarliestClosest(modes, width, height);
    assert EarliestClosest(modes, width, height, e);
    EarliestClosestUnique(modes, width, height, e, BestIndex(modes, width, height));
  }

  // ---------------------------------------------------------------- init config message

  function DigitChar(d: nat): (c: char)
    requires d < 10
    ensures '0' <= c <= '9'
  {
    ('0' as int + d) as char
  }

  /** The decimal digits of n, most significant first, as BString's << writes a number. */
  function Digits(n: nat): (s: string)
    ensures 1 <= |s| <= n + 1
    ensures forall i :: 0 <= i < |s| ==> '0' <= s[i] <= '9'
    ensures n > 0 ==> s[0] != '0'
    decreases n
  {
    if n < 10 then [DigitChar(n)] else Digits(n / 10) + [DigitChar(n % 10)]
  }

  /** The value a string of decimal digits denotes. */
  function DigitsValue(s: string): int
    decreases |s|
  {
    if s == [] then 0 else DigitsValue(s[..|s| - 1]) * 10 + (s[|s| - 1] as int - '0' as int)
  }

  /** Reading the digits back gives the number. */
  lemma {:induction false} DigitsRoundTrip(n: nat)
    ensures DigitsValue(Digits(n)) == n
    decreases n
  {
    if n >= 10 {
      DigitsRoundTrip(n / 10);
      var s := Digits(n / 10) + [DigitChar(n % 10)];
      assert s[..|s| - 1] == Digits(n / 10);
    }
  }

  /** A signed number in decimal: a minus sign before the digits of a negative one. */
  function Decimal(n: int): (s: string)
    ensures 1 <= |s| <= Abs(n) + 2
    ensures n < 0 <==> s[0] == '-'
  {
    if n < 0 then "-" + Digits(-n) else Digits(n)
  }

  /** The JSON text of the init config: screen width and height and the encoder's codec name. */
  function ConfigJson(width: int, height: int, codec: string): string
  {
    "{\"type\": \"init\", \"width\": " + Decimal(width) + ", \"height\": " + Decimal(height) +
    ", \"codec\": \"" + codec + "\"}"
  }

  const INT32_LIMIT: int := 0x8000_0000

  /** Values an int32 can hold. */
  predicate Int32(x: int)
  {
    -INT32_LIMIT <= x < INT32_LIMIT
  }

  /** The longest codec name the model admits (a protobuf string held in memory). */
  const MAX_NAME: int := 0x1_0000_0000

  /** The config for an int32 screen size and a bounded name fits one frame. */
  lemma ConfigFits(width: int, height: int, codec: string)
    requires Int32(width) && Int32(height) && |codec| < MAX_NAME
    ensures |ConfigJson(width, height, codec)| < TWO_64 - 16
  {
  }

  /** The init config as a text frame (opcode 0x01), as _StartCapture broadcasts it. */
  function ConfigFrame(width: int, height: int, codec: string): (f: seq<Byte>)
    requires Int32(width) && Int32(height) && |codec| < MAX_NAME
    ensures var cfg := AsBytes(ConfigJson(width, height, codec));
      WebSocket.Decode(f) == WebSocket.Complete(WebSocket.Frame(true, 0x01, false, cfg), |f|)
  {
    ConfigFits(width, height, codec);
    var cfg := AsBytes(ConfigJson(width, height, codec));
    WebSocket.RoundTrip(0x01, cfg, []);
    assert NetworkUtils.Header(|cfg|, 0x01) + cfg + [] == NetworkUtils.Header(|cfg|, 0x01) + cfg;
    NetworkUtils.Header(|cfg|, 0x01) + cfg
  }

  // ---------------------------------------------------------------- frame messages

  /** The payload of a frame message: meta byte (1 for a key frame), the frame, DE AD BE EF. */
  function FramePayload(isKey: bool, frame: seq<Byte>): seq<Byte>
  {
    [if isKey then 0x01 else 0x00] + frame + MAGIC
  }

  /** A frame message: a binary WebSocket header for 1 + N + 4 bytes, then the payload. */
  function FrameMessage(isKey: bool, frame: seq<Byte>): seq<Byte>
    requires |frame| + 5 < TWO_64
  {
    NetworkUtils.Header(1 + |frame| + 4, 0x02) + FramePayload(isKey, frame)
  }

  /**
   * A client decodes a frame message as one final, unmasked binary frame whose payload
   * starts with the key flag, carries the frame unchanged, and ends with the magic.
   */
  lemma FrameMessageDecodes(isKey: bool, frame: seq<Byte>)
    requires |frame| + 5 < TWO_64
    ensures var m := FrameMessage(isKey, frame);
      var p := FramePayload(isKey, frame);
      WebSocket.Decode(m) == WebSocket.Complete(WebSocket.Frame(true, 0x02, false, p), |m|)
    ensures var p := FramePayload(isKey, frame);
      |p| == |frame| + 5 && (p[0] == 0x01 <==> isKey) && (p[0] == 0x00 <==> !isKey) &&
      p[1..|frame| + 1] == frame && p[|frame| + 1..] == MAGIC
  {
    var p := FramePayload(isKey, frame);
    WebSocket.RoundTrip(0x02, p, []);
    assert NetworkUtils.Header(|p|, 0x02) + p + [] == NetworkUtils.Header(|p|, 0x02) + p;
  }

  // ---------------------------------------------------------------- capture loop

  /** The bytes of an encoded frame: few enough that the frame message's length fits 64 bits. */
  type FrameBytes = s: seq<Byte> | |s| + 5 < TWO_64

  /** One packet the encoder hands out: a frame packet or not, its key flag, bytes and the clock when read. */
  datatype EncodedPacket = EncodedPacket(isFrame: bool, isKey: bool, frame: FrameBytes, time: int)

  /**
   * What one loop iteration meets: the clock at its start, whether the capture succeeded and
   * the capture is connected, the clock before the keyframe test, whether Encode returned
   * B_OK, and the packets the encoder then hands out.
   */
  datatype Tick = Tick(now: int, captured: bool, connected: bool, checkTime: int,
                       encoded: bool, packets: seq<EncodedPacket>)

  /** The frame deadline of iteration k: nextFrameTime advances by the frame wait once per iteration. */
  function Schedule(start: int, wait: int, k: nat): int
  {
    if k == 0 then start else Schedule(start, wait, k - 1) + wait
  }

  lemma {:induction false} ScheduleLinear(start: int, wait: int, k: nat)
    ensures Schedule(start, wait, k) == start + k * wait
  {
    if k > 0 {
      ScheduleLinear(start, wait, k - 1);
    }
  }

  /** The timeout of the semaphore wait: the time left to the deadline, never negative. */
  function SleepTime(next: int, now: int): (w: int)
    ensures w >= 0
    ensures now <= next ==> w == next - now
    ensures now > next ==> w == 0
  {
    if next - now < 0 then 0 else next - now
  }

  /** The sleep of each iteration in turn, from the deadline next on, the deadline moving by wait. */
  function SleepTimes(next: int, wait: int, ticks: seq<Tick>): seq<int>
    decreases |ticks|
  {
    if ticks == [] then [] else [SleepTime(next, ticks[0].now)] + SleepTimes(next + wait, wait, ticks[1..])
  }

  /** Iteration k sleeps until the k-th deadline of the schedule, or not at all when it is late. */
  lemma {:induction false} SleepTimesFollowSchedule(start: int, wait: int, ticks: seq<Tick>)
    ensures |SleepTimes(start, wait, ticks)| == |ticks|
    ensures forall k :: 0 <= k < |ticks| ==>
      SleepTimes(start, wait, ticks)[k] == SleepTime(Schedule(start, wait, k), ticks[k].now)
    decreases |ticks|
  {
    if ticks != [] {
      SleepTimesFollowSchedule(start + wait, wait, ticks[1..]);
      forall k | 0 <= k < |ticks|
        ensures SleepTimes(start, wait, ticks)[k] == SleepTime(Schedule(start, wait, k), ticks[k].now)
      {
        if k > 0 {
          ScheduleShift(start, wait, k - 1);
        }
      }
    }
  }

  /** Starting one deadline later shifts the schedule by one. */
  lemma {:induction false} ScheduleShift(start: int, wait: int, k: nat)
    ensures Schedule(start + wait, wait, k) == Schedule(start, wait, k + 1)
  {
    if k > 0 {
      ScheduleShift(start, wait, k - 1);
    }
  }

  /** Whether an iteration gets past the capture and connection checks. */
  predicate Processed(t: Tick)
  {
    t.captured && t.connected
  }

  /** lastKeyframeTime after a run of packets: refreshed by each key frame packet. */
  function KeyTimeAfter(lastKey: int, packets: seq<EncodedPacket>): int
    decreases |packets|
  {
    if packets == [] then lastKey
    else KeyTimeAfter(if packets[0].isFrame && packets[0].isKey then packets[0].time else lastKey, packets[1..])
  }

  /** The key time is the time of the last key frame packet, or the old one when there is none. */
  lemma {:induction false} KeyTimeAfterLast(lastKey: int, packets: seq<EncodedPacket>, p: EncodedPacket)
    ensures KeyTimeAfter(lastKey, packets + [p]) ==
      if p.isFrame && p.isKey then p.time else KeyTimeAfter(lastKey, packets)
    decreases |packets|
  {
    if packets == [] {
      assert [p][1..] == [];
    } else {
      assert (packets + [p])[1..] == packets[1..] + [p];
      KeyTimeAfterLast(if packets[0].isFrame && packets[0].isKey then packets[0].time else lastKey, packets[1..], p);
    }
  }

  /** lastKeyframeTime after one iteration: only an encoded iteration hands out packets. */
  function TickKeyTime(lastKey: int, t: Tick): int
  {
    if Processed(t) && t.encoded then KeyTimeAfter(lastKey, t.packets) else lastKey
  }

  /**
   * The Encode calls of a run of iterations, each as (pts, forceKeyframe): iteration k takes
   * pts + k whether or not it reaches Encode, and forces a keyframe when more than 60 s have
   * passed since the last key packet.
   */
  function Requests(ticks: seq<Tick>, pts: int, lastKey: int): seq<(int, bool)>
    decreases |ticks|
  {
    if ticks == [] then []
    else
      var t := ticks[0];
      (if Processed(t) then [(pts, t.checkTime - lastKey > KEYFRAME_INTERVAL)] else []) +
      Requests(ticks[1..], pts + 1, TickKeyTime(lastKey, t))
  }

  /** Every pts a run hands to Encode is new, in increasing order, within [pts, pts + |ticks|). */
  lemma {:induction false} RequestPts(ticks: seq<Tick>, pts: int, lastKey: int)
    ensures var r := Requests(ticks, pts, lastKey);
      |r| <= |ticks| &&
      (forall i :: 0 <= i < |r| ==> pts <= r[i].0 < pts + |ticks|) &&
      (forall i, j :: 0 <= i < j < |r| ==> r[i].0 < r[j].0)
    decreases |ticks|
  {
    if ticks != [] {
      RequestPts(ticks[1..], pts + 1, TickKeyTime(lastKey, ticks[0]));
    }
  }

  /** The messages of a run of packets: one frame message per frame packet, in order. */
  function PacketMessages(packets: seq<EncodedPacket>): seq<seq<Byte>>
    decreases |packets|
  {
    if packets == [] then []
    else
      (if packets[0].isFrame then [FrameMessage(packets[0].isKey, packets[0].frame)] else []) +
      PacketMessages(packets[1..])
  }

  /** The messages of one iteration: only an encoded iteration hands out packets. */
  function TickMessages(t: Tick): seq<seq<Byte>>
  {
    if Processed(t) && t.encoded then PacketMessages(t.packets) else []
  }

  /** The messages of a run of iterations. */
  function Messages(ticks: seq<Tick>): seq<seq<Byte>>
    decreases |ticks|
  {
    if ticks == [] then [] else TickMessages(ticks[0]) + Messages(ticks[1..])
  }

  /** What Broadcast writes for a run of messages, each to every upgraded client. */
  function Broadcasts(cs: seq<Network.ClientState>, msgs: seq<seq<Byte>>): seq<(int, seq<Byte>)>
    decreases |msgs|
  {
    if msgs == [] then [] else Network.Deliveries(cs, msgs[0]) + Broadcasts(cs, msgs[1..])
  }

  lemma {:induction false} BroadcastsAppend(cs: seq<Network.ClientState>, a: seq<seq<Byte>>, b: seq<seq<Byte>>)
    ensures Broadcasts(cs, a + b) == Broadcasts(cs, a) + Broadcasts(cs, b)
    decreases |a|
  {
    if a != [] {
      assert (a + b)[1..] == a[1..] + b;
      BroadcastsAppend(cs, a[1..], b);
    } else {
      assert a + b == b;
    }
  }

  /** Peeling packet j off a run: its key time and its frame message, if any, come first. */
  lemma PacketStep(cs: seq<Network.ClientState>, packets: seq<EncodedPacket>, j: int)
    requires 0 <= j < |packets|
    ensures forall k: int :: (KeyTimeAfter(k, packets[j..]) ==
      KeyTimeAfter(if packets[j].isFrame && packets[j].isKey then packets[j].time else k, packets[j + 1..]))
    ensures Broadcasts(cs, PacketMessages(packets[j..])) ==
      (if packets[j].isFrame then Network.Deliveries(cs, FrameMessage(packets[j].isKey, packets[j].frame)) else []) +
      Broadcasts(cs, PacketMessages(packets[j + 1..]))
  {
    var p := packets[j];
    assert packets[j..][1..] == packets[j + 1..];
    var rest := PacketMessages(packets[j + 1..]);
    if p.isFrame {
      var m := FrameMessage(p.isKey, p.frame);
      BroadcastsAppend(cs, [m], rest);
      assert Broadcasts(cs, [m]) == Network.Deliveries(cs, m);
    } else {
      assert PacketMessages(packets[j..]) == rest;
    }
  }

  /**
   * Peeling tick k off a run of requests: the request the tick makes, if any, comes before
   * the later ones.
   */
  lemma RequestsStep(ticks: seq<Tick>, k: int, pts: int, key: int, request: Option<(int, bool)>,
                     done: seq<(int, bool)>, whole: seq<(int, bool)>)
    requires 0 <= k < |ticks|
    requires request == if Processed(ticks[k]) then Some((pts, ticks[k].checkTime - key > KEYFRAME_INTERVAL)) else None
    requires done + Requests(ticks[k..], pts, key) == whole
    ensures request.Some? ==> (done + [request.value]) + Requests(ticks[k + 1..], pts + 1, TickKeyTime(key, ticks[k])) == whole
    ensures request.None? ==> done + Requests(ticks[k + 1..], pts + 1, TickKeyTime(key, ticks[k])) == whole
  {
    assert ticks[k..][0] == ticks[k] && ticks[k..][1..] == ticks[k + 1..];
    if request.None? {
      assert done + Requests(ticks[k..], pts, key) == done + Requests(ticks[k + 1..], pts + 1, TickKeyTime(key, ticks[k]));
    }
  }

  /** Peeling tick k off a run of sleeps: its own sleep comes first and the deadline moves on. */
  lemma WaitsStep(ticks: seq<Tick>, k: int, next: int, wait: int, done: seq<int>, whole: seq<int>)
    requires 0 <= k < |ticks|
    requires done + SleepTimes(next, wait, ticks[k..]) == whole
    ensures (done + [SleepTime(next, ticks[k].now)]) + SleepTimes(next + wait, wait, ticks[k + 1..]) == whole
  {
    assert ticks[k..][0] == ticks[k] && ticks[k..][1..] == ticks[k + 1..];
  }

  /** Peeling tick k off a run of broadcasts: its messages are delivered before the later ones. */
  lemma SentStep(cs: seq<Network.ClientState>, ticks: seq<Tick>, k: int,
                 done: seq<(int, seq<Byte>)>, whole: seq<(int, seq<Byte>)>)
    requires 0 <= k < |ticks|
    requires done + Broadcasts(cs, Messages(ticks[k..])) == whole
    ensures (done + Broadcasts(cs, TickMessages(ticks[k]))) + Broadcasts(cs, Messages(ticks[k + 1..])) == whole
  {
    assert ticks[k..][0] == ticks[k] && ticks[k..][1..] == ticks[k + 1..];
    BroadcastsAppend(cs, TickMessages(ticks[k]), Messages(ticks[k + 1..]));
  }

  // ---------------------------------------------------------------- the application

  /** What a _StartCapture meets: capture init, screen size, encoder library outcomes, thread id. */
  datatype StartInputs = StartInputs(captureOk: bool, width: int, height: int,
                                     encoder: Video.InitOutcome, thread: int)

  /** The capture thread id after _StopCapture: a running thread is joined and forgotten. */
  function Stopped(thread: int): int
  {
    if thread > 0 then -1 else thread
  }

  /** Whether _StartCapture gets past both inits and starts a session. */
  predicate Starts(codec: string, inputs: StartInputs)
  {
    inputs.captureOk && Video.InitStatus(codec, inputs.encoder) == Video.Ok
  }

  /** The init config bytes _StartCapture sends and keeps as the welcome message. */
  function ConfigText(width: int, height: int, codec: string): seq<Byte>
  {
    AsBytes(ConfigJson(width, height, codec))
  }

  class ScreenApp {
    const server: Network.NetworkServer
    const encoder: Video.VideoEncoder
    var capturing: bool
    var captureThread: int
    var currentCodec: string
    var targetFps: int
    /** Microseconds between frames. */
    var frameWaitTime: int
    var frameCount: int
    /** The main screen's current display mode (the display itself is outside the model). */
    var display: Mode

    /** The rate is within [1, 120] and the frame wait is one second divided by it. */
    ghost predicate Valid()
      reads this, server, encoder
    {
      server.Valid() && encoder.Valid() &&
      MIN_FPS <= targetFps <= MAX_FPS && frameWaitTime == ONE_SECOND / targetFps &&
      |currentCodec| < MAX_NAME
    }

    /**
     * The state a _StartCapture leaves, given the capture thread, frame count, sent bytes and
     * welcome message it found: a started session resets the count, takes the new thread
     * (capturing only if the spawn succeeded), and broadcasts the config, which becomes the
     * welcome message; otherwise only the stop has happened.
     */
    ghost predicate StartedFrom(inputs: StartInputs, thread: int, count: int,
                                sent: seq<(int, seq<Byte>)>, welcome: seq<Byte>)
      reads this, server
    {
      Int32(inputs.width) && Int32(inputs.height) && |currentCodec| < MAX_NAME &&
      var s := Starts(currentCodec, inputs);
      capturing == (s && inputs.thread >= 0) &&
      captureThread == (if s then inputs.thread else Stopped(thread)) &&
      frameCount == (if s then 0 else count) &&
      server.sent == sent +
        (if s then Network.Deliveries(server.clients, ConfigFrame(inputs.width, inputs.height, currentCodec)) else []) &&
      server.welcome == (if s then ConfigText(inputs.width, inputs.height, currentCodec) else welcome)
    }

    /** A new application: codec vp8 at 30 frames per second, not capturing. */
    constructor(server: Network.NetworkServer, encoder: Video.VideoEncoder, display: Mode)
      requires server.Valid() && encoder.Valid()
      ensures Valid()
      ensures this.server == server && this.encoder == encoder && this.display == display
      ensures currentCodec == "vp8" && targetFps == 30 && frameWaitTime == 33333
      ensures !capturing && captureThread == -1
    {
      this.server := server;
      this.encoder := encoder;
      this.display := display;
      currentCodec := "vp8";
      targetFps := 30;
      frameWaitTime := 33333;
      capturing := false;
      captureThread := -1;
    }

    /** _ChangeFps: the rate is clamped to [1, 120] and the frame wait follows it. */
    method ChangeFps(fps: int)
      requires Valid()
      modifies this`targetFps, this`frameWaitTime
      ensures Valid()
      ensures targetFps == ClampFps(fps) && frameWaitTime == ONE_SECOND / targetFps
      ensures 8333 <= frameWaitTime <= ONE_SECOND
    {
      var f := fps;
      if f < 1 {
        f := 1;
      }
      if f > 120 {
        f := 120;
      }
      targetFps := f;
      frameWaitTime := 1000000 / f;
      FrameWaitBounds(f);
    }

    /** _StopCapture: capturing ends, and a running capture thread is joined and forgotten. */
    method StopCapture()
      modifies this`capturing, this`captureThread
      ensures !capturing && captureThread == Stopped(old(captureThread))
    {
      capturing := false;
      if captureThread > 0 {
        captureThread := -1;
      }
    }

    /**
     * _StartCapture: stop first; give up if the screen capture or the encoder does not
     * initialise; otherwise reset the frame count, start the thread, broadcast the init
     * config as a text frame and keep it as the welcome message.
     */
    method StartCapture(inputs: StartInputs)
      requires Valid() && Int32(inputs.width) && Int32(inputs.height)
      modifies this`capturing, this`captureThread, this`frameCount, encoder, server`sent, server`welcome
      ensures Valid()
      ensures StartedFrom(inputs, old(captureThread), old(frameCount), old(server.sent), old(server.welcome))
      ensures inputs.captureOk ==>
        encoder.codecName == currentCodec &&
        (encoder.initialized <==> Video.InitStatus(currentCodec, inputs.encoder) == Video.Ok)
      ensures !inputs.captureOk ==> unchanged(encoder)
    {
      StopCapture();
      if !inputs.captureOk {
        assert !Starts(currentCodec, inputs);
        return;
      }
      var status := encoder.Init(inputs.width, inputs.height, CAPTURE_BITRATE, currentCodec, inputs.encoder);
      if status != Video.Ok {
        assert !Starts(currentCodec, inputs);
        return;
      }
      assert Starts(currentCodec, inputs);
      frameCount := 0;
      capturing := true;
      captureThread := inputs.thread;
      if inputs.thread < 0 {
        capturing := false;
      }
      SendConfig(inputs.width, inputs.height, encoder.codecName);
    }

    /** The end of _StartCapture: the init config goes out as a text frame and becomes the welcome message. */
    method SendConfig(width: int, height: int, codec: string)
      requires server.Valid() && Int32(width) && Int32(height) && |codec| < MAX_NAME
      modifies server`sent, server`welcome
      ensures server.Valid()
      ensures server.sent == old(server.sent) + Network.Deliveries(server.clients, ConfigFrame(width, height, codec))
      ensures server.welcome == ConfigText(width, height, codec)
    {
      var config := AsBytes(ConfigJson(width, height, codec));
      ConfigFits(width, height, codec);
      var headerBuf := new Byte[16];
      var headerLen := NetworkUtils.MakeWebSocketHeader(|config|, headerBuf, 0x01);
      server.Broadcast(headerBuf[..headerLen], config);
      server.SetWelcomeMessage(config);
    }

    /**
     * _ChangeResolution: nothing happens when the screen is invalid, the mode list cannot be
     * read, no mode is chosen or the chosen one is the current mode. Otherwise capture is
     * stopped if it was running, SetMode is tried (setModeOk is its outcome, which the source
     * does not inspect: a failed switch leaves the current mode), and capture restarts only if
     * it was running.
     */
    method ChangeResolution(width: int, height: int, screenValid: bool, modeList: Option<seq<Mode>>,
                            setModeOk: bool, restart: StartInputs)
      requires Valid() && Int32(restart.width) && Int32(restart.height)
      modifies this`capturing, this`captureThread, this`frameCount, this`display, encoder,
               server`sent, server`welcome
      ensures Valid()
      ensures var t := Target(screenValid, modeList, width, height, old(display));
        t.None? ==> unchanged(this) && unchanged(encoder) && unchanged(server`sent, server`welcome)
      ensures var t := Target(screenValid, modeList, width, height, old(display));
        t.Some? && !old(capturing) ==>
          display == (if setModeOk then t.value else old(display)) &&
          unchanged(this`capturing, this`captureThread, this`frameCount) &&
          unchanged(encoder) && unchanged(server`sent, server`welcome)
      ensures var t := Target(screenValid, modeList, width, height, old(display));
        t.Some? && old(capturing) ==>
          display == (if setModeOk then t.value else old(display)) &&
          StartedFrom(restart, Stopped(old(captureThread)), old(frameCount), old(server.sent), old(server.welcome))
    {
      if !screenValid {
        return;
      }
      if modeList.None? {
        return;
      }
      var modes := modeList.value;
      var bestIndex := SelectMode(modes, width, height);
      if bestIndex < 0 {
        return;
      }
      var target := modes[bestIndex];
      if target == display {
        return;
      }
      var wasCapturing := capturing;
      if wasCapturing {
        StopCapture();
      }
      if setModeOk {
        display := target;
      }
      if wasCapturing {
        StartCapture(restart);
      }
    }

    /**
     * _ChangeCodec: the same codec changes nothing. Otherwise the codec is stored, and if
     * capture was running it is stopped and then started twice in a row (the second start
     * stops the first session again), so the config is broadcast once per successful start.
     */
    method ChangeCodec(codec: string, first: StartInputs, second: StartInputs)
      requires Valid() && |codec| < MAX_NAME
      requires Int32(first.width) && Int32(first.height) && Int32(second.width) && Int32(second.height)
      modifies this`currentCodec, this`capturing, this`captureThread, this`frameCount, encoder,
               server`sent, server`welcome
      ensures Valid()
      ensures codec == old(currentCodec) ==>
        unchanged(this) && unchanged(encoder) && unchanged(server`sent, server`welcome)
      ensures codec != old(currentCodec) ==> currentCodec == codec
      ensures codec != old(currentCodec) && !old(capturing) ==>
        unchanged(this`capturing, this`captureThread, this`frameCount) &&
        unchanged(encoder) && unchanged(server`sent, server`welcome)
      ensures codec != old(currentCodec) && old(capturing) ==>
        var s1 := Starts(codec, first);
        StartedFrom(second,
                    if s1 then first.thread else Stopped(old(captureThread)),
                    if s1 then 0 else old(frameCount),
                    old(server.sent) +
                      (if s1 then Network.Deliveries(server.clients, ConfigFrame(first.width, first.height, codec)) else []),
                    if s1 then ConfigText(first.width, first.height, codec) else old(server.welcome))
    {
      if currentCodec == codec {
        return;
      }
      currentCodec := codec;
      var wasCapturing := capturing;
      if wasCapturing {
        StopCapture();
      }
      if wasCapturing {
        StartCapture(first);
      }
      if wasCapturing {
        StartCapture(second);
      }
    }

    /** One frame message: header, meta byte, frame and magic, broadcast to every upgraded client. */
    method SendFrame(isKey: bool, frame: FrameBytes)
      modifies server`sent
      ensures server.sent == old(server.sent) + Network.Deliveries(server.clients, FrameMessage(isKey, frame))
    {
      var headerBuf := new Byte[16];
      var headerLen := NetworkUtils.MakeWebSocketHeader(1 + |frame| + 4, headerBuf, 0x02);
      var meta := if isKey then 0x01 else 0x00;
      server.Broadcast(headerBuf[..headerLen], [meta] + frame + MAGIC);
    }

    /**
     * The packet loop of one encoded iteration: every frame packet is broadcast as a frame
     * message, and a key frame packet refreshes the last keyframe time.
     */
    method BroadcastPackets(packets: seq<EncodedPacket>, lastKey: int) returns (newKey: int)
        modifies server`sent
      ensures newKey == KeyTimeAfter(lastKey, packets)
      ensures server.sent == old(server.sent) + Broadcasts(server.clients, PacketMessages(packets))
    {
      newKey := lastKey;
      ghost var cs := server.clients;
      var j := 0;
      while j < |packets|
        invariant 0 <= j <= |packets|
        invariant server.clients == cs
        invariant KeyTimeAfter(newKey, packets[j..]) == KeyTimeAfter(lastKey, packets)
        invariant server.sent + Broadcasts(cs, PacketMessages(packets[j..])) ==
          old(server.sent) + Broadcasts(cs, PacketMessages(packets))
      {
        var p := packets[j];
        ghost var sentBefore := server.sent;
        ghost var here := if p.isFrame then Network.Deliveries(cs, FrameMessage(p.isKey, p.frame)) else [];
        ghost var later := Broadcasts(cs, PacketMessages(packets[j + 1..]));
        PacketStep(cs, packets, j);
        if p.isFrame {
          if p.isKey {
            newKey := p.time;
          }
          SendFrame(p.isKey, p.frame);
        }
        assert server.sent == sentBefore + here;
        SeqAssoc(sentBefore, here, later);
        j := j + 1;
      }
    }

    /**
     * The body of one _CaptureLoop iteration: sleep until the deadline (never a negative
     * time), take the next pts even when the capture fails or is not connected; then a
     * failed or disconnected capture is skipped, and otherwise Encode is asked for a frame,
     * with a keyframe forced when the last key packet is over 60 s old, and an encoded
     * frame's packets are broadcast.
     */
    method CaptureTick(t: Tick, next: int, lastKey: int)
      returns (waitTime: int, newKey: int, request: Option<(int, bool)>)
        modifies this`frameCount, server`sent
      ensures waitTime == SleepTime(next, t.now)
      ensures frameCount == old(frameCount) + 1
      ensures newKey == TickKeyTime(lastKey, t)
      ensures request == if Processed(t) then Some((old(frameCount), t.checkTime - lastKey > KEYFRAME_INTERVAL)) else None
      ensures server.sent == old(server.sent) + Broadcasts(server.clients, TickMessages(t))
    {
      waitTime := next - t.now;
      if waitTime < 0 {
        waitTime := 0;
      }
      var pts := frameCount;
      frameCount := frameCount + 1;
      newKey := lastKey;
      if !t.captured || !t.connected {
        return waitTime, newKey, None;
      }
      var forceKeyframe := t.checkTime - lastKey > KEYFRAME_INTERVAL;
      request := Some((pts, forceKeyframe));
      if t.encoded {
        newKey := BroadcastPackets(t.packets, lastKey);
      }
    }

    /**
     * _CaptureLoop over the iterations that ran. Each one sleeps until its deadline (never a
     * negative time), moves the deadline on by the frame wait, and takes the next pts even
     * when the capture fails or is not connected, before the rest of its body. The
     * late-schedule reset of the source tests the wait after it was set to 0, so it never
     * fires and has no counterpart here.
     */
    method CaptureLoop(startKey: int, startNext: int, ticks: seq<Tick>)
      returns (waits: seq<int>, requests: seq<(int, bool)>)
        modifies this`frameCount, server`sent
      ensures frameCount == old(frameCount) + |ticks|
      ensures waits == SleepTimes(startNext, frameWaitTime, ticks)
      ensures requests == Requests(ticks, old(frameCount), startKey)
      ensures server.sent == old(server.sent) + Broadcasts(server.clients, Messages(ticks))
    {
      var lastKey := startKey;
      var next := startNext;
      ghost var cs := server.clients;
      ghost var base := frameCount;
      ghost var allRequests := Requests(ticks, base, startKey);
      ghost var allSent := server.sent + Broadcasts(cs, Messages(ticks));
      ghost var allWaits := SleepTimes(startNext, frameWaitTime, ticks);
      var wait := frameWaitTime;
      waits := [];
      requests := [];
      var k := 0;
      while k < |ticks|
        invariant 0 <= k <= |ticks|
        invariant server.clients == cs && frameWaitTime == wait
        invariant frameCount == base + k
        invariant waits + SleepTimes(next, wait, ticks[k..]) == allWaits
        invariant requests + Requests(ticks[k..], frameCount, lastKey) == allRequests
        invariant server.sent + Broadcasts(cs, Messages(ticks[k..])) == allSent
      {
        var t := ticks[k];
        ghost var pts := frameCount;
        ghost var keyBefore := lastKey;
        ghost var requestsBefore := requests;
        SentStep(cs, ticks, k, server.sent, allSent);
        WaitsStep(ticks, k, next, wait, waits, allWaits);
        var waitTime, request;
        waitTime, lastKey, request := CaptureTick(t, next, lastKey);
        RequestsStep(ticks, k, pts, keyBefore, request, requestsBefore, allRequests);
        waits := waits + [waitTime];
        next := next + frameWaitTime;
        if request.Some? {
          requests := requests + [request.value];
        }
        k := k + 1;
      }
      assert ticks[k..] == [];
    }
  }

  /** The mode _ChangeResolution switches to, if any: none when it gives up or is already there. */
  function Target(screenValid: bool, modeList: Option<seq<Mode>>, width: int, height: int, current: Mode): Option<Mode>
  {
    if !screenValid || modeList.None? then None
    else
      var i := BestIndex(modeList.value, width, height);
      if i < 0 || modeList.value[i] == current then None else Some(modeList.value[i])
  }

  /**
   * The search loop of _ChangeResolution: stop at an exact match, otherwise keep the first
   * mode strictly closer than the best so far, starting from INT32_MAX.
   */
  method SelectMode(modes: seq<Mode>, width: int, height: int) returns (bestIndex: int)
    ensures bestIndex == BestIndex(modes, width, height)
    ensures EarliestClosest(modes, width, height, bestIndex)
  {
    var bestDiff := NO_DIFF;
    bestIndex := -1;
    var i := 0;
    while i < |modes|
      invariant 0 <= i <= |modes|
      invariant bestIndex == BestIndex(modes[..i], width, height)
      invariant bestDiff == if bestIndex < 0 then NO_DIFF else Distance(modes[bestIndex], width, height)
      invariant forall k :: 0 <= k < i ==> modes[k] != Mode(width, height)
    {
      var w := modes[i].width;
      var h := modes[i].height;
      if w == width && h == height {
        bestIndex := i;
        ExactMatchChosen(modes, width, height, i);
        BestIndexIsEarliestClosest(modes, width, height);
        return;
      }
      var diff := Abs(w - width) + Abs(h - height);
      assert modes[..i + 1][..i] == modes[..i];
      if diff < bestDiff {
        bestDiff := diff;
        bestIndex := i;
      }
      i := i + 1;
    }
    assert modes[..i] == modes;
    BestIndexIsEarliestClosest(modes, width, height);
  }
}
