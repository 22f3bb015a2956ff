/**
 * VideoEncoder: the B_RGB32 to YUV 4:2:0 conversion that feeds the codec, and the encoder's
 * session flags. The codec libraries (libvpx, x264) are foreign: whether each of their calls
 * succeeds, and what they report, are parameters.
 *
 * Screen and picture buffers are row-major with a stride; they appear as two-dimensional
 * arrays whose second dimension is the stride in bytes (screen) or in samples (planes).
 */
module Video {
  import opened Bytes

  /** `n >> 8` on a two's-complement int: floor division by 256 (Dafny's / rounds down here). */
  function Shr8(n: int): (q: int)
    ensures q * 256 <= n < q * 256 + 256
  {
    n / 256
  }

  /** Luma of one pixel, the integer form of the BT.601 limited-range weights. */
  function Luma(b: Byte, g: Byte, r: Byte): (y: int)
    ensures 16 <= y <= 235
  {
    Shr8(66 * r + 129 * g + 25 * b + 128) + 16
  }

  /** Blue-difference chroma (the U plane). */
  function Cb(b: Byte, g: Byte, r: Byte): (u: int)
    ensures 16 <= u <= 240
  {
    Shr8(-38 * r - 74 * g + 112 * b + 128) + 128
  }

  /** Red-difference chroma (the V plane). */
  function Cr(b: Byte, g: Byte, r: Byte): (v: int)
    ensures 16 <= v <= 240
  {
    Shr8(112 * r - 94 * g - 18 * b + 128) + 128
  }

  /** Black and white reach the two ends of the luma range. */
  lemma LumaExtremes()
    ensures Luma(0, 0, 0) == 16 && Luma(255, 255, 255) == 235
  {
  }

  /** A grey pixel (equal components) has neutral chroma: the weights of each difference sum to zero. */
  lemma GreyHasNoChroma(c: Byte)
    ensures Cb(c, c, c) == 128 && Cr(c, c, c) == 128
  {
  }

  /** Chroma reaches both ends of its range, at pure blue and at pure red. */
  lemma ChromaExtremes()
    ensures Cb(255, 0, 0) == 240 && Cr(255, 0, 0) == 110
    ensures Cr(0, 0, 255) == 240 && Cb(0, 0, 255) == 90
    ensures Cb(0, 255, 255) == 16 && Cr(255, 255, 0) == 16
  {
  }

  /** _mm_packus_epi32: a signed 32-bit lane saturated to unsigned 16 bits. */
  function PackUs32(v: int): int
  {
    if v < 0 then 0 else if v > 65535 then 65535 else v
  }

  /** _mm_add_epi16: a 16-bit lane addition that wraps. */
  function Add16(a: int, b: int): int
  {
    (a + b) % 65536
  }

  /** _mm_packus_epi16: a 16-bit lane read as signed and saturated to unsigned 8 bits. */
  function PackUs16(v: int): int
    requires 0 <= v < 65536
  {
    var s := if v >= 32768 then v - 65536 else v;
    if s < 0 then 0 else if s > 255 then 255 else s
  }

  /**
   * One lane of the vector luma path: _mm_madd_epi16 forms B*25 + G*129 and R*66 + A*0, the
   * horizontal add sums them, 128 is added, the logical shift drops 8 bits, and the two packs
   * and the 16-bit add of 16 narrow the lane to a byte. Every intermediate is in range, so
   * no saturation or wrap happens and the lane equals the scalar formula.
   */
  function VectorLuma(b: Byte, g: Byte, r: Byte, a: Byte): (y: Byte)
    ensures y == Luma(b, g, r)
  {
    var sum := (b * 25 + g * 129) + (r * 66 + a * 0) + 128;
    PackUs16(Add16(PackUs32(sum / 256), 16))
  }

  /** The components of pixel x of row y: B, G, R at byte offsets 0, 1, 2 of its 4 bytes. */
  function LumaAt(rgb: array2<Byte>, y: nat, x: nat): (v: int)
    reads rgb
    requires y < rgb.Length0 && 4 * x + 3 < rgb.Length1
    ensures 16 <= v <= 235
  {
    Luma(rgb[y, 4 * x], rgb[y, 4 * x + 1], rgb[y, 4 * x + 2])
  }

  function CbAt(rgb: array2<Byte>, y: nat, x: nat): (v: int)
    reads rgb
    requires y < rgb.Length0 && 4 * x + 3 < rgb.Length1
    ensures 16 <= v <= 240
  {
    Cb(rgb[y, 4 * x], rgb[y, 4 * x + 1], rgb[y, 4 * x + 2])
  }

  function CrAt(rgb: array2<Byte>, y: nat, x: nat): (v: int)
    reads rgb
    requires y < rgb.Length0 && 4 * x + 3 < rgb.Length1
    ensures 16 <= v <= 240
  {
    Cr(rgb[y, 4 * x], rgb[y, 4 * x + 1], rgb[y, 4 * x + 2])
  }

  /**
   * The luma of one row: eight pixels at a time while eight remain, then one at a time.
   * vectorEnd is where the vector part stopped: the largest multiple of 8 not above width.
   */
  method LumaRow(rgb: array2<Byte>, y: nat, width: nat, yPlane: array2<Byte>) returns (vectorEnd: nat)
    requires rgb != yPlane
    requires y < rgb.Length0 && 4 * width <= rgb.Length1
    requires y < yPlane.Length0 && width <= yPlane.Length1
    modifies yPlane
    ensures vectorEnd == width - width % 8
    ensures forall x :: 0 <= x < width ==> yPlane[y, x] == LumaAt(rgb, y, x)
    ensures forall r, c :: 0 <= r < yPlane.Length0 && 0 <= c < yPlane.Length1 && !(r == y && c < width) ==>
      yPlane[r, c] == old(yPlane[r, c])
  {
    var x := 0;
    while x < width - 7
      invariant 0 <= x <= width && x % 8 == 0
      invariant forall c :: 0 <= c < x ==> yPlane[y, c] == LumaAt(rgb, y, c)
      invariant forall r, c :: 0 <= r < yPlane.Length0 && 0 <= c < yPlane.Length1 && !(r == y && c < x) ==>
        yPlane[r, c] == old(yPlane[r, c])
    {
      forall k | x <= k < x + 8 {
        yPlane[y, k] := VectorLuma(rgb[y, 4 * k], rgb[y, 4 * k + 1], rgb[y, 4 * k + 2], rgb[y, 4 * k + 3]);
      }
      x := x + 8;
    }
    vectorEnd := x;
    while x < width
      invariant vectorEnd <= x <= width
      invariant forall c :: 0 <= c < x ==> yPlane[y, c] == LumaAt(rgb, y, c)
      invariant forall r, c :: 0 <= r < yPlane.Length0 && 0 <= c < yPlane.Length1 && !(r == y && c < x) ==>
        yPlane[r, c] == old(yPlane[r, c])
    {
      yPlane[y, x] := Luma(rgb[y, 4 * x], rgb[y, 4 * x + 1], rgb[y, 4 * x + 2]);
      x := x + 1;
    }
  }

  /**
   * The chroma of an even row y: for every even column cx, U and V of pixel (cx, y) alone (no
   * averaging with its neighbours) go to sample cx / 2 of chroma row y / 2.
   */
  method ChromaRow(rgb: array2<Byte>, y: nat, width: nat, uPlane: array2<Byte>, vPlane: array2<Byte>)
    requires rgb != uPlane && rgb != vPlane && uPlane != vPlane
    requires y % 2 == 0 && y < rgb.Length0 && 4 * width <= rgb.Length1
    requires y / 2 < uPlane.Length0 && (width + 1) / 2 <= uPlane.Length1
    requires y / 2 < vPlane.Length0 && (width + 1) / 2 <= vPlane.Length1
    modifies uPlane, vPlane
    ensures forall c :: 0 <= c < (width + 1) / 2 ==>
      uPlane[y / 2, c] == CbAt(rgb, y, 2 * c) && vPlane[y / 2, c] == CrAt(rgb, y, 2 * c)
    ensures forall r, c :: 0 <= r < uPlane.Length0 && 0 <= c < uPlane.Length1 && !(r == y / 2 && c < (width + 1) / 2) ==>
      uPlane[r, c] == old(uPlane[r, c])
    ensures forall r, c :: 0 <= r < vPlane.Length0 && 0 <= c < vPlane.Length1 && !(r == y / 2 && c < (width + 1) / 2) ==>
      vPlane[r, c] == old(vPlane[r, c])
  {
    var cy := y / 2;
    var cx := 0;
    while cx < width
      invariant cx % 2 == 0 && 0 <= cx <= width + 1
      invariant forall c :: 0 <= c < cx / 2 ==>
        uPlane[cy, c] == CbAt(rgb, y, 2 * c) && vPlane[cy, c] == CrAt(rgb, y, 2 * c)
      invariant forall r, c :: 0 <= r < uPlane.Length0 && 0 <= c < uPlane.Length1 && !(r == cy && c < cx / 2) ==>
        uPlane[r, c] == old(uPlane[r, c])
      invariant forall r, c :: 0 <= r < vPlane.Length0 && 0 <= c < vPlane.Length1 && !(r == cy && c < cx / 2) ==>
        vPlane[r, c] == old(vPlane[r, c])
    {
      uPlane[cy, cx / 2] := Cb(rgb[y, 4 * cx], rgb[y, 4 * cx + 1], rgb[y, 4 * cx + 2]);
      vPlane[cy, cx / 2] := Cr(rgb[y, 4 * cx], rgb[y, 4 * cx + 1], rgb[y, 4 * cx + 2]);
      cx := cx + 2;
    }
  }

  /**
   * _RGBToYUV420 (and its copy _RGBToYUV420_X264, which differs only in where the planes
   * live): every pixel gets its luma, and every even row and even column its chroma, so the
   * chroma planes hold ceil(width / 2) x ceil(height / 2) samples. Nothing else is written.
   */
  method RgbToYuv420(rgb: array2<Byte>, width: nat, height: nat,
                     yPlane: array2<Byte>, uPlane: array2<Byte>, vPlane: array2<Byte>)
    requires rgb != yPlane && rgb != uPlane && rgb != vPlane
    requires yPlane != uPlane && yPlane != vPlane && uPlane != vPlane
    requires height <= rgb.Length0 && 4 * width <= rgb.Length1
    requires height <= yPlane.Length0 && width <= yPlane.Length1
    requires (height + 1) / 2 <= uPlane.Length0 && (width + 1) / 2 <= uPlane.Length1
    requires (height + 1) / 2 <= vPlane.Length0 && (width + 1) / 2 <= vPlane.Length1
    modifies yPlane, uPlane, vPlane
    ensures forall y, x :: 0 <= y < height && 0 <= x < width ==> yPlane[y, x] == LumaAt(rgb, y, x)
    ensures forall r, c :: 0 <= r < (height + 1) / 2 && 0 <= c < (width + 1) / 2 ==>
      uPlane[r, c] == CbAt(rgb, 2 * r, 2 * c) && vPlane[r, c] == CrAt(rgb, 2 * r, 2 * c)
    ensures forall r, c :: 0 <= r < yPlane.Length0 && 0 <= c < yPlane.Length1 && !(r < height && c < width) ==>
      yPlane[r, c] == old(yPlane[r, c])
    ensures forall r, c :: 0 <= r < uPlane.Length0 && 0 <= c < uPlane.Length1 && !(r < (height + 1) / 2 && c < (width + 1) / 2) ==>
      uPlane[r, c] == old(uPlane[r, c])
    ensures forall r, c :: 0 <= r < vPlane.Length0 && 0 <= c < vPlane.Length1 && !(r < (height + 1) / 2 && c < (width + 1) / 2) ==>
      vPlane[r, c] == old(vPlane[r, c])
  {
    var y := 0;
    while y < height
      invariant 0 <= y <= height
      invariant forall r, x :: 0 <= r < y && 0 <= x < width ==> yPlane[r, x] == LumaAt(rgb, r, x)
      invariant forall r, c :: 0 <= r < (y + 1) / 2 && 0 <= c < (width + 1) / 2 ==>
        uPlane[r, c] == CbAt(rgb, 2 * r, 2 * c) && vPlane[r, c] == CrAt(rgb, 2 * r, 2 * c)
      invariant forall r, c :: 0 <= r < yPlane.Length0 && 0 <= c < yPlane.Length1 && !(r < y && c < width) ==>
        yPlane[r, c] == old(yPlane[r, c])
      invariant forall r, c :: 0 <= r < uPlane.Length0 && 0 <= c < uPlane.Length1 && !(r < (y + 1) / 2 && c < (width + 1) / 2) ==>
        uPlane[r, c] == old(uPlane[r, c])
      invariant forall r, c :: 0 <= r < vPlane.Length0 && 0 <= c < vPlane.Length1 && !(r < (y + 1) / 2 && c < (width + 1) / 2) ==>
        vPlane[r, c] == old(vPlane[r, c])
    {
      var _ := LumaRow(rgb, y, width, yPlane);
      if y % 2 == 0 {
        ChromaRow(rgb, y, width, uPlane, vPlane);
      }
      y := y + 1;
    }
  }

  /** The status codes the encoder returns. */
  datatype Status = Ok | NoMemory | Error | NoInit

  datatype Codec = H264 | Vp8 | Vp9

  /** The codec a name selects: "h264" is x264, "vp8" and "vp9" are libvpx, anything else none. */
  function CodecOf(name: string): Option<Codec>
  {
    if name == "h264" then Some(H264)
    else if name == "vp8" then Some(Vp8)
    else if name == "vp9" then Some(Vp9)
    else None
  }

  /**
   * Whether each library call of Init succeeds: for x264 the picture allocation and the
   * encoder open; for libvpx the default configuration, the codec init and the image allocation.
   */
  datatype InitOutcome = InitOutcome(pictureAlloc: bool, encoderOpen: bool,
                                     configDefault: bool, codecInit: bool, imageAlloc: bool)

  /** What Init returns: out of memory when an allocation fails, an error for any other failure. */
  function InitStatus(name: string, o: InitOutcome): Status
  {
    match CodecOf(name)
    case None => Error
    case Some(H264) =>
      if !o.pictureAlloc then NoMemory else if !o.encoderOpen then Error else Ok
    case Some(_) =>
      if !o.configDefault then Error else if !o.codecInit then Error
      else if !o.imageAlloc then NoMemory else Ok
  }

  /** Whether Init gets as far as writing width, height and bitrate into the codec configuration. */
  predicate Configures(name: string, o: InitOutcome)
  {
    CodecOf(name) == Some(H264) || (CodecOf(name).Some? && o.configDefault)
  }

  /**
   * Init succeeds only for the three known names, and then exactly when every library call
   * succeeds; an unknown name fails whatever the libraries would do.
   */
  lemma InitStatusOk(name: string, o: InitOutcome)
    ensures InitStatus(name, o) == Ok <==>
      (name == "h264" && o.pictureAlloc && o.encoderOpen) ||
      ((name == "vp8" || name == "vp9") && o.configDefault && o.codecInit && o.imageAlloc)
    ensures CodecOf(name).None? ==> InitStatus(name, o) == Error
  {
  }

  /** The packet x264 produced: frame size, key flag and presentation time. */
  datatype EncodedPacket = EncodedPacket(size: int, key: bool, pts: int)

  /** What the codec library reports for one Encode call. */
  datatype EncodeRun = EncodeRun(frameSize: int, keyframe: bool, outPts: int, vpxOk: bool)

  class VideoEncoder {
    var initialized: bool
    var codecName: string
    /** fX264Codec is not null: an x264 session is open. */
    var x264Open: bool
    /** Width, height and target bitrate in the active codec configuration. */
    var width: int
    var height: int
    var bitrate: int
    /** 1 while the x264 packet of the last Encode has not been handed out. */
    var currentNal: int
    var fakePacket: EncodedPacket

    /** An x264 session exists only while the encoder is initialised. */
    ghost predicate Valid()
      reads this
    {
      x264Open ==> initialized
    }

    /** A fresh encoder is not initialised and names "vp8"; fCurrentNal is left unset. */
    constructor()
      ensures Valid() && !initialized && !x264Open && codecName == "vp8"
    {
      initialized := false;
      codecName := "vp8";
      x264Open := false;
    }

    /**
     * Init: any previous session is torn down and the flag cleared first; the name is stored
     * even when it is unknown or a library call fails; the flag is set only on success.
     * fCurrentNal and the last packet are left as they were.
     */
    method Init(w: int, h: int, bitrateKbps: int, codec: string, o: InitOutcome) returns (s: Status)
      requires Valid()
      modifies this`initialized, this`codecName, this`x264Open, this`width, this`height, this`bitrate
      ensures Valid()
      ensures s == InitStatus(codec, o)
      ensures codecName == codec
      ensures initialized <==> s == Ok
      ensures x264Open <==> s == Ok && CodecOf(codec) == Some(H264)
      ensures Configures(codec, o) ==> width == w && height == h && bitrate == bitrateKbps
      ensures !Configures(codec, o) ==> unchanged(this`width, this`height, this`bitrate)
    {
      if initialized {
        x264Open := false;
        initialized := false;
      }
      codecName := codec;
      if codec == "h264" {
        width, height, bitrate := w, h, bitrateKbps;
        if !o.pictureAlloc {
          return NoMemory;
        }
        if !o.encoderOpen {
          return Error;
        }
        x264Open := true;
        initialized := true;
        return Ok;
      }
      if codec != "vp8" && codec != "vp9" {
        return Error;
      }
      if !o.configDefault {
        return Error;
      }
      width, height, bitrate := w, h, bitrateKbps;
      if !o.codecInit {
        return Error;
      }
      if !o.imageAlloc {
        return NoMemory;
      }
      initialized := true;
      return Ok;
    }

    /** SetBitrate: before Init nothing changes; afterwards the active configuration takes kbps. */
    method SetBitrate(kbps: int)
      modifies this`bitrate
      ensures bitrate == if initialized then kbps else old(bitrate)
    {
      if !initialized {
        return;
      }
      bitrate := kbps;
    }

    /**
     * Encode: without a session or without screen bits it refuses. Otherwise the frame goes
     * to the codec with its pts and a keyframe request (request). With x264, a negative size
     * is an error that leaves the pending packet alone, a positive size makes one packet
     * pending, and zero leaves none; with libvpx the status is the library's.
     */
    method Encode(hasBits: bool, pts: int, forceKeyframe: bool, run: EncodeRun)
      returns (s: Status, request: Option<(int, bool)>)
      modifies this`currentNal, this`fakePacket
      ensures !initialized || !hasBits ==>
        s == NoInit && request == None && unchanged(this`currentNal, this`fakePacket)
      ensures initialized && hasBits ==> request == Some((pts, forceKeyframe))
      ensures initialized && hasBits && x264Open ==>
        (run.frameSize < 0 ==> s == Error && unchanged(this`currentNal, this`fakePacket)) &&
        (run.frameSize > 0 ==>
           s == Ok && currentNal == 1 && fakePacket == EncodedPacket(run.frameSize, run.keyframe, run.outPts)) &&
        (run.frameSize == 0 ==> s == Ok && currentNal == 0 && unchanged(this`fakePacket))
      ensures initialized && hasBits && !x264Open ==>
        s == (if run.vpxOk then Ok else Error) && unchanged(this`currentNal, this`fakePacket)
    {
      if !initialized || !hasBits {
        return NoInit, None;
      }
      request := Some((pts, forceKeyframe));
      if x264Open {
        if run.frameSize < 0 {
          return Error, request;
        }
        if run.frameSize > 0 {
          fakePacket := EncodedPacket(run.frameSize, run.keyframe, run.outPts);
          currentNal := 1;
        } else {
          currentNal := 0;
        }
        return Ok, request;
      }
      s := if run.vpxOk then Ok else Error;
    }

    /**
     * GetNextPacket: with x264 the pending packet is handed out once and then null; with
     * libvpx the packet comes from the library's iterator (vpxPacket).
     */
    method GetNextPacket(vpxPacket: Option<EncodedPacket>) returns (p: Option<EncodedPacket>)
      modifies this`currentNal
      ensures x264Open && old(currentNal) == 1 ==> p == Some(fakePacket) && currentNal == 0
      ensures x264Open && old(currentNal) != 1 ==> p == None && currentNal == old(currentNal)
      ensures !x264Open ==> p == vpxPacket && currentNal == old(currentNal)
    {
      if x264Open {
        if currentNal == 1 {
          currentNal := 0;
          return Some(fakePacket);
        }
        return None;
      }
      return vpxPacket;
    }
  }
}
