# HaikuRemoteDesktop server core in Dafny

HaikuRemoteDesktop streams the Haiku desktop to a browser and feeds the browser's mouse and
keyboard back into the system. This project models the server side of that loop. It covers the
following parts:

- **Network.** The TLS/WebSocket `NetworkServer` keeps a list of client states. Each state holds
  its handshake flag, its upgrade flag and a receive buffer. A client first sends HTTP: the
  server answers with static files or with the WebSocket upgrade. After the upgrade, the client
  sends binary frames that are dispatched as input events. The server broadcasts frames to every
  upgraded client and counts them; when the last one leaves it notifies the application.
- **WebSocket framing.** Server frame headers (`NetworkUtils::MakeWebSocketHeader`), the frame
  parser (`_ParseWebSocketFrame`) with masking, and the drain loop that takes every complete
  frame out of a client's buffer.
- **HTTP.** Line splitting and header scanning, routing (upgrade, query stripping, traversal
  rejection, the default index, MIME types) and the upgrade response.
- **Input handlers.** The packet-handler factory. The ping handler with its congestion control
  (back off 20 % above 150 ms, grow 5 % below 50 ms, always within 500–8000 kbps) and its pong
  frame. The key handler with its browser-code→Haiku-scancode table.
- **Input driver.** `VirtualMouse` turns an `input_packet` into button transitions with click
  counting, or into a key message with Ctrl mapping and UTF-8 encoding.
- **Screen application.** `ScreenApp` covers FPS clamping, the choice of the closest display
  mode, capture start/stop/restart, the init config message, and the capture loop's absolute
  schedule, keyframe forcing and frame messages.
- **Encoder and ring buffer.** `VideoEncoder` covers codec selection, the bitrate, the x264 fake
  packet and the RGB→YUV 4:2:0 conversion. `RingBuffer` is the shared-memory ring writer.

Sockets, TLS, the display, threads and the codecs themselves are outside the model. Their
results enter as parameters (a handshake outcome, received bytes, the set of files that exist,
an encoder outcome, a clock reading). What the server writes (frames, pongs, the 101 and 404
replies) is recorded as a sequence of `(socket, bytes)` writes, and what it posts to the
application as a sequence of signals.

All integers are unbounded. Where the source's fixed width matters, the model mostly states it
explicitly: a 64-bit length is `< 2^64`, and `int32` values satisfy `Int32`. The exceptions are
listed under "## Left out" (the frame counter and the mode distance).

## Model

| member | source | states |
|---|---|---|
| Bytes.BeBytes | src/UserlandServer/NetworkUtils.cpp:59-62 | the big-endian encoding written for an n-byte length field has exactly n bytes |
| Bytes.BeRoundTrip | src/UserlandServer/NetworkUtils.cpp:56-63 | reading back the big-endian bytes written for any v < 256^n gives v (the writer's loop and the parser's loop at NetworkServer.cpp 588-592 are inverse) |
| Bytes.BeValueBound | src/UserlandServer/NetworkServer.cpp:588-592 | a big-endian value read from n bytes is below 256^n |
| Bytes.BeValuePair | src/UserlandServer/NetworkServer.cpp:580-585 | a two-byte big-endian length is 256·hi + lo |
| Bytes.XorBits | src/UserlandServer/NetworkServer.cpp:613 | the exclusive or of the low n bits of two numbers is below 2^n, so the xor of two bytes is a byte |
| Bytes.XorInvolutive | src/UserlandServer/NetworkServer.cpp:611-615 | xor-ing a byte twice with the same mask byte restores it |
| NetworkUtils.HeaderSize | src/UserlandServer/NetworkUtils.cpp:41-65 | the header is 2, 4 or 10 bytes: 2 exactly for lengths below 126 and 10 exactly for lengths of 65536 or more |
| NetworkUtils.Header | src/UserlandServer/NetworkUtils.cpp:41-65 | FIN set, RSV clear, the opcode's low nibble, MASK clear, and the length in 7 bits, 16-bit big endian after 126, or 64-bit big endian after 127 |
| NetworkUtils.MakeWebSocketHeader | src/UserlandServer/NetworkUtils.cpp:41-65 | writes exactly `Header(payloadLen, opcode)` into the buffer's first n bytes, returns n, and leaves the rest of the buffer unchanged |
| Handlers.Serves | src/UserlandServer/handlers/PacketHandlerFactory.cpp:22-39 | every handler serves one of the seven known event types |
| Handlers.GetHandlerInverse | src/UserlandServer/handlers/PacketHandlerFactory.cpp:13-43 | the factory returns handler h for type t exactly when h serves t, and returns no handler exactly for unknown types |
| Handlers.GetHandlerInjective | src/UserlandServer/handlers/PacketHandlerFactory.cpp:22-42 | two types that get the same handler are the same type |
| Ring.Pos | src/UserlandServer/RingBuffer.cpp:25-35 | the position of the i-th written byte is inside the ring |
| Ring.PosIsMod | src/UserlandServer/RingBuffer.cpp:25-35 | that position is (start + i) mod size |
| Ring.Offset | src/UserlandServer/RingBuffer.cpp:25-35 | every cell of the ring is the position of exactly one offset from the start (the inverse of Pos) |
| Ring.Overlay | src/UserlandServer/RingBuffer.cpp:18-43 | after a write, the i-th data byte sits at position Pos(start, i), and every cell beyond the written length keeps its old byte |
| Ring.Window | src/UserlandServer/RingBuffer.cpp:18-43 | reading len bytes from an offset with wrap-around gives len bytes |
| Ring.ReadBack | src/UserlandServer/RingBuffer.cpp:18-43 | reading back the written length from the returned start offset gives exactly the data written |
| Ring.OutsideWindow | src/UserlandServer/RingBuffer.cpp:18-43 | a write leaves the rest of the ring, read from the new head, as it was |
| Ring.ConsecutiveWrites | src/UserlandServer/RingBuffer.cpp:36-39 | a second write starting at the head left by the first makes the two writes contiguous: reading from the first start gives d1 + d2 |
| Ring.SplitCopy | src/UserlandServer/RingBuffer.cpp:25-35 | the two memcpy calls (the first part up to the end, the second from position 0) together are the wrapped overlay |
| Ring.RingBuffer.constructor | src/UserlandServer/RingBuffer.cpp:8-11 | the ring starts over the caller's memory with its head at 0 |
| Ring.RingBuffer.Write | src/UserlandServer/RingBuffer.cpp:18-43 | returns the old head; the memory becomes the wrapped overlay of the data; the head moves to (start + len) mod size; the i-th byte is at (start + i) mod size |
| Ping.TruncDiv | src/UserlandServer/handlers/PingPacketHandler.cpp:24 | integer division truncating toward zero, as a C cast of a product does |
| Ping.AdjustBounds | src/UserlandServer/handlers/PingPacketHandler.cpp:18-32 | starting in [500, 8000], the new bitrate stays in [500, 8000]; it never grows when RTT > 150, never shrinks when RTT < 50, and is unchanged in between |
| Ping.AdjustReachesLimits | src/UserlandServer/handlers/PingPacketHandler.cpp:22-30 | backing off from 625 or less lands on the 500 floor; growing from 7620 or more lands on the 8000 ceiling |
| Ping.BitrateStaysInRange | src/UserlandServer/handlers/PingPacketHandler.cpp:18-32 | after any sequence of pings, a bitrate that started in range is still in [500, 8000] |
| Ping.InitialBitrateInRange | src/UserlandServer/NetworkServer.cpp:28 | from the server's initial 2000 kbps, every ping sequence keeps the bitrate in [500, 8000] |
| Ping.PongHeaderIsFrameHeader | src/UserlandServer/handlers/PingPacketHandler.cpp:70-84 | the handler's hand-built header exists exactly for sizes below 65536 and then equals the binary-frame header of MakeWebSocketHeader |
| Ping.PongDecodes | src/UserlandServer/handlers/PingPacketHandler.cpp:86-88 | the two writes of a pong, concatenated, decode as one complete unmasked binary frame carrying the event bytes |
| Ping.Handle | src/UserlandServer/handlers/PingPacketHandler.cpp:9-91 | without a ping nothing changes; with one, a non-negative RTT sets the adjusted bitrate, an update signal reaches the application exactly when it moved by more than 50 kbps and the target is valid, and the pong writes go to the client |
| WebSocket.UnmaskInvolutive | src/UserlandServer/NetworkServer.cpp:610-615 | unmasking twice with the same key restores the payload |
| WebSocket.ParseHeaderSize | src/UserlandServer/NetworkServer.cpp:566-601 | a parsed header fits in the buffer; its size is 2, 4 or 10 by the 7-bit length, plus 4 when masked |
| WebSocket.DecodeConsumed | src/UserlandServer/NetworkServer.cpp:604-625 | a complete frame consumes between 2 bytes and the whole buffer: the header plus the payload |
| WebSocket.DecodePayloadAt | src/UserlandServer/NetworkServer.cpp:607-615 | payload byte i is the buffer byte after the header, xor-ed with mask byte i mod 4 when the MASK bit is set |
| WebSocket.ParseHeaderExtend | src/UserlandServer/NetworkServer.cpp:566-601 | a header parsed from a prefix parses the same once more bytes arrive |
| WebSocket.DecodeExtend | src/UserlandServer/NetworkServer.cpp:560-626 | a complete frame decodes the same when more bytes follow it |
| WebSocket.DecodeWith | src/UserlandServer/NetworkServer.cpp:604-625 | given a header whose payload is present, the frame is the header's flags with the (unmasked) payload, and it consumes header plus payload |
| WebSocket.ParseServerHeader | src/UserlandServer/NetworkUtils.cpp:41-65 | the parser reads back a server header as FIN, the opcode, unmasked, the written length and the written size |
| WebSocket.RoundTrip | src/UserlandServer/NetworkServer.cpp:560-626 | a server header followed by its payload decodes to exactly that frame, whatever bytes follow |
| WebSocket.ParseClientHeader | src/UserlandServer/NetworkServer.cpp:573-601 | a header with the MASK bit and a 4-byte key parses as masked, with size 4 more than the unmasked header |
| WebSocket.MaskedRoundTrip | src/UserlandServer/NetworkServer.cpp:560-626 | a client frame (masked header, key, masked payload) decodes to the original payload |
| WebSocket.ReadFrameHeader | src/UserlandServer/NetworkServer.cpp:562-601 | the imperative header parse, including the big-endian loop, returns exactly the header the specification reads |
| WebSocket.UnmaskInPlace | src/UserlandServer/NetworkServer.cpp:611-615 | the in-place xor loop leaves the array equal to the unmasked payload |
| WebSocket.ParseWebSocketFrame | src/UserlandServer/NetworkServer.cpp:560-626 | returns exactly Decode of the buffer: incomplete while header or payload is missing, otherwise the frame and the bytes consumed |
| WebSocket.DrainFramesRest | src/UserlandServer/NetworkServer.cpp:316-324 | what the drain loop leaves is a suffix of the buffer that holds no complete frame |
| WebSocket.DrainFramesFirst | src/UserlandServer/NetworkServer.cpp:316-324 | the first drained frame is the one at the front, and the others are those drained from the bytes after it |
| WebSocket.DrainFramesFront | src/UserlandServer/NetworkServer.cpp:317-323 | one iteration: a complete frame at the front is dispatched, and draining continues on the bytes after it |
| WebSocket.WrappedLengthPassesCheck | src/UserlandServer/NetworkServer.cpp:604 | as written: for the frame 82 7F FF FF FF FF FF FF FF FF, `headerSize + payloadLen` wraps in size_t, so the check passes although the payload is missing (the model decodes it as incomplete) |
| WebSocket.CorrectedCheckMatchesDecode | src/UserlandServer/NetworkServer.cpp:604 | corrected: the check written as `bufferLen - headerSize < payloadLen` in size_t passes exactly when the frame is complete, for every buffer that fits in memory and every parsed header |
| WebSocket.CorrectedCheckRejectsWrappedFrame | src/UserlandServer/NetworkServer.cpp:604 | corrected: the frame 82 7F FF FF FF FF FF FF FF FF, which passes the check as written, is rejected by the corrected check |
| WebSocket.DecodeNeverOverreads | src/UserlandServer/NetworkServer.cpp:604-608 | corrected: a complete frame's header and payload always lie within the buffer |
| Network.CountWsAppend | src/UserlandServer/NetworkServer.cpp:27 | the WebSocket client count of a concatenation is the sum of the counts |
| Network.CountWsRemove | src/UserlandServer/NetworkServer.cpp:279-286 | removing a client lowers the count by one exactly when it was upgraded |
| Network.CountWsUpdate | src/UserlandServer/NetworkServer.cpp:433-434 | replacing a client changes the count by the change in its upgrade flag |
| Network.NoClientsExactlyAtZero | src/UserlandServer/NetworkServer.cpp:279-284 | removing an upgraded client empties the WebSocket set exactly when it was the only one |
| Network.HasHeaderTerminator | src/UserlandServer/NetworkServer.cpp:296-306 | the search loop reports true exactly when the buffer contains CR LF CR LF |
| Network.HeaderCompleteExtend | src/UserlandServer/NetworkServer.cpp:296-314 | once the terminator has arrived, more bytes do not remove it |
| Network.RequestTextBytes | src/UserlandServer/NetworkServer.cpp:309 | reading the received bytes as text and writing that text back as bytes gives the received bytes |
| Network.RequestText | src/UserlandServer/NetworkServer.cpp:309 | the request text has one character per buffer byte, with the byte's value |
| Network.BinaryPayloads | src/UserlandServer/NetworkServer.cpp:618-619 | no more payloads are dispatched than frames were drained |
| Network.BinaryPayloadsAppend | src/UserlandServer/NetworkServer.cpp:317-324 | dispatching two runs of frames dispatches the payloads of each, in order |
| Network.BinaryPayloadsExact | src/UserlandServer/NetworkServer.cpp:618-619 | a payload is dispatched exactly when some drained frame is final, binary and carries it |
| Network.DispatchOne | src/UserlandServer/NetworkServer.cpp:649-650 | a final binary frame appends its payload to the dispatched list; any other frame appends nothing |
| Network.DeliveriesCarryMessage | src/UserlandServer/NetworkServer.cpp:153-194 | a broadcast writes at most one copy per client, each is the full message, and each goes to an upgraded client whose handshake succeeded |
| Network.DeliveriesAppend | src/UserlandServer/NetworkServer.cpp:158-192 | broadcasting to two runs of clients writes to each run in order |
| Network.DeliveriesReachUpgraded | src/UserlandServer/NetworkServer.cpp:158-160 | when every upgraded client has finished its handshake, the broadcast reaches exactly as many clients as the WebSocket count |
| Network.WelcomeFrame | src/UserlandServer/NetworkServer.cpp:436-447 | nothing is sent for an empty welcome message; otherwise two writes to the client that decode as one complete text frame carrying the message |
| Network.NetworkServer.constructor | src/UserlandServer/NetworkServer.cpp:22-36 | no clients, a WebSocket count of 0, an initial bitrate of 2000 kbps, an invalid (default) target, nothing sent or signalled, no welcome message |
| Network.NetworkServer.AddClient | src/UserlandServer/NetworkServer.cpp:341-367 | a new client is appended, not yet handshaken or upgraded and with an empty buffer; nothing else changes |
| Network.NetworkServer.HandshakeStep | src/UserlandServer/NetworkServer.cpp:241-261 | success marks the client accepted, want-more keeps it, failure removes it; the WebSocket count is unchanged |
| Network.NetworkServer.Disconnect | src/UserlandServer/NetworkServer.cpp:268-287 | the client is removed, the count drops by one if it was upgraded, and NoClients is signalled exactly when that drop reaches 0 and the target is valid |
| Network.NetworkServer.DrainClient | src/UserlandServer/NetworkServer.cpp:315-325 | the client's buffer becomes what the drain loop leaves, and the payloads of the drained frames are dispatched in order |
| Network.NetworkServer.DrainBuffer | src/UserlandServer/NetworkServer.cpp:317-324 | the loop returns the drain's remainder and dispatches exactly the drained payloads |
| Network.NetworkServer.ParseHttpClient | src/UserlandServer/NetworkServer.cpp:369-539 | routes the buffered request; an upgrade writes the 101 response for the client's key followed by the welcome frame, marks the client, raises the count and signals ClientsConnected to a valid target; a 404 writes the not-found reply; anything but an upgrade asks for the connection to close and leaves the clients, the count and the signals alone |
| Network.NetworkServer.ClearBuffer | src/UserlandServer/NetworkServer.cpp:311-313 | the client's buffer is emptied and nothing else changes |
| Network.NetworkServer.RemoveClient | src/UserlandServer/NetworkServer.cpp:327-333 | a client that is not upgraded is dropped from the list |
| Network.NetworkServer.Receive | src/UserlandServer/NetworkServer.cpp:288-334 | received bytes are appended; an upgraded client's frames are drained and dispatched; an HTTP client waits for CR LF CR LF, then is upgraded (101 response and welcome frame written, buffer cleared) or closed and removed, after the not-found reply for a 404 |
| Network.NetworkServer.Broadcast | src/UserlandServer/NetworkServer.cpp:196-204 | header followed by data is written to every upgraded, handshaken client, in list order |
| Network.NetworkServer.SetWelcomeMessage | src/UserlandServer/NetworkServer.h:83-85 | the welcome message becomes the given bytes |
| Network.NetworkServer.Stop | src/UserlandServer/NetworkServer.cpp:133-151 | all clients are dropped and the WebSocket count is 0 |
| Network.NetworkServer.SendToClient | src/UserlandServer/NetworkServer.cpp:642-646 | the data is written only to a client whose handshake succeeded |
| Network.NetworkServer.SetBitrate | src/UserlandServer/NetworkServer.h:77 | the stored bitrate becomes the given value |
| Network.NetworkServer.SetTarget | src/UserlandServer/NetworkServer.cpp:75-78 | records whether the application target is valid |
| Network.NetworkServer.Notify | src/UserlandServer/NetworkServer.cpp:635-640 | the message is appended to what the application receives exactly when the target is valid |
| Http.IndexOf | src/UserlandServer/NetworkServer.cpp:379 | the first occurrence at or after a position, or -1 exactly when there is none |
| Http.RemoveCR | src/UserlandServer/NetworkServer.cpp:388 | the line keeps no carriage return and does not grow, and every other character stays, as often as it occurred |
| Http.RemoveCRKeeps | src/UserlandServer/NetworkServer.cpp:388 | a line without carriage returns is unchanged |
| Http.RemoveCRAppend | src/UserlandServer/NetworkServer.cpp:388 | removal distributes over concatenation, so the kept characters stay in their order |
| Http.ToLower | src/UserlandServer/NetworkServer.cpp:401-402 | the same length, with each character lower-cased |
| Http.TrimLeft | src/UserlandServer/NetworkServer.cpp:413 | removes exactly the leading white space: a suffix that starts with a non-space |
| Http.TrimRight | src/UserlandServer/NetworkServer.cpp:413 | removes exactly the trailing white space: a prefix that ends with a non-space |
| Http.IndexOfSuffix | src/UserlandServer/NetworkServer.cpp:418-419 | searching from a position is searching the suffix, shifted by that position |
| Http.LinesFrom | src/UserlandServer/NetworkServer.cpp:386-388 | from a position, either no newline remains and no lines follow, or the next line is the text up to the newline without CR |
| Http.LinesAdvance | src/UserlandServer/NetworkServer.cpp:386-420 | one iteration moves one line from the remaining text into the lines already read |
| Http.KeyHeaderColon | src/UserlandServer/NetworkServer.cpp:408-414 | a Sec-WebSocket-Key line always has a colon, so the key is always taken |
| Http.Kinds | src/UserlandServer/NetworkServer.cpp:386-421 | every line gets one classification |
| Http.ScanLinesSnoc | src/UserlandServer/NetworkServer.cpp:386-421 | scanning one more line applies one more step to the scan so far |
| Http.ScanLine | src/UserlandServer/NetworkServer.cpp:390-416 | one loop body updates path, upgrade flag and key exactly as one step of the scan |
| Http.ScanRequest | src/UserlandServer/NetworkServer.cpp:376-421 | the imperative line loop computes exactly the scan of the request's lines |
| Http.ClassifyKinds | src/UserlandServer/NetworkServer.cpp:390-416 | only line 0 is a request line; other lines are upgrade or key lines exactly when they match those headers |
| Http.ScanUpgrade | src/UserlandServer/NetworkServer.cpp:404-407 | the request asks to upgrade exactly when some header after the first line is an Upgrade header naming websocket |
| Http.HeaderKindsDisjoint | src/UserlandServer/NetworkServer.cpp:404-408 | no line is both an upgrade header and a key header |
| Http.ScanNoKey | src/UserlandServer/NetworkServer.cpp:383 | without a Sec-WebSocket-Key header the key stays empty |
| Http.ScanLastKey | src/UserlandServer/NetworkServer.cpp:408-414 | with several key headers, the last one's trimmed value wins |
| Http.ScanPath | src/UserlandServer/NetworkServer.cpp:390-398 | the path is taken only from the first line, and is empty when that line is not a GET with two spaces |
| Http.RequestPathSpaces | src/UserlandServer/NetworkServer.cpp:392-397 | a path is found only in a line starting with GET, and it is the text between the first two spaces |
| Http.StripQuery | src/UserlandServer/NetworkServer.cpp:458-459 | the longest prefix without '?', cut at the first '?' |
| Http.MimeType | src/UserlandServer/NetworkServer.cpp:491-496 | text/html, application/javascript, text/css or application/wasm exactly for the four suffixes, octet-stream otherwise |
| Http.SuffixesDistinct | src/UserlandServer/NetworkServer.cpp:493-496 | no path has two of the four suffixes, so the order of the tests does not matter |
| Http.ParseHttp | src/UserlandServer/NetworkServer.cpp:369-539 | the outcome is the routing of the scanned request; the connection closes exactly when it is not an upgrade |
| Http.RouteUpgrade | src/UserlandServer/NetworkServer.cpp:425-427 | the request is upgraded exactly when it asked to upgrade with a non-empty key, and the response uses that key |
| Http.IndexHasNoDots | src/UserlandServer/NetworkServer.cpp:477 | the default path passes the traversal, query and double-slash checks |
| Http.RouteServeSafe | src/UserlandServer/NetworkServer.cpp:456-496 | a served file exists, has its MIME type, holds no "..", no '?', does not start with "//", and is neither empty nor "/" |
| Http.RouteRejectsTraversal | src/UserlandServer/NetworkServer.cpp:461-466 | a path containing ".." after stripping the query is answered 404 |
| Http.RouteIgnoresQuery | src/UserlandServer/NetworkServer.cpp:458-459 | adding a query string does not change the routing |
| Http.RouteIndex | src/UserlandServer/NetworkServer.cpp:477-537 | "/" and the empty path serve /index.html as text/html if it exists, else 404 |
| Http.UpgradeResponseAccept | src/UserlandServer/NetworkServer.cpp:541-558 | the response starts with the 101 Switching Protocols status line followed by the `Upgrade: websocket` and `Connection: Upgrade` headers and the accept header's name, ends with CR LF CR LF, and its accept value is base64(sha1(key + the RFC 6455 GUID)) |
| KeyInput.FirstGroupsOverride | src/UserlandServer/handlers/KeyPacketHandler.cpp:63-120 | each of the first four groups of inserts keeps the existing entries and overrides them with the group's own entries |
| KeyInput.LastGroupsOverride | src/UserlandServer/handlers/KeyPacketHandler.cpp:122-170 | each of the last four groups of inserts keeps the existing entries and overrides them with the group's own entries |
| KeyInput.TableByGroups | src/UserlandServer/handlers/KeyPacketHandler.cpp:58-170 | a key is in the table exactly when some group defines it, and its entry comes from the last such group |
| KeyInput.KeyPacketHandler.constructor | src/UserlandServer/handlers/KeyPacketHandler.cpp:16-18 | a new handler's map is the full key table |
| KeyInput.KeyPacketHandler.InitKeyMap | src/UserlandServer/handlers/KeyPacketHandler.cpp:58-170 | the map becomes the old map with every group's entries inserted in source order |
| KeyInput.KeyPacketHandler.Handle | src/UserlandServer/handlers/KeyPacketHandler.cpp:20-56 | a key packet is produced exactly when there is a key event and an input port; a zero key code with a known key string takes the table's scancode, and its charcode only when the event carries none; otherwise the event's codes pass through |
| KeyInput.EmptyStringNotInTable | src/UserlandServer/handlers/KeyPacketHandler.cpp:39 | the empty key string is never in the table, so the key-string guard loses nothing |
| KeyInput.InsertEntry | src/UserlandServer/handlers/KeyPacketHandler.cpp:161-165 | the duplicate Insert entry leaves scancode 0x1F and charcode 0x05 |
| KeyInput.NoCharacterKeys | src/UserlandServer/handlers/KeyPacketHandler.cpp:63-86 | function keys, modifiers and CapsLock carry no character code |
| KeyInput.LetterKeyPlaced | src/UserlandServer/handlers/KeyPacketHandler.cpp:105-149 | every KeyA..KeyZ is in one of the three letter rows |
| KeyInput.LetterRows | src/UserlandServer/handlers/KeyPacketHandler.cpp:105-149 | in every letter row, KeyX carries the lower-case letter x as its character |
| KeyInput.TopRowNotInHomeRow | src/UserlandServer/handlers/KeyPacketHandler.cpp:105-136 | no letter appears in both the top and the home row |
| KeyInput.TopRowNotInBottomRow | src/UserlandServer/handlers/KeyPacketHandler.cpp:105-149 | no letter appears in both the top and the bottom row |
| KeyInput.HomeRowNotInBottomRow | src/UserlandServer/handlers/KeyPacketHandler.cpp:122-149 | no letter appears in both the home and the bottom row |
| KeyInput.LetterKeysNotReinserted | src/UserlandServer/handlers/KeyPacketHandler.cpp:151-170 | the later groups never redefine a letter key |
| KeyInput.LetterKeys | src/UserlandServer/handlers/KeyPacketHandler.cpp:105-149 | every KeyA..KeyZ is in the final table with its lower-case letter as character |
| KeyInput.DigitRow | src/UserlandServer/handlers/KeyPacketHandler.cpp:88-103 | every Key0..Key9 is in the number row with its digit as character |
| KeyInput.DigitKeysNotReinserted | src/UserlandServer/handlers/KeyPacketHandler.cpp:105-170 | no later group redefines a digit key |
| KeyInput.DigitKeysNotInLetterRows | src/UserlandServer/handlers/KeyPacketHandler.cpp:105-136 | digit keys are in neither the top nor the home row |
| KeyInput.DigitKeys | src/UserlandServer/handlers/KeyPacketHandler.cpp:88-103 | every Key0..Key9 is in the final table with its digit as character |
| KeyInput.CtrlLetterEndToEnd | src/InputDriver/VirtualMouse.cpp:184-188 | Ctrl with a letter key sent by code only reaches the input server as the control character (1 for A … 26 for Z), as raw_char, bytes and byte |
| VirtualInput.Press | src/InputDriver/VirtualMouse.cpp:146-155 | a press records the button and time; the click count grows only for the same button within the click speed, otherwise it restarts at 1 |
| VirtualInput.TransitionsNext | src/InputDriver/VirtualMouse.cpp:133-161 | scanning one more bit applies one more step |
| VirtualInput.ChangedBits | src/InputDriver/VirtualMouse.cpp:133-135 | the changed bits listed are all below the scanned bound |
| VirtualInput.TransitionsPerBit | src/InputDriver/VirtualMouse.cpp:131-161 | the messages are one per changed bit in ascending order: MouseDown when the bit is now set, MouseUp when clear, each carrying the new mask |
| VirtualInput.NoChangeNoMessages | src/InputDriver/VirtualMouse.cpp:131-132 | with no changed bits, no message is produced and the click state is unchanged |
| VirtualInput.SameMask | src/InputDriver/VirtualMouse.cpp:131-132 | an unchanged button mask produces nothing |
| VirtualInput.LaterPressesSingle | src/InputDriver/VirtualMouse.cpp:146-155 | within one packet, every press after the first is a single click, because the buttons differ |
| VirtualInput.SinglePress | src/InputDriver/VirtualMouse.cpp:131-163 | pressing one new button yields exactly one MouseDown carrying the new mask and the click count from the last press |
| VirtualInput.SingleBitPrefix | src/InputDriver/VirtualMouse.cpp:133-161 | with exactly one bit changed and set, the scan yields nothing before that bit and one MouseDown from it on |
| VirtualInput.CtrlMapCodes | src/InputDriver/VirtualMouse.cpp:184-188 | with Ctrl, letters map to 1..26 (case-insensitively); anything else is unchanged |
| VirtualInput.LeadF0Small | src/InputDriver/VirtualMouse.cpp:202 | when the bits above bit 18 are fewer than 16 (every code point up to 0x10FFFF), or-ing them into 0xF0 adds them without losing a bit in the char store |
| VirtualInput.Utf8 | src/InputDriver/VirtualMouse.cpp:190-206 | every branch of the encoder defines the four bytes utf8[0..3] of the zero-filled buffer |
| VirtualInput.CString | src/InputDriver/VirtualMouse.cpp:215 | the string added is the buffer's prefix up to the first zero byte |
| VirtualInput.Utf8RoundTrip | src/InputDriver/VirtualMouse.cpp:190-206 | every code point 1..0x10FFFF becomes 1–4 bytes by its range, with the UTF-8 lead and continuation patterns, and decodes back to itself |
| VirtualInput.Utf8Two | src/InputDriver/VirtualMouse.cpp:194-196 | two-byte code points give a two-byte string that decodes back |
| VirtualInput.Utf8Three | src/InputDriver/VirtualMouse.cpp:197-200 | three-byte code points give a three-byte string that decodes back |
| VirtualInput.Utf8Four | src/InputDriver/VirtualMouse.cpp:201-205 | four-byte code points give a four-byte string that decodes back |
| VirtualInput.KeyEvent | src/InputDriver/VirtualMouse.cpp:176-224 | the message is a key message with the packet's down flag, key code and modifiers |
| VirtualInput.KeyEventByte | src/InputDriver/VirtualMouse.cpp:216-224 | raw_char is the Ctrl-mapped character; the byte field is present and the bytes are non-empty exactly when that character is non-zero |
| VirtualInput.VirtualMouse.constructor | src/InputDriver/VirtualMouse.cpp:25-30 | no port or thread, not running, no buttons, the system click speed, no last click |
| VirtualInput.VirtualMouse.Start | src/InputDriver/VirtualMouse.cpp:42-66 | registers the device slot by name and counts the start; only the first start creates the port and spawns the thread, returning the port's or the thread's error |
| VirtualInput.VirtualMouse.Stop | src/InputDriver/VirtualMouse.cpp:68-89 | clears the device slot and counts the stop; only the last stop stops the loop and deletes a live port |
| VirtualInput.VirtualMouse.ButtonTransitions | src/InputDriver/VirtualMouse.cpp:133-161 | the 32-bit loop leaves the click state and enqueues the messages of the transition scan, and enqueues them only while a mouse device is registered |
| VirtualInput.KindSelectsMember | src/InputDriver/VirtualMouse.cpp:109-176 | for a well-formed packet, the type field is PACKET_MOUSE exactly for a mouse packet and PACKET_KEY exactly for a key packet |
| VirtualInput.VirtualMouse.ProcessPacket | src/InputDriver/VirtualMouse.cpp:103-236 | short reads and other packet types do nothing; a mouse packet with changed buttons runs the transitions and stores the mask; a key packet enqueues its key message while a keyboard is registered |
| VirtualInput.VirtualMouse.MouseStep | src/InputDriver/VirtualMouse.cpp:130-163 | unchanged buttons do nothing; changed buttons run the transition scan and store the new mask |
| VirtualInput.VirtualMouse.KeyStep | src/InputDriver/VirtualMouse.cpp:176-235 | the key message is enqueued exactly while a keyboard device is registered |
| ScreenServer.ClampFps | src/UserlandServer/server.cpp:457-459 | the rate is in [1, 120], unchanged inside, and clamped to the nearer bound outside |
| ScreenServer.FrameWaitBounds | src/UserlandServer/server.cpp:462 | the frame wait is between 8333 µs and one second, and it is the largest whole wait that fits fps times into a second |
| ScreenServer.Distance | src/UserlandServer/server.cpp:406 | the distance is 0 exactly for the requested width and height |
| ScreenServer.BestIndex | src/UserlandServer/server.cpp:391-412 | the chosen index is -1 or a valid index into the mode list |
| ScreenServer.BestIndexIsEarliestClosest | src/UserlandServer/server.cpp:391-412 | the search picks -1 for an empty list, otherwise an exact match if one exists (the first), else the first mode at the least distance provided that distance is below INT32_MAX (`0x7FFFFFFF`), else -1 |
| ScreenServer.EarliestClosestUnique | src/UserlandServer/server.cpp:391-412 | that choice is unique |
| ScreenServer.ExactMatchChosen | src/UserlandServer/server.cpp:399-403 | the first exact match is chosen, whatever follows it |
| ScreenServer.DigitsRoundTrip | src/UserlandServer/server.cpp:257-259 | the decimal digits written for a number read back as the number |
| ScreenServer.Decimal | src/UserlandServer/server.cpp:257-259 | a decimal has at least one character and starts with '-' exactly for negatives |
| Bytes.AsBytes | src/UserlandServer/server.cpp:265 | a text (the config, an HTTP reply) becomes one byte per character, with the character's code for every character below 256 |
| ScreenServer.ConfigFits | src/UserlandServer/server.cpp:255-262 | the init config is short enough for a 64-bit frame length |
| ScreenServer.ConfigFrame | src/UserlandServer/server.cpp:255-265 | the broadcast config decodes as one complete text frame carrying the JSON |
| ScreenServer.FrameMessageDecodes | src/UserlandServer/server.cpp:328-359 | a frame message decodes as one binary frame whose payload is the meta byte (1 exactly for keyframes), the frame and DE AD BE EF |
| ScreenServer.ScheduleLinear | src/UserlandServer/server.cpp:297 | the k-th frame is due at start + k·wait |
| ScreenServer.SleepTime | src/UserlandServer/server.cpp:284-292 | the wait is the time left until the due time, and 0 when late |
| ScreenServer.SleepTimesFollowSchedule | src/UserlandServer/server.cpp:282-297 | every iteration sleeps until its own slot on the absolute schedule, whatever earlier iterations took |
| ScreenServer.ScheduleShift | src/UserlandServer/server.cpp:297 | starting one wait later is the schedule shifted by one frame |
| ScreenServer.KeyTimeAfterLast | src/UserlandServer/server.cpp:325-326 | the last keyframe time moves only on a keyframe packet |
| ScreenServer.RequestPts | src/UserlandServer/server.cpp:299-319 | encode requests take strictly increasing timestamps from the frame count, at most one per iteration |
| ScreenServer.BroadcastsAppend | src/UserlandServer/server.cpp:359 | broadcasting two runs of messages is broadcasting each in order |
| ScreenServer.ScreenApp.constructor | src/UserlandServer/server.cpp:23-36 | codec vp8, 30 fps with a 33333 µs wait, not capturing, no capture thread |
| ScreenServer.ScreenApp.ChangeFps | src/UserlandServer/server.cpp:457-465 | the rate is clamped and the wait is one second divided by it, so it lies in [8333, 1000000] µs |
| ScreenServer.ScreenApp.StopCapture | src/UserlandServer/server.cpp:269-276 | capturing ends and a running thread is forgotten |
| ScreenServer.ScreenApp.StartCapture | src/UserlandServer/server.cpp:230-267 | after a stop, a session starts only when capture and encoder both initialise; it resets the frame count, captures only if the thread spawned, and broadcasts the config, which becomes the welcome message |
| ScreenServer.ScreenApp.SendConfig | src/UserlandServer/server.cpp:255-266 | the config text frame goes to every upgraded client and becomes the welcome message |
| ScreenServer.ScreenApp.ChangeResolution | src/UserlandServer/server.cpp:370-443 | nothing happens without a valid screen, a mode list, a chosen mode or a change; otherwise a running capture is stopped, the current mode becomes the chosen one exactly when SetMode succeeds (a failed SetMode keeps the old mode, so the same request tries again), and a running capture is restarted either way |
| ScreenServer.ScreenApp.ChangeCodec | src/UserlandServer/server.cpp:445-455 | the same codec changes nothing; a new one is stored, and a running capture is stopped and started twice |
| ScreenServer.ScreenApp.SendFrame | src/UserlandServer/server.cpp:328-359 | one frame message goes to every upgraded client |
| ScreenServer.ScreenApp.BroadcastPackets | src/UserlandServer/server.cpp:323-361 | every frame packet is broadcast in order, and the keyframe time is the last keyframe's |
| ScreenServer.ScreenApp.CaptureTick | src/UserlandServer/server.cpp:283-361 | one iteration sleeps until its slot, takes the next pts, asks for a keyframe after 60 s, and broadcasts its frames |
| ScreenServer.ScreenApp.CaptureLoop | src/UserlandServer/server.cpp:278-368 | over the iterations, the sleeps follow the absolute schedule, the encode requests are the specified ones, and every frame is broadcast in order |
| ScreenServer.SelectMode | src/UserlandServer/server.cpp:391-412 | the loop with its early break returns the earliest closest mode's index |
| Video.Shr8 | src/UserlandServer/VideoEncoder.cpp:270 | an arithmetic right shift by 8 is floor division by 256, negative values included |
| Video.Luma | src/UserlandServer/VideoEncoder.cpp:265-271 | BT.601 studio-range luma lies in [16, 235] |
| Video.Cb | src/UserlandServer/VideoEncoder.cpp:281 | blue-difference chroma lies in [16, 240] |
| Video.Cr | src/UserlandServer/VideoEncoder.cpp:282 | red-difference chroma lies in [16, 240] |
| Video.LumaExtremes | src/UserlandServer/VideoEncoder.cpp:270 | black is 16 and white is 235 |
| Video.GreyHasNoChroma | src/UserlandServer/VideoEncoder.cpp:281-282 | every grey has chroma 128 |
| Video.ChromaExtremes | src/UserlandServer/VideoEncoder.cpp:281-282 | pure blue and red reach 240, yellow and cyan reach 16 |
| Video.VectorLuma | src/UserlandServer/VideoEncoder.cpp:242-262 | the SIMD path (multiply-add, horizontal add, shift, saturating packs) gives the same luma as the scalar formula |
| Video.LumaAt | src/UserlandServer/VideoEncoder.cpp:266-270 | the luma of a BGRA pixel in the frame is in [16, 235] |
| Video.CbAt | src/UserlandServer/VideoEncoder.cpp:277-281 | the Cb of a BGRA pixel in the frame is in [16, 240] |
| Video.CrAt | src/UserlandServer/VideoEncoder.cpp:277-282 | the Cr of a BGRA pixel in the frame is in [16, 240] |
| Video.LumaRow | src/UserlandServer/VideoEncoder.cpp:240-271 | after the 8-wide vector loop and the scalar tail, each pixel of the row holds its luma; nothing else changes |
| Video.ChromaRow | src/UserlandServer/VideoEncoder.cpp:273-284 | an even row writes the chroma of every even pixel into half-width rows of U and V; nothing else changes |
| Video.RgbToYuv420 | src/UserlandServer/VideoEncoder.cpp:222-286 | the whole Y plane holds per-pixel luma, and U and V hold the chroma of the top-left pixel of every 2×2 block; nothing outside is touched |
| Video.InitStatusOk | src/UserlandServer/VideoEncoder.cpp:42-134 | initialisation succeeds exactly for h264 with picture and encoder, or for vp8/vp9 with config, codec and image; any other codec fails |
| Video.VideoEncoder.constructor | src/UserlandServer/VideoEncoder.cpp:21-28 | not initialised, no x264 encoder, codec name vp8 |
| Video.VideoEncoder.Init | src/UserlandServer/VideoEncoder.cpp:42-134 | returns the status for the codec and outcome, records the codec name, is initialised exactly on success, opens x264 only for h264, and stores size and bitrate once configured |
| Video.VideoEncoder.SetBitrate | src/UserlandServer/VideoEncoder.cpp:136-150 | the bitrate changes only on an initialised encoder |
| Video.VideoEncoder.Encode | src/UserlandServer/VideoEncoder.cpp:157-198 | no init or no bits gives NoInit; x264 reports errors, keeps one fake packet when output exists, and none otherwise; vpx reports the codec's result |
| Video.VideoEncoder.GetNextPacket | src/UserlandServer/VideoEncoder.cpp:200-211 | x264 hands out its fake packet once and then nothing; vpx returns the codec's next packet |

## Left out

- Sockets, `select`, `accept` and `fcntl`, TLS (`SSL_accept`, `SSL_read`, `SSL_write`) and the listening socket (`NetworkServer::Start`) are outside the model. The handshake result and the bytes read are parameters; a write is recorded as a `(socket, bytes)` entry, except a served file's response (below).
- Network.NetworkServer.Broadcast: the partial-write loop and its WANT_READ/WANT_WRITE retries (NetworkServer.cpp 174-188) are modelled as one complete write per client, because the model has no socket that can accept part of a buffer.
- The protobuf InputEvent parsing and serialisation are external code. An event arrives as its parsed fields, and a pong carries the serialised event bytes as a parameter.
- Network.NetworkServer.Receive: the source hands each final binary frame to `_HandleInputPacket`, which parses it and runs its handler (NetworkServer.cpp 618-619 and 649-661) before the next frame is parsed. The model stops at that parse: the drain records the payloads in `dispatched`, in order, and the handlers (Ping.Handle, the key handler) are separate operations on one payload each. The contract's "nothing written, no signal, bitrate unchanged" on the WebSocket path therefore holds up to that point only. The pongs, bitrate changes and UpdateBitrate signals of the frames' handlers are not part of it, and the order of those effects relative to the drain's later frames is not captured.
- Network.NetworkServer.DrainClient: as for Receive, the per-frame handler runs, with their writes, bitrate changes and signals, are not part of its contract; it ends at the dispatched payloads.
- `_CheckClipboard` and the clipboard, codec, FPS, mouse and resolution handler bodies are not part of this model, apart from the factory's choice of handler. `SendMessageToTarget` is `Notify`, and `WakeCapture` is left out. Which application the target names is left out; the model keeps only whether it is valid.
- `NetworkUtils::SHA1` and `NetworkUtils::Base64Encode` (OpenSSL) are function parameters of `Http.UpgradeResponse`.
- Static file serving reads from the disk. The model takes the set of request paths whose file exists as a parameter and records the outcome (serve with a MIME type, or 404). The source opens `path.String() + 1` (NetworkServer.cpp 484), which drops the first character even when the path does not start with '/' (`GET abc` opens `bc`); the model keys the set by the request path and does not express that mapping.
- Network.NetworkServer.ParseHttpClient: for a served file, the `200 OK` header and the file's bytes (NetworkServer.cpp 501-529) are not recorded in `sent`, because the file's size and contents come from the file system. The same holds for Network.NetworkServer.Receive.
- Http.ParseHttp: `BString(data)` stops at a NUL byte, and the model takes the whole buffer.
- The display: `BScreen`, `GetModeList`, `SetMode` and `ScreenCapture` are parameters (screen validity, the mode list, SetMode's success, capture and spawn results). `GetMode` is the `display` field, which changes only through a successful SetMode. `snooze` delays are left out.
- Threads, semaphores, locks and the concurrent change of `fFrameWaitTime` while the capture loop runs are not modelled; the loop is a sequence of iterations over recorded clock readings (`Tick`).
- ScreenServer.SleepTime: the reset at server.cpp 291 can never fire, because the wait was set to 0 on the line before, so the model omits it.
- ScreenServer.RequestPts: the frame counter `fFrameCount` is a C `int` (server.cpp 208) that the pts is taken from (`fFrameCount++`, server.cpp 299). The model's counter is unbounded, so the timestamps are strictly increasing only for a capture session of fewer than 2^31 frames; beyond that the source's counter overflows. The same holds for ScreenServer.ScreenApp.CaptureTick and ScreenServer.ScreenApp.CaptureLoop.
- ScreenServer.Distance: does not model the int32 overflow of `abs(w - width) + abs(h - height)` for extreme mode sizes.
- Bytes.AsBytes: a character of 256 or more has no single-byte value. The texts written (the config, the HTTP replies, request bytes read as text) hold only such characters, so the contract states the byte value only for characters below 256.
- ScreenServer.ConfigFits: requires the codec name to be shorter than `MAX_NAME` (2^32 characters). Any string a client sends is passed on (CodecPacketHandler.cpp 14) and stored (server.cpp 448, VideoEncoder.cpp 57), but it comes from a protobuf string, which is under 2 GiB. The config is broadcast only after Init succeeded, which happens only for h264, vp8 or vp9 (VideoEncoder.cpp 59-97).
- The application's message dispatch (`ReadyToRun`, `MessageReceived`, `QuitRequested`), its start-up and the input driver installation (`InputDriverManager`) are left out; each dispatched operation is modelled by the method it calls.
- Ping.Handle: the `double` multiplication by 0.8 and 1.05 is modelled as the exact rational product truncated toward zero (`TruncDiv`), the value the C cast gives for these magnitudes.
- Video.VideoEncoder.Encode: the libvpx/x264 encoding itself is external. Its outcome (frame size, keyframe flag, vpx status) is a parameter, and the colour conversion that Encode calls is proved separately (`RgbToYuv420`) and not linked to the encoder's planes.
- Video.VideoEncoder.GetNextPacket: the vpx packet iterator is a parameter.
- Video.VideoEncoder.Init: `fCurrentNal` is not reset by the source's Init, and the model does not reset it either; when a previous session is torn down (VideoEncoder.cpp 44-56), the model clears the initialised and x264 flags, but the library calls that free the old encoder and picture (`x264_encoder_close`, `x264_picture_clean`, `vpx_codec_destroy`, `vpx_img_free`) are left out.
- `_RGBToYUV420_X264` (VideoEncoder.cpp 289-352) repeats the same conversion into x264 planes and is not modelled separately.
- Ring.RingBuffer.constructor: requires a non-empty memory; a ring of size 0 would divide by zero in the head arithmetic.
- Ring.RingBuffer.Write: requires the data to be no longer than the ring, which the source assumes without checking; a longer write would overrun the second copy.
- KeyInput.NoCharacterKeys: states the missing character code per group (function keys, modifiers, CapsLock) rather than for every non-character key in the table.
- VirtualInput.VirtualMouse.Start: a failed port or thread creation leaves the reference count raised, as in the source.
- Mouse motion and the wheel (VirtualMouse.cpp 110-128 and 165-175) carry `float` coordinates and deltas and are not modelled. `GetLastCursor` and `SetCursor` are left out for the same reason.
- The Settings, SettingsWindow and Preferences files (certificate generation, configuration files, the preference panel) are not part of this model.

## Findings

| source | as written | input that shows it | evidently intended | confidence | as-written member | corrected member |
|---|---|---|---|---|---|---|
| src/UserlandServer/NetworkServer.cpp:604 | `bufferLen < headerSize + payloadLen` is computed in 64-bit `size_t`, so a 64-bit length near 2^64 wraps the sum to a small value and the completeness check passes. `new uint8[payloadLen]` then asks for at least 2^64 − 14 bytes and throws `std::bad_alloc`, which nothing catches, so one frame from a remote client ends the server | the unmasked frame `82 7F FF FF FF FF FF FF FF FF` (payload length 2^64 − 1, header 10): 10 + (2^64 − 1) wraps to 9, which is less than 10 | treat the frame as incomplete (or reject it) unless header and payload both fit in the buffer | not executed | WebSocket.WrappedLengthPassesCheck | WebSocket.CorrectedCheckMatchesDecode |
