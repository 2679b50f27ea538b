# USB line-streaming VGA firmware: ring buffer, protocol decoder and raster row selection

This project models two parts of an STM32 firmware for a 640x480 VGA output
whose 160-pixel-wide picture is upscaled four times vertically. One part
buffers image lines that a host streams over USB CDC. The other part drives
the raster from a static image compiled into the firmware. In this code the
two parts are not connected: `PrepareLineBuffer` copies rows of the static
image `Syn_cyan_bg`, and nothing calls `USB_GetLine` (its comment names
`PrepareLineBuffer` as the intended caller). The model therefore treats them
as two independent components.

- **The USB frame buffer** (`Core/Src/usb_frame_buffer.c`):
  - a 3200-byte ring of twenty 160-byte lines (`ring_buffer`);
  - a three-state frame manager (`frame_manager`: IDLE, RECEIVING, COMPLETE);
  - a byte-level decoder for the host protocol. Command bytes are 0xF0 frame start, 0xF1 data chunk and 0xF2 frame end; every other byte is a pixel;
  - flow control: while receiving, the device sends one 0xA0 byte when fewer than 5 whole lines are buffered, and sends no second one until the host clears the request;
  - the line fetch `USB_GetLine`, meant for the display, which consumes a line only once the caller moves on from a line it has read.
- **The raster side** (`Core/Src/VGA.c`):
  - the scanline counter, advanced by the horizontal-sync timer interrupt;
  - the choice of the image row for each scanline (4x nearest-neighbour, uint16 arithmetic);
  - the word-by-word row copy `fastCopy160` into the 200-byte scanline buffer.

The model has three modules:

- `FrameSpec` (`frame_spec.dfy`) is a pure model of the frame buffer:
  - the ring storage is the FIFO `queue` of unread bytes;
  - every entry point is a function on `Model`;
  - the protocol's properties are lemmas about those functions: FIFO round trip, flow-control deduplication, line-fetch behaviour and the state invariant.
- `UsbFrameBuffer` (`frame_buffer.dfy`) has the class `FrameBuffer`:
  - it keeps the C fields, with the `data` array and both cursors;
  - each C function is a method that updates the fields in place;
  - each method is proved to change the abstract state `Abs()` exactly as the matching `FrameSpec` function says;
  - `Abs()` reads the ring window starting at `read_pos`.
- `Vga` (`vga.dfy`) has:
  - the timing constants;
  - the row selection as functions, with lemmas about them;
  - `fastCopy160` as an array loop;
  - the class `Raster`, holding `current_line` and `lineBuffer`.

Where the code and the protocol's general description differ, the model follows the code:

- `RingBuffer_Write` checks for a full buffer before each byte and drops the excess. It never overflows `available_bytes`.
- Frame end (0xF2) only marks the frame complete and counts it. It does not reset the cursors or discard unread lines.
- Frame start (0xF0) resets the buffer and enters RECEIVING. Data chunk (0xF1) only clears the pending request.
- Commands are recognised byte by byte anywhere in a USB packet. A pixel byte equal to 0xF0–0xF2 therefore cannot be sent.
- The request threshold is 5 lines and the test is strict (`< 5`). Requests are deduplicated by `request_pending`.
- A failed line fetch zero-fills its output.
- `FrameManager_t` has no `processed_bytes` field.
- The vertical back porch is 34 lines where VESA has 33, a deliberate choice in `VGA.h`. The frame is still wrapped at 525 lines.

## Model

| member | source | states |
|---|---|---|
| FrameSpec.Initial | Core/Src/usb_frame_buffer.c:20-30 | the state after `USB_FrameBuffer_Init` satisfies the buffer invariant and keeps the transmit history |
| FrameSpec.BlankLine | Core/Src/usb_frame_buffer.c:206 | the line handed out when nothing can be read is LINE_WIDTH zero bytes |
| FrameSpec.LinesAvailable | Core/Src/usb_frame_buffer.c:56 | the number of whole lines buffered: `lines*160 ≤ queued < (lines+1)*160` |
| FrameSpec.CheckAndRequest | Core/Src/usb_frame_buffer.c:38-63 | the flow-control check changes only `request_pending` and the transmit log |
| FrameSpec.Consume | Core/Src/usb_frame_buffer.c:129-143 | `RingBuffer_ConsumeLine` drops exactly the oldest LINE_WIDTH bytes of the queue, and leaves the frame state, display line and read flag alone |
| FrameSpec.DecodeByte | Core/Src/usb_frame_buffer.c:157-188 | decoding one byte never transmits, never moves the display line, and keeps the invariant (queue ≤ 3200 bytes, `line_was_read` ⇒ a whole line buffered, IDLE ⇒ empty, uint16/uint32 counters in range) |
| FrameSpec.MoveTo | Core/Src/usb_frame_buffer.c:211-223 | following the display to a new line number keeps the invariant and the frame state |
| FrameSpec.FetchLine | Core/Src/usb_frame_buffer.c:204-235 | `USB_GetLine` keeps the invariant; on success the output is the oldest buffered line, which stays buffered; on failure the output is LINE_WIDTH zeros |
| FrameSpec.Drain | Core/Src/usb_frame_buffer.c:204-235 | a sequence of line fetches keeps the invariant |
| FrameSpec.Decode | Core/Src/usb_frame_buffer.c:156-189 | the decode loop keeps the buffer invariant over any input, never transmits and never changes `current_display_line` |
| FrameSpec.Receive | Core/Src/usb_frame_buffer.c:155-193 | `USB_ProcessReceivedData` keeps the buffer invariant over any input, leaves `current_display_line` alone, and transmits nothing or a single 0xA0 |
| FrameSpec.DecodeAppend | Core/Src/usb_frame_buffer.c:156-189 | the decode loop alone (without the request check that ends each call) composes: decoding `a + b` is decoding `a` and then `b` |
| FrameSpec.DecodeIgnoresFlowControl | Core/Src/usb_frame_buffer.c:157-188 | no branch of the decode loop reads `request_pending` or the transmit log, so two states that differ only there still differ only there after decoding |
| FrameSpec.ReceiveSplit | Core/Src/usb_frame_buffer.c:155-193 | delivering the input as two USB packets instead of one changes only `request_pending` and the transmit log: the request may go out after the first packet |
| FrameSpec.PayloadAppended | Core/Src/usb_frame_buffer.c:180-187 | while RECEIVING, pixel bytes are appended to the queue in order until it holds 3200 bytes; the rest are dropped; `received_bytes` (mod 2^16) counts only stored bytes; nothing else changes |
| FrameSpec.PayloadIgnoredUnlessReceiving | Core/Src/usb_frame_buffer.c:182 | outside RECEIVING, pixel bytes change no state at all |
| FrameSpec.CommandsNeverStored | Core/Src/usb_frame_buffer.c:159-188 | the bytes 0xF0, 0xF1 and 0xF2 never enter the queue |
| FrameSpec.FrameStartResets | Core/Src/usb_frame_buffer.c:159-169 | after 0xF0 the queue is empty, the state is RECEIVING, `request_pending`, `line_was_read` and `received_bytes` are cleared, and `current_display_line` is untouched |
| FrameSpec.DataChunkClearsRequest | Core/Src/usb_frame_buffer.c:171-173 | 0xF1 clears `request_pending` and changes nothing else |
| FrameSpec.FrameEndKeepsQueue | Core/Src/usb_frame_buffer.c:175-178 | 0xF2 sets COMPLETE, increments `frame_counter` mod 2^32 and changes nothing else; buffered lines stay |
| FrameSpec.CheckAndRequestSends | Core/Src/usb_frame_buffer.c:38-63 | a request byte is sent if and only if the state is RECEIVING, fewer than 5 whole lines are buffered and no request is pending; the byte is 0xA0, it sets `request_pending`, and nothing else changes |
| FrameSpec.FetchLineSendsAtMostOne | Core/Src/usb_frame_buffer.c:204-235 | one call of `USB_GetLine` transmits nothing or a single 0xA0 |
| FrameSpec.PendingSurvivesDecode | Core/Src/usb_frame_buffer.c:159-178 | while a request is pending, bytes other than 0xF0/0xF1 keep it pending and transmit nothing |
| FrameSpec.NoRequestWhilePending | Core/Src/usb_frame_buffer.c:42-45 | so no second request goes out, from either entry point, until 0xF0 or 0xF1 arrives |
| FrameSpec.FetchLineConsumes | Core/Src/usb_frame_buffer.c:211-223 | a line fetch drops one line from the queue exactly when the state is not IDLE, the line number changed and the previous line was read; otherwise the queue is unchanged |
| FrameSpec.FetchLineIdle | Core/Src/usb_frame_buffer.c:205-208 | in IDLE the fetch fails, outputs zeros and changes no state |
| FrameSpec.FetchLineTwice | Core/Src/usb_frame_buffer.c:211-230 | fetching the same line number again changes nothing and returns the same result and line |
| FrameSpec.DrainInOrder | Core/Src/usb_frame_buffer.c:211-230 | fetching successive different line numbers hands out the queue LINE_WIDTH bytes at a time, oldest first |
| FrameSpec.FrameQueued | Core/Src/usb_frame_buffer.c:159-187 | after 0xF0 and a payload that fits, the queue is exactly the payload, unread, in RECEIVING |
| FrameSpec.FrameRoundTrip | Core/Src/usb_frame_buffer.c:86-137 | the simplest round trip: after one packet `0xF0` followed by at most 20 lines of pixels, successive fetches of different line numbers return exactly those pixels, in order |
| FrameSpec.Pixels | Core/Src/usb_frame_buffer.c:159-188 | the bytes of a packet the decoder treats as pixels, in order; none of them is a command byte |
| FrameSpec.InFrameAppended | Core/Src/usb_frame_buffer.c:171-187 | while receiving, a packet of pixels and 0xF1 data-chunk headers appends its pixels in order as far as they fit, and the frame stays in RECEIVING |
| FrameSpec.Step | Core/Src/usb_frame_buffer.c:155-235 | one entry point (`USB_ProcessReceivedData` or `USB_GetLine`) keeps the buffer invariant |
| FrameSpec.Run | Core/Src/usb_frame_buffer.c:155-235 | any interleaving of packets and line fetches keeps the buffer invariant |
| FrameSpec.StepConserves | Core/Src/usb_frame_buffer.c:180-223 | while receiving, one packet or fetch releases nothing or exactly the oldest line, and appends the accepted pixels behind the buffered ones |
| FrameSpec.StreamConserves | Core/Src/usb_frame_buffer.c:86-235 | over any interleaving of packets (pixels and 0xF1 headers) and line fetches during a frame, the released lines followed by the buffered bytes are the initially buffered bytes followed by every accepted pixel: nothing is lost, duplicated or reordered, and only whole lines are released |
| FrameSpec.FetchFromStream | Core/Src/usb_frame_buffer.c:204-235 | after any such interleaving, a successful fetch returns the LINE_WIDTH accepted bytes that follow the lines released so far |
| FrameSpec.StreamAfterFrameStart | Core/Src/usb_frame_buffer.c:159-235 | the general FIFO round trip: after a frame start, every successful fetch returns the next line of the pixel bytes accepted since that frame start, in arrival order, however many packets and fetches came between (a whole frame larger than the ring included) |
| UsbFrameBuffer.FrameBuffer.constructor | Core/Src/usb_frame_buffer.c:16-17 | the zero-initialised globals are the initial state with a zeroed ring |
| UsbFrameBuffer.FrameBuffer.Init | Core/Src/usb_frame_buffer.c:20-30 | zeroes the storage and both cursors and leaves the state `Initial` |
| UsbFrameBuffer.FrameBuffer.SendDataRequest | Core/Src/usb_frame_buffer.c:38-46 | appends 0xA0 to the transmit log only if no request was pending, and leaves one pending |
| UsbFrameBuffer.FrameBuffer.CheckAndRequestData | Core/Src/usb_frame_buffer.c:51-63 | changes the abstract state exactly as `CheckAndRequest` and keeps the cursor invariants |
| UsbFrameBuffer.FrameBuffer.Write | Core/Src/usb_frame_buffer.c:76-100 | stores and returns exactly min(len, 3200 − available_bytes) bytes, appended to the queue in order, and keeps both cursors in [0, 3200), `read_pos` on a line boundary and `write_pos == (read_pos + available_bytes) mod 3200` |
| UsbFrameBuffer.FrameBuffer.ReadLine | Core/Src/usb_frame_buffer.c:110-123 | succeeds exactly when a whole line is buffered; on success `output[i] == data[(read_pos+i) mod 3200]`, which is the oldest queued line; on failure the output is untouched; no state changes either way |
| UsbFrameBuffer.FrameBuffer.ConsumeLine | Core/Src/usb_frame_buffer.c:129-143 | sets `read_pos` to `(read_pos + 160) mod 3200`, leaves `write_pos`, keeps the cursor invariants, and changes the abstract state exactly as `Consume` (drop the oldest line, then check for a request) |
| UsbFrameBuffer.FrameBuffer.StartFrame | Core/Src/usb_frame_buffer.c:159-169 | the 0xF0 branch sets both cursors to 0 and changes the abstract state exactly as `DecodeByte` on 0xF0 |
| UsbFrameBuffer.FrameBuffer.StorePixel | Core/Src/usb_frame_buffer.c:180-187 | the pixel branch in RECEIVING changes the abstract state exactly as `DecodeByte` on that byte |
| UsbFrameBuffer.FrameBuffer.ProcessByte | Core/Src/usb_frame_buffer.c:157-188 | one pass of the decode loop changes the abstract state exactly as `DecodeByte`, keeps the invariant, and on 0xF0 leaves both cursors at 0 |
| UsbFrameBuffer.FrameBuffer.ProcessReceivedData | Core/Src/usb_frame_buffer.c:155-193 | changes the abstract state exactly as `Receive`, so every `FrameSpec` lemma about decoding applies to it |
| UsbFrameBuffer.FrameBuffer.ZeroFill | Core/Src/usb_frame_buffer.c:233 | the output is all zeros |
| UsbFrameBuffer.FrameBuffer.MoveToLine | Core/Src/usb_frame_buffer.c:211-223 | changes the abstract state exactly as `MoveTo` |
| UsbFrameBuffer.FrameBuffer.GetLine | Core/Src/usb_frame_buffer.c:204-235 | new state, return value and output bytes are exactly those of `FetchLine` |
| UsbFrameBuffer.FrameBuffer.GetAvailableLines | Core/Src/usb_frame_buffer.c:241-243 | the number of whole buffered lines: between 0 and 20, with `lines*160 ≤ queued < (lines+1)*160` |
| Vga.NextLine | Core/Src/VGA.c:9-23 | one tick takes `current_line` to `line + 1`, or to 0 on reaching 525; the result is always in [0, 525) |
| Vga.LineAfter | Core/Src/VGA.c:9-23 | after k ticks the counter is a uint16, and below 525 once at least one tick has happened |
| Vga.InVisibleWindow | Core/Src/VGA.c:11 | the scanlines 35..511 on which the callback prepares the line buffer |
| Vga.DisplayLine | Core/Src/VGA.c:37 | `displayLine` is the uint16 value congruent to `current_line − 35` modulo 2^16 |
| Vga.SelectedRow | Core/Src/VGA.c:38-40 | a row is selected only when the display line is 4 times that row and the row is within the image height; otherwise none is |
| Vga.LineAfterWraps | Core/Src/VGA.c:9-23 | from a line in [0, 525), k ticks give `(line + k) mod 525` |
| Vga.FramePeriod | Core/Src/VGA.c:9-23 | every scanline recurs exactly every 525 ticks, and not sooner |
| Vga.VisibleRowSelection | Core/Src/VGA.c:37-40 | in the visible window 35..511 (the test at line 11) the uint16 difference does not wrap; a row is copied only on lines with `(line − 35) mod 4 == 0` that fall within the image; the row is `(line − 35)/4 ≤ 119` |
| Vga.EachRowOnce | Core/Src/VGA.c:37-40 | each image row below 120 is selected on exactly one scanline of the visible window |
| Vga.InitialLineCopiesNothing | Core/Src/VGA.c:37-38 | at `current_line == 0`, as in the call from `VGA_Init` at line 27, the display line wraps to 65501, which is not a multiple of 4, so nothing is copied |
| Vga.NativeImageFits | Core/Inc/VGA.h:32-38 | a 160x120 image fits: its rows end at byte 169 of the 200-byte line buffer |
| Vga.RowInImage | Core/Src/VGA.c:41-42 | the bytes copied for a row lie inside the image |
| Vga.ImageRow | Core/Src/VGA.c:41-54 | the copied bytes of row `r` are `image[r*width + k]` for k < 4·(width/4) |
| Vga.PreparedLine | Core/Src/VGA.c:35-46 | the line buffer after `PrepareLineBuffer` keeps its 200-byte length |
| Vga.PreparedLineFrame | Core/Src/VGA.c:35-46 | preparing a line changes no byte of the line buffer outside `[9, 9 + 4·(width/4))` |
| Vga.PreparedLineIsSplice | Core/Src/VGA.c:38-42 | on a scanline that selects a row, the prepared buffer is the old buffer with that row written at offset 9 |
| Vga.PreparedLineCopiesRow | Core/Src/VGA.c:41-42 | on a scanline that selects a row, byte `9 + k` of the buffer is byte k of that row |
| Vga.FastCopy | Core/Src/VGA.c:48-54 | sets `dst[at + k] = src[k]` for k < 4·(width/4) and changes nothing else in `dst` |
| Vga.CopyWord | Core/Src/VGA.c:52 | one iteration copies one 4-byte word and changes nothing else |
| Vga.Raster.constructor | Core/Inc/VGA.h:41-42 | `current_line` is 0 and the line buffer is 200 zero bytes |
| Vga.Raster.PrepareLineBuffer | Core/Src/VGA.c:35-46 | the line buffer becomes `PreparedLine` of the current scanline over the static image; the three parameters are ignored |
| Vga.Raster.Init | Core/Src/VGA.c:26-27 | prepares the line for the current counter, which leaves the buffer unchanged when the counter is 0 |
| Vga.Raster.PeriodElapsed | Core/Src/VGA.c:3-24 | does nothing unless the timer is TIM2; on TIM2, `current_line` becomes `NextLine` of the old value, and the buffer is prepared for the incremented line exactly when that line is in the visible window |

## Left out

- `CDC_Transmit_FS` and the USB CDC transport are not modelled. Each transmitted byte is appended to the ghost log `sent`, and the return status of the call is ignored, as the source ignores it.
- The DMA, timer and GPIO register writes and HAL calls in the timer callback and in `VGA_Init` are peripheral I/O and are not modelled.
- `USB_GetLine` has no caller in this code: `PrepareLineBuffer` copies the static image, so USB data never reaches the scanline buffer. The two components are modelled separately, and nothing is proved about the display showing streamed lines.
- FrameSpec.FrameRoundTrip: covers only one packet of at most 20 lines, read back after it is decoded. The general case, with packets and fetches interleaved over a frame larger than the ring, is FrameSpec.StreamAfterFrameStart. The general lemma takes packets without 0xF0 and 0xF2, that is, a stream within one frame; a frame end in the middle of the stream is not covered (after it, pixels are dropped).
- The timer handle pointer comparison `htim != &htim2` is modelled as a `Timer` value.
- The USB receive callback and the timer interrupt share `ring_buffer` and `frame_manager` without locks. The model treats every entry point as atomic and the calls as interleaved one after another. Races between them are not captured.
- `Core/Src/USBTest.c` is a test driver and is not part of this model. It reads a `processed_bytes` field that `FrameManager_t` does not declare.
- `image.h` is not part of this model. The static image `Syn_cyan_bg` and `IMAGE_WIDTH`/`IMAGE_HEIGHT` are constructor parameters of `Raster`, constrained only to fit (uint8 dimensions, row-major size, rows inside the line buffer).
- Vga.FastCopy: the uint32 pointer casts and word alignment are modelled as a copy of the same bytes, four per iteration.
- UsbFrameBuffer.FrameBuffer.ConsumeLine: requires a whole line to be buffered, as its doc comment asks of callers. The invariant `line_was_read ⇒ a whole line buffered` shows that `USB_GetLine`, its only caller, always meets this.
- UsbFrameBuffer.FrameBuffer.Write: requires `len < 2^16`, the range of its uint16 `len` parameter. Its one caller passes 1.
- UsbFrameBuffer.FrameBuffer.ProcessReceivedData: requires `len < 2^32`, the range of its uint32 `len` parameter.
- UsbFrameBuffer.FrameBuffer.GetLine: `line_number` is a uint8 in the source and is required to be in [0, 256). The model does not state anything about the output buffer aliasing the ring storage (`output != data` is required).
