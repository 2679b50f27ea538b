/**
 * The ring buffer and frame manager as the firmware keeps them: a byte array
 * with write and read cursors, an available-byte counter and the frame state
 * fields, updated in place by the USB receive path and by the display-side
 * line fetch. Each entry point is an atomic method; its effect on the
 * abstract state Abs() is the corresponding function of FrameSpec.
 */
module UsbFrameBuffer {
  import opened FrameSpec

  /** The `n` bytes of the ring storage `d` that start at `start`, wrapping at its end. */
  function Window(d: seq<byte>, start: int, n: int): seq<byte>
    requires |d| == RingBufferSize && 0 <= start < RingBufferSize && 0 <= n <= RingBufferSize
  {
    seq(n, i requires 0 <= i < n => d[(start + i) % RingBufferSize])
  }

  lemma WrapOnce(x: int)
    requires 0 <= x < 2 * RingBufferSize
    ensures x % RingBufferSize == if x < RingBufferSize then x else x - RingBufferSize
  {
  }

  /** Storing a byte just past the window extends the window by that byte. */
  lemma WindowAppend(d: seq<byte>, start: int, n: int, b: byte)
    requires |d| == RingBufferSize && 0 <= start < RingBufferSize && 0 <= n < RingBufferSize
    ensures Window(d[(start + n) % RingBufferSize := b], start, n + 1) == Window(d, start, n) + [b]
  {
    var d' := d[(start + n) % RingBufferSize := b];
    WrapOnce(start + n);
    forall i | 0 <= i < n
      ensures Window(d', start, n + 1)[i] == Window(d, start, n)[i]
    {
      WrapOnce(start + i);
    }
  }

  /** Moving the start one line on drops the window's first line. */
  lemma WindowDropLine(d: seq<byte>, start: int, n: int)
    requires |d| == RingBufferSize && 0 <= start < RingBufferSize && LineWidth <= n <= RingBufferSize
    ensures Window(d, (start + LineWidth) % RingBufferSize, n - LineWidth) == Window(d, start, n)[LineWidth..]
  {
    var s' := (start + LineWidth) % RingBufferSize;
    WrapOnce(start + LineWidth);
    forall i | 0 <= i < n - LineWidth
      ensures Window(d, s', n - LineWidth)[i] == Window(d, start, n)[LineWidth..][i]
    {
      WrapOnce(s' + i);
      WrapOnce(start + LineWidth + i);
    }
  }

  /** Advancing the read cursor by a line, with its wrap-around, keeps the cursor invariants. */
  lemma ConsumeKeepsCursors(readPos: int, available: int, writePos: int)
    requires 0 <= readPos < RingBufferSize && readPos % LineWidth == 0
    requires LineWidth <= available <= RingBufferSize && writePos == (readPos + available) % RingBufferSize
    ensures var next := if readPos + LineWidth >= RingBufferSize then readPos + LineWidth - RingBufferSize else readPos + LineWidth;
      && next == (readPos + LineWidth) % RingBufferSize
      && 0 <= next < RingBufferSize && next % LineWidth == 0
      && writePos == (next + (available - LineWidth)) % RingBufferSize
  {
    WrapOnce(readPos + LineWidth);
    WrapOnce(readPos + available);
  }

  /** Storing a byte at the write cursor and advancing it, with its wrap-around, keeps the cursor invariants. */
  lemma AppendKeepsCursors(readPos: int, available: int, writePos: int)
    requires 0 <= readPos < RingBufferSize && 0 <= available < RingBufferSize
    requires writePos == (readPos + available) % RingBufferSize
    ensures var next := if writePos + 1 >= RingBufferSize then 0 else writePos + 1;
      && 0 <= writePos < RingBufferSize
      && next == (readPos + (available + 1)) % RingBufferSize
  {
    WrapOnce(readPos + available);
    WrapOnce(readPos + available + 1);
  }

  class FrameBuffer {
    // ring_buffer
    const data: array<byte>
    var writePos: int
    var readPos: int
    var availableBytes: int
    var requestPending: bool
    // frame_manager
    var state: FrameState
    var currentDisplayLine: int
    var lineWasRead: bool
    var receivedBytes: int
    var frameCounter: int
    /** Every byte handed to the USB transmitter, oldest first. */
    ghost var sent: seq<byte>

    /** The cursor invariants: both cursors in range, the read cursor on a line boundary, and the counter their distance. */
    ghost predicate Cursors()
      reads this
    {
      && data.Length == RingBufferSize
      && 0 <= writePos < RingBufferSize
      && 0 <= readPos < RingBufferSize
      && readPos % LineWidth == 0
      && 0 <= availableBytes <= RingBufferSize
      && writePos == (readPos + availableBytes) % RingBufferSize
    }

    ghost function Abs(): Model
      reads this, data
      requires Cursors()
    {
      Model(Window(data[..], readPos, availableBytes), requestPending, state, currentDisplayLine,
            lineWasRead, receivedBytes, frameCounter, sent)
    }

    ghost predicate Valid()
      reads this, data
    {
      Cursors() && FrameSpec.Valid(Abs())
    }

    /** The zero-initialised global instances. */
    constructor ()
      ensures Valid() && fresh(data)
      ensures Abs() == Initial([]) && writePos == 0 && readPos == 0
      ensures forall i :: 0 <= i < data.Length ==> data[i] == 0
    {
      data := new byte[RingBufferSize](_ => 0);
      writePos, readPos, availableBytes, requestPending := 0, 0, 0, false;
      state, currentDisplayLine, lineWasRead, receivedBytes, frameCounter := Idle, 0, false, 0, 0;
      sent := [];
    }

    /** USB_FrameBuffer_Init: clear the ring buffer (storage included) and reset the frame manager. */
    method Init()
      requires data.Length == RingBufferSize
      modifies this, data
      ensures Valid()
      ensures Abs() == Initial(old(sent)) && writePos == 0 && readPos == 0
      ensures forall i :: 0 <= i < data.Length ==> data[i] == 0
    {
      forall i | 0 <= i < data.Length {
        data[i] := 0;
      }
      writePos, readPos, availableBytes, requestPending := 0, 0, 0, false;
      state := Idle;
      currentDisplayLine := 0;
      lineWasRead := false;
      receivedBytes := 0;
      frameCounter := 0;
    }

    /** SendDataRequest: transmit one request byte unless a request is already pending. */
    method SendDataRequest()
      modifies this`requestPending, this`sent
      ensures requestPending
      ensures sent == if old(requestPending) then old(sent) else old(sent) + [CmdRequestData]
    {
      if !requestPending {
        sent := sent + [CmdRequestData];
        requestPending := true;
      }
    }

    /** CheckAndRequestData: while receiving, ask for more data when fewer than RequestThreshold lines remain. */
    method CheckAndRequestData()
      requires Cursors()
      modifies this`requestPending, this`sent
      ensures Cursors()
      ensures Abs() == CheckAndRequest(old(Abs()))
    {
      if state != Receiving {
        return;
      }
      var availableLines := availableBytes / LineWidth;
      if availableLines < RequestThreshold && !requestPending {
        SendDataRequest();
      }
    }

    /**
     * RingBuffer_Write: store bytes of `src` at the write cursor until the
     * buffer is full; returns how many were stored.
     */
    method Write(src: seq<byte>) returns (written: int)
      requires Cursors() && |src| < Uint16Modulus
      modifies this`writePos, this`availableBytes, data
      ensures Cursors()
      ensures written == if |src| <= RingBufferSize - old(availableBytes) then |src| else RingBufferSize - old(availableBytes)
      ensures Abs() == old(Abs()).(queue := old(Abs()).queue + src[..written])
    {
      ghost var queue0 := Abs().queue;
      written := 0;
      var i := 0;
      while i < |src|
        invariant 0 <= i <= |src| && written == i
        invariant Cursors()
        invariant availableBytes == old(availableBytes) + i
        invariant Window(data[..], readPos, availableBytes) == queue0 + src[..i]
      {
        if availableBytes >= RingBufferSize {
          break;
        }
        ghost var before := data[..];
        AppendKeepsCursors(readPos, availableBytes, writePos);
        data[writePos] := src[i];
        WindowAppend(before, readPos, availableBytes, src[i]);
        writePos := writePos + 1;
        if writePos >= RingBufferSize {
          writePos := 0;
        }
        availableBytes := availableBytes + 1;
        written := written + 1;
        assert src[..i + 1] == src[..i] + [src[i]];
        i := i + 1;
      }
    }

    /**
     * RingBuffer_ReadLine: copy the oldest line into `output` without
     * consuming it; fails, touching nothing, when less than a line is buffered.
     */
    method ReadLine(output: array<byte>) returns (ok: bool)
      requires Valid() && output.Length == LineWidth && output != data
      modifies output
      ensures ok <==> availableBytes >= LineWidth
      ensures ok ==> forall i :: 0 <= i < LineWidth ==> output[i] == data[(readPos + i) % RingBufferSize]
      ensures ok ==> output[..] == Abs().queue[..LineWidth]
      ensures !ok ==> output[..] == old(output[..])
    {
      if availableBytes < LineWidth {
        return false;
      }
      for i := 0 to LineWidth
        invariant forall k :: 0 <= k < i ==> output[k] == data[(readPos + k) % RingBufferSize]
      {
        output[i] := data[(readPos + i) % RingBufferSize];
      }
      return true;
    }

    /**
     * RingBuffer_ConsumeLine: advance the read cursor by one line. It is
     * called only after a successful ReadLine, so a whole line is buffered.
     */
    method ConsumeLine()
      requires Cursors() && availableBytes >= LineWidth
      modifies this`readPos, this`availableBytes, this`requestPending, this`sent
      ensures Cursors()
      ensures readPos == (old(readPos) + LineWidth) % RingBufferSize && writePos == old(writePos)
      ensures Abs() == Consume(old(Abs()))
    {
      ghost var m := Abs();
      WindowDropLine(data[..], readPos, availableBytes);
      ConsumeKeepsCursors(readPos, availableBytes, writePos);
      readPos := readPos + LineWidth;
      if readPos >= RingBufferSize {
        readPos := readPos - RingBufferSize;
      }
      availableBytes := availableBytes - LineWidth;
      assert Abs() == m.(queue := m.queue[LineWidth..]);
      CheckAndRequestData();
    }

    /** The FRAME_START branch of USB_ProcessReceivedData: empty the ring and start receiving. */
    method StartFrame()
      requires Valid()
      modifies this`writePos, this`readPos, this`availableBytes, this`requestPending
      modifies this`state, this`lineWasRead, this`receivedBytes
      ensures Valid()
      ensures Abs() == DecodeByte(old(Abs()), CmdFrameStart)
      ensures writePos == 0 && readPos == 0
    {
      writePos, readPos, availableBytes, requestPending := 0, 0, 0, false;
      state := Receiving;
      lineWasRead := false;
      receivedBytes := 0;
    }

    /** The pixel branch of USB_ProcessReceivedData while receiving: store the byte unless the ring is full. */
    method StorePixel(b: byte)
      requires Valid() && !IsCommand(b) && state == Receiving
      modifies this`writePos, this`availableBytes, this`receivedBytes, data
      ensures Valid()
      ensures Abs() == DecodeByte(old(Abs()), b)
    {
      ghost var m := Abs();
      var written := Write([b]);
      assert written == if |m.queue| < RingBufferSize then 1 else 0;
      assert [b][..written] == if written == 1 then [b] else [];
      if written > 0 {
        receivedBytes := (receivedBytes + 1) % Uint16Modulus;
      }
    }

    /** The body of the decoding loop of USB_ProcessReceivedData, for one byte. */
    method ProcessByte(b: byte)
      requires Valid()
      modifies this, data
      ensures Valid()
      ensures Abs() == DecodeByte(old(Abs()), b)
      ensures b == CmdFrameStart ==> writePos == 0 && readPos == 0
    {
      if b == CmdFrameStart {
        StartFrame();
      } else if b == CmdDataChunk {
        requestPending := false;
      } else if b == CmdFrameEnd {
        state := Complete;
        frameCounter := (frameCounter + 1) % Uint32Modulus;
      } else if state == Receiving {
        StorePixel(b);
      }
    }

    /** USB_ProcessReceivedData: decode `buf` byte by byte, then check the flow control once. */
    method ProcessReceivedData(buf: seq<byte>)
      requires Valid() && |buf| < Uint32Modulus
      modifies this, data
      ensures Valid()
      ensures Abs() == Receive(old(Abs()), buf)
    {
      var i := 0;
      while i < |buf|
        invariant 0 <= i <= |buf|
        invariant Valid()
        invariant Abs() == Decode(old(Abs()), buf[..i])
      {
        ProcessByte(buf[i]);
        assert buf[..i + 1][..i] == buf[..i];
        i := i + 1;
      }
      assert buf[..|buf|] == buf;
      CheckAndRequestData();
    }

    /** memset of a line buffer to zero. */
    method ZeroFill(output: array<byte>)
      modifies output
      ensures output[..] == seq(output.Length, _ => 0 as byte)
    {
      forall i | 0 <= i < output.Length {
        output[i] := 0;
      }
    }

    /**
     * USB_GetLine: hand display line `lineNumber` (a uint8) to the display,
     * consuming the previous line first when the display has moved on from a
     * line it read. Writes zeros and returns false when no line is available.
     */
    method GetLine(lineNumber: int, output: array<byte>) returns (ok: bool)
      requires Valid() && 0 <= lineNumber < 0x100 && output.Length == LineWidth && output != data
      modifies this, output
      ensures Valid()
      ensures var f := FetchLine(old(Abs()), lineNumber); Abs() == f.next && ok == f.ok && output[..] == f.line
    {
      if state == Idle {
        ZeroFill(output);
        assert output[..] == BlankLine();
        return false;
      }
      MoveToLine(lineNumber);
      ok := ReadLine(output);
      if ok {
        lineWasRead := true;
        return;
      }
      ZeroFill(output);
      assert output[..] == BlankLine();
    }

    /** The part of USB_GetLine that follows the display to a new line number. */
    method MoveToLine(lineNumber: int)
      requires Valid() && 0 <= lineNumber < 0x100
      modifies this
      ensures Valid()
      ensures Abs() == MoveTo(old(Abs()), lineNumber)
    {
      if lineNumber != currentDisplayLine {
        if lineWasRead {
          ConsumeLine();
        }
        currentDisplayLine := lineNumber;
        lineWasRead := false;
      }
    }

    /** USB_GetAvailableLines: the number of whole lines buffered. */
    function GetAvailableLines(): (lines: int)
      reads this, data
      requires Valid()
      ensures 0 <= lines <= RingBufferLines
      ensures lines * LineWidth <= |Abs().queue| < (lines + 1) * LineWidth
    {
      availableBytes / LineWidth
    }
  }
}
