/**
 * The raster side: the scanline counter advanced by the horizontal-sync
 * timer interrupt, the choice of the source image row for each visible
 * scanline (4x nearest-neighbour vertical upscale), and the word-wise copy
 * of that row into the scanline buffer that DMA shifts out to the pins.
 */
module Vga {
  import opened FrameSpec

  // VESA 640x480 @ 60 Hz timing, in pixel clocks and lines
  const HVisible := 640
  const HFPorch := 16
  const HSync := 96
  const HBPorch := 48
  const WholeLine := 800

  const VVisible := 480
  const VFPorch := 10
  const VSync := 2
  /** One more than the standard 33, on purpose. */
  const VBPorch := 34
  const WholeFrame := 525

  const Upscale := 4

  const VRes := VVisible / Upscale
  const HRes := HVisible / Upscale
  const HResFull := WholeLine / Upscale

  /** Where the image starts within the scanline buffer. */
  const Offset := 9

  datatype Option<T> = None | Some(value: T)

  /** The timers whose update interrupt shares the callback. */
  datatype Timer = Tim1 | Tim2 | Tim3

  /** The new value of current_line (a uint16) after one horizontal-sync tick. */
  function NextLine(line: int): (next: int)
    requires 0 <= line < Uint16Modulus
    ensures 0 <= next < WholeFrame
    ensures next == if line + 1 < WholeFrame then line + 1 else 0
  {
    var n := (line + 1) % Uint16Modulus;
    if n >= WholeFrame then 0 else n
  }

  /** The lines on which the callback restarts DMA and prepares the next scanline. */
  predicate InVisibleWindow(line: int) {
    VBPorch < line < VBPorch + VVisible - VSync
  }

  /** displayLine in PrepareLineBuffer: a uint16 difference. */
  function DisplayLine(line: int): (d: int)
    ensures 0 <= d < Uint16Modulus && (d - (line - VBPorch - 1)) % Uint16Modulus == 0
  {
    (line - VBPorch - 1) % Uint16Modulus
  }

  /** The image row PrepareLineBuffer copies on scanline `line`, if any. */
  function SelectedRow(line: int, imageHeight: int): (r: Option<int>)
    ensures r.Some? ==> 0 <= r.value < imageHeight && DisplayLine(line) == Upscale * r.value
    ensures r.None? ==> DisplayLine(line) % Upscale != 0 || DisplayLine(line) / Upscale >= imageHeight
  {
    var d := DisplayLine(line);
    if d % Upscale == 0 && d / Upscale < imageHeight then Some(d / Upscale) else None
  }

  /** The number of bytes fastCopy160 moves: whole 32-bit words of one image row. */
  function CopyLength(width: int): int {
    4 * (width / 4)
  }

  /** `s` with `piece` written over it from index `at` on. */
  function Splice(s: seq<byte>, at: int, piece: seq<byte>): (r: seq<byte>)
    requires 0 <= at && at + |piece| <= |s|
    ensures |r| == |s|
    ensures forall k :: 0 <= k < |piece| ==> r[at + k] == piece[k]
    ensures forall j :: 0 <= j < |s| && !(at <= j < at + |piece|) ==> r[j] == s[j]
  {
    s[..at] + piece + s[at + |piece|..]
  }

  /** The static image's shape: its rows fit in the scanline buffer, and IMAGE_WIDTH/IMAGE_HEIGHT fit in a uint8. */
  predicate ImageFits(size: int, width: int, height: int) {
    && 0 <= width < 0x100 && 0 <= height < 0x100
    && size == width * height
    && Offset + CopyLength(width) <= HResFull
  }

  /** An image of HRes x VRes bytes, the firmware's native resolution, fits: its rows end at byte 169 of 200. */
  lemma NativeImageFits()
    ensures ImageFits(HRes * VRes, HRes, VRes) && Offset + CopyLength(HRes) == 169 && HResFull == 200
  {
  }

  lemma RowInImage(row: int, width: int, height: int)
    requires 0 <= row < height && 0 <= width
    ensures row * width + CopyLength(width) <= height * width
  {
    MulMonotone(row + 1, height, width);
    assert (row + 1) * width == row * width + width;
  }

  lemma {:induction false} MulMonotone(a: int, b: int, c: int)
    requires 0 <= a <= b && 0 <= c
    ensures a * c <= b * c
    decreases c
  {
    if c > 0 {
      MulMonotone(a, b, c - 1);
      assert a * c == a * (c - 1) + a && b * c == b * (c - 1) + b;
    }
  }

  /** The bytes fastCopy160 reads for image row `row` of the row-major image. */
  function ImageRow(image: seq<byte>, width: int, height: int, row: int): (r: seq<byte>)
    requires ImageFits(|image|, width, height) && 0 <= row < height
    ensures |r| == CopyLength(width) <= width
    ensures forall k :: 0 <= k < |r| ==> row * width + k < |image| && r[k] == image[row * width + k]
  {
    RowInImage(row, width, height);
    image[row * width .. row * width + CopyLength(width)]
  }

  /** The scanline buffer after PrepareLineBuffer on scanline `line`. */
  function PreparedLine(buf: seq<byte>, line: int, image: seq<byte>, width: int, height: int): (r: seq<byte>)
    requires |buf| == HResFull && ImageFits(|image|, width, height)
    ensures |r| == |buf|
  {
    match SelectedRow(line, height)
    case None => buf
    case Some(row) => Splice(buf, Offset, ImageRow(image, width, height, row))
  }

  // ---------------------------------------------------------------------
  // Properties of the scanline counter and the row selection

  /** The counter after `k` ticks of the horizontal-sync timer. */
  function LineAfter(line: int, k: nat): (r: int)
    requires 0 <= line < Uint16Modulus
    ensures 0 <= r < Uint16Modulus
    ensures k > 0 ==> r < WholeFrame
    decreases k
  {
    if k == 0 then line else LineAfter(NextLine(line), k - 1)
  }

  /** From a line of the frame, the counter walks the frame's lines in order, modulo WholeFrame. */
  lemma {:induction false} LineAfterWraps(line: int, k: nat)
    requires 0 <= line < WholeFrame
    ensures LineAfter(line, k) == (line + k) % WholeFrame
    decreases k
  {
    if k > 0 {
      LineAfterWraps(NextLine(line), k - 1);
      assert (NextLine(line) + (k - 1)) % WholeFrame == (line + k) % WholeFrame by {
        if line + 1 == WholeFrame {
          assert NextLine(line) + (k - 1) == line + k - WholeFrame;
        }
      }
    }
  }

  /** So every scanline of the frame recurs exactly every WholeFrame ticks. */
  lemma FramePeriod(line: int)
    requires 0 <= line < WholeFrame
    ensures LineAfter(line, WholeFrame) == line
    ensures forall k :: 0 < k < WholeFrame ==> LineAfter(line, k) != line
  {
    LineAfterWraps(line, WholeFrame);
    forall k | 0 < k < WholeFrame
      ensures LineAfter(line, k) != line
    {
      LineAfterWraps(line, k);
    }
  }

  /**
   * In the visible window, a row is copied exactly on the first of every four
   * scanlines, that row is the scanline's distance from the window's start
   * divided by four, and it is at most VRes - 1.
   */
  lemma VisibleRowSelection(line: int, imageHeight: int)
    requires InVisibleWindow(line)
    ensures DisplayLine(line) == line - VBPorch - 1
    ensures SelectedRow(line, imageHeight).Some? <==>
      (line - VBPorch - 1) % Upscale == 0 && (line - VBPorch - 1) / Upscale < imageHeight
    ensures SelectedRow(line, imageHeight).Some? ==>
      var row := SelectedRow(line, imageHeight).value;
      0 <= row < imageHeight && row <= VRes - 1 && line == VBPorch + 1 + Upscale * row
  {
  }

  /** Each image row below VRes is copied on exactly one scanline of the visible window. */
  lemma EachRowOnce(row: int, imageHeight: int, line: int)
    requires 0 <= row < imageHeight && row < VRes && InVisibleWindow(line)
    ensures SelectedRow(line, imageHeight) == Some(row) <==> line == VBPorch + 1 + Upscale * row
  {
    VisibleRowSelection(line, imageHeight);
  }

  /** The call from VGA_Init, with the counter still 0, sees the wrapped value 65501 and copies nothing. */
  lemma InitialLineCopiesNothing(imageHeight: int)
    requires 0 <= imageHeight < 0x100
    ensures DisplayLine(0) == 65501 && SelectedRow(0, imageHeight) == None
  {
  }

  /** Preparing a line writes only the bytes Offset .. Offset + CopyLength(width) of the scanline buffer. */
  lemma PreparedLineFrame(buf: seq<byte>, line: int, image: seq<byte>, width: int, height: int, j: int)
    requires |buf| == HResFull && ImageFits(|image|, width, height)
    requires 0 <= j < HResFull && !(Offset <= j < Offset + CopyLength(width))
    ensures |PreparedLine(buf, line, image, width, height)| == HResFull
    ensures PreparedLine(buf, line, image, width, height)[j] == buf[j]
  {
  }

  /** On a scanline that selects a row, the prepared line is the buffer with that row spliced in at Offset. */
  lemma PreparedLineIsSplice(buf: seq<byte>, line: int, image: seq<byte>, width: int, height: int, row: int)
    requires |buf| == HResFull && ImageFits(|image|, width, height)
    requires SelectedRow(line, height) == Some(row)
    ensures 0 <= row < height && Offset + CopyLength(width) <= |buf|
    ensures PreparedLine(buf, line, image, width, height) == Splice(buf, Offset, ImageRow(image, width, height, row))
  {
  }

  /** On a scanline that selects a row, the copied bytes are that row's, in order. */
  lemma PreparedLineCopiesRow(buf: seq<byte>, line: int, image: seq<byte>, width: int, height: int, row: int, k: int)
    requires |buf| == HResFull && ImageFits(|image|, width, height)
    requires SelectedRow(line, height) == Some(row) && 0 <= k < CopyLength(width)
    ensures PreparedLine(buf, line, image, width, height)[Offset + k] == ImageRow(image, width, height, row)[k]
  {
    PreparedLineIsSplice(buf, line, image, width, height, row);
  }

  /**
   * fastCopy160: copy the whole 32-bit words of a `width`-byte row from `src`
   * into `dst` from index `at` on, one word per iteration.
   */
  method FastCopy(dst: array<byte>, at: int, src: seq<byte>, width: int)
    requires 0 <= width && 0 <= at && at + CopyLength(width) <= dst.Length && CopyLength(width) <= |src|
    modifies dst
    ensures dst[..] == Splice(old(dst[..]), at, src[..CopyLength(width)])
  {
    var i := 0;
    while i < width / 4
      invariant 0 <= i <= width / 4
      invariant forall k :: 0 <= k < 4 * i ==> dst[at + k] == src[k]
      invariant forall j :: 0 <= j < dst.Length && !(at <= j < at + 4 * i) ==> dst[j] == old(dst[j])
    {
      CopyWord(dst, at + 4 * i, src, 4 * i);
      i := i + 1;
    }
    SplicedCopy(old(dst[..]), dst[..], at, src[..CopyLength(width)]);
  }

  /** One iteration of fastCopy160: `*dst32++ = *src32++`, as four bytes. */
  method CopyWord(dst: array<byte>, p: int, src: seq<byte>, q: int)
    requires 0 <= p && p + 4 <= dst.Length && 0 <= q && q + 4 <= |src|
    modifies dst
    ensures forall j :: 0 <= j < dst.Length ==> dst[j] == if p <= j < p + 4 then src[q + (j - p)] else old(dst[j])
  {
    dst[p] := src[q];
    dst[p + 1] := src[q + 1];
    dst[p + 2] := src[q + 2];
    dst[p + 3] := src[q + 3];
  }

  /** A sequence that agrees with `piece` from `at` on and with `s` elsewhere is the splice. */
  lemma SplicedCopy(s: seq<byte>, t: seq<byte>, at: int, piece: seq<byte>)
    requires 0 <= at && at + |piece| <= |s| == |t|
    requires forall k :: 0 <= k < |piece| ==> t[at + k] == piece[k]
    requires forall j :: 0 <= j < |t| && !(at <= j < at + |piece|) ==> t[j] == s[j]
    ensures t == Splice(s, at, piece)
  {
    var expected := Splice(s, at, piece);
    forall j | 0 <= j < |t|
      ensures t[j] == expected[j]
    {
      if at <= j < at + |piece| {
        assert t[at + (j - at)] == piece[j - at];
      }
    }
  }

  /** current_line, lineBuffer and the static image Syn_cyan_bg with its dimensions. */
  class Raster {
    var currentLine: int
    const lineBuffer: array<byte>
    const image: seq<byte>
    const imageWidth: int
    const imageHeight: int

    ghost predicate Valid()
      reads this
    {
      0 <= currentLine < Uint16Modulus && lineBuffer.Length == HResFull && ImageFits(|image|, imageWidth, imageHeight)
    }

    /** The zero-initialised globals, over the given static image. */
    constructor (image: seq<byte>, width: int, height: int)
      requires ImageFits(|image|, width, height)
      ensures Valid() && fresh(lineBuffer)
      ensures currentLine == 0 && this.image == image && imageWidth == width && imageHeight == height
      ensures forall i :: 0 <= i < lineBuffer.Length ==> lineBuffer[i] == 0
    {
      currentLine := 0;
      lineBuffer := new byte[HResFull](_ => 0);
      this.image := image;
      imageWidth := width;
      imageHeight := height;
    }

    /**
     * PrepareLineBuffer: on the first of every four scanlines, copy the
     * selected image row into lineBuffer at Offset. The three parameters are
     * ignored: the row always comes from the static image.
     */
    method PrepareLineBuffer(imageData: seq<byte>, imageWidthArg: int, imageHeightArg: int)
      requires Valid()
      modifies lineBuffer
      ensures lineBuffer[..] == PreparedLine(old(lineBuffer[..]), currentLine, image, imageWidth, imageHeight)
    {
      var displayLine := (currentLine - VBPorch - 1) % Uint16Modulus;
      if displayLine % Upscale == 0 {
        var sourceRow := displayLine / Upscale;
        if sourceRow < imageHeight {
          PreparedLineIsSplice(lineBuffer[..], currentLine, image, imageWidth, imageHeight, sourceRow);
          RowInImage(sourceRow, imageWidth, imageHeight);
          FastCopy(lineBuffer, Offset, image[sourceRow * imageWidth..], imageWidth);
          assert image[sourceRow * imageWidth..][..CopyLength(imageWidth)] == ImageRow(image, imageWidth, imageHeight, sourceRow);
        }
      }
    }

    /** VGA_Init without its DMA and timer set-up: prepare the line for the current counter. */
    method Init()
      requires Valid()
      modifies lineBuffer
      ensures lineBuffer[..] == PreparedLine(old(lineBuffer[..]), currentLine, image, imageWidth, imageHeight)
      ensures currentLine == 0 ==> lineBuffer[..] == old(lineBuffer[..])
    {
      PrepareLineBuffer(image, imageWidth, imageHeight);
    }

    /**
     * HAL_TIM_PeriodElapsedCallback without its DMA register writes: on a
     * TIM2 tick, advance the scanline counter, prepare the scanline when it
     * is in the visible window, and wrap the counter at the end of the frame.
     */
    method PeriodElapsed(timer: Timer)
      requires Valid()
      modifies this`currentLine, lineBuffer
      ensures Valid()
      ensures timer != Tim2 ==> currentLine == old(currentLine) && lineBuffer[..] == old(lineBuffer[..])
      ensures timer == Tim2 ==> currentLine == NextLine(old(currentLine))
      ensures timer == Tim2 ==>
        var ticked := (old(currentLine) + 1) % Uint16Modulus;
        lineBuffer[..] == if InVisibleWindow(ticked) then PreparedLine(old(lineBuffer[..]), ticked, image, imageWidth, imageHeight)
                          else old(lineBuffer[..])
    {
      if timer != Tim2 {
        return;
      }
      currentLine := (currentLine + 1) % Uint16Modulus;
      if VBPorch < currentLine < VBPorch + VVisible - VSync {
        PrepareLineBuffer(image, imageWidth, imageHeight);
      }
      if currentLine >= WholeFrame {
        currentLine := 0;
      }
    }
  }
}
