/** The remote plugin's FBOTransmitter2: assembling a full frame from the
    rendered tile, stamping it with the next frame id, composing the
    outgoing message from the header and the compressed colour and depth
    buffers, and the connect/shutdown flags of the transmitter thread.
    Pixel reads, compression and the header's byte image are inputs. */
module FboTransmitter {
  import opened Wrappers
  import opened Arith

  /** Bytes per colour element (RGBA, 8 bits each) and per depth element
      (one 32-bit float). */
  const COLOR_ELEMENT_SIZE: nat := 4
  const DEPTH_ELEMENT_SIZE: nat := 4

  /** The viewport: tile offset and size, then the full frame's size. */
  datatype Viewport = Viewport(xOff: int, yOff: int, tileWidth: int, tileHeight: int, width: int, height: int)

  /** The tile is the whole frame: it is read directly into the frame. */
  predicate IsFullFrame(vp: Viewport) {
    vp.tileWidth == vp.width && vp.tileHeight == vp.height
  }

  /** The tile lies inside the frame, which the row copies rely on. */
  predicate TileFits(vp: Viewport) {
    && 0 <= vp.xOff && 0 <= vp.yOff && 0 <= vp.tileWidth && 0 <= vp.tileHeight
    && vp.xOff + vp.tileWidth <= vp.width && vp.yOff + vp.tileHeight <= vp.height
  }

  /** Bytes of a width x height buffer of elements of the given size. */
  function FrameBytes(width: nat, height: nat, elementSize: nat): nat {
    width * height * elementSize
  }

  /** Byte offset in the frame of tile row i. */
  function RowStart(vp: Viewport, elementSize: nat, i: nat): int {
    elementSize * (vp.yOff * vp.width + vp.xOff + i * vp.width)
  }

  /** Bytes of one tile row. */
  function RowBytes(vp: Viewport, elementSize: nat): int {
    elementSize * vp.tileWidth
  }

  /** Byte b of tile row i: where it lies in the frame and in the tile. */
  function FrameIndex(vp: Viewport, elementSize: nat, i: nat, b: int): int {
    RowStart(vp, elementSize, i) + b
  }

  function TileIndex(vp: Viewport, elementSize: nat, i: nat, b: int): int {
    i * RowBytes(vp, elementSize) + b
  }

  /** Byte k of the frame lies in one of the first n tile rows. */
  ghost predicate Covered(vp: Viewport, elementSize: nat, n: int, k: int) {
    exists r :: 0 <= r < n && RowStart(vp, elementSize, r) <= k < RowStart(vp, elementSize, r) + RowBytes(vp, elementSize)
  }

  lemma {:induction false} CoveredGrows(vp: Viewport, elementSize: nat, n: int, k: int)
    ensures Covered(vp, elementSize, n, k) ==> Covered(vp, elementSize, n + 1, k)
  {
    if Covered(vp, elementSize, n, k) {
      var r :| 0 <= r < n && RowStart(vp, elementSize, r) <= k < RowStart(vp, elementSize, r) + RowBytes(vp, elementSize);
      assert 0 <= r < n + 1;
    }
  }

  /** Row i of the tile lies inside the frame buffer and the tile buffer. */
  lemma {:induction false} RowInBounds(vp: Viewport, elementSize: nat, i: nat)
    requires TileFits(vp) && i < vp.tileHeight
    ensures 0 <= RowStart(vp, elementSize, i)
    ensures RowStart(vp, elementSize, i) + RowBytes(vp, elementSize) <= FrameBytes(vp.width, vp.height, elementSize)
    ensures i * RowBytes(vp, elementSize) + RowBytes(vp, elementSize) <= RowBytes(vp, elementSize) * vp.tileHeight
  {
    var w := vp.width;
    var row := vp.yOff + i;
    var rowEnd := row * w + vp.xOff + vp.tileWidth;
    RowEnd(vp, i);
    MulMonotone(rowEnd, vp.height * w, elementSize);
    RowStartScaled(vp, elementSize, i, row * w + vp.xOff);
    MulMonotone(0, row * w + vp.xOff, elementSize);
    FrameBytesScaled(vp.width, vp.height, elementSize);
    MulMonotone(i + 1, vp.tileHeight, RowBytes(vp, elementSize));
  }

  lemma {:induction false} RowEnd(vp: Viewport, i: nat)
    requires TileFits(vp) && i < vp.tileHeight
    ensures 0 <= (vp.yOff + i) * vp.width
    ensures vp.yOff * vp.width + vp.xOff + i * vp.width == (vp.yOff + i) * vp.width + vp.xOff
    ensures (vp.yOff + i) * vp.width + vp.xOff + vp.tileWidth <= vp.height * vp.width
  {
    var w := vp.width;
    var row := vp.yOff + i;
    MulMonotone(0, row, w);
    assert (row + 1) * w == row * w + w;
    MulMonotone(row + 1, vp.height, w);
  }

  lemma {:induction false} RowStartScaled(vp: Viewport, elementSize: nat, i: nat, offset: int)
    requires offset == vp.yOff * vp.width + vp.xOff + i * vp.width
    ensures RowStart(vp, elementSize, i) == offset * elementSize
    ensures RowStart(vp, elementSize, i) + RowBytes(vp, elementSize) == (offset + vp.tileWidth) * elementSize
  {
  }

  lemma {:induction false} FrameBytesScaled(width: nat, height: nat, elementSize: nat)
    ensures FrameBytes(width, height, elementSize) == (height * width) * elementSize
  {
  }

  /** Earlier tile rows end before later ones start. */
  lemma {:induction false} RowsDisjoint(vp: Viewport, elementSize: nat, r: nat, i: nat)
    requires TileFits(vp) && r < i
    ensures RowStart(vp, elementSize, r) + RowBytes(vp, elementSize) <= RowStart(vp, elementSize, i)
  {
    var w, el := vp.width, elementSize;
    var a := vp.yOff * w + vp.xOff + r * w;
    var b := vp.yOff * w + vp.xOff + i * w;
    MulSplit(r, i - r, w);
    MulMonotone(1, i - r, w);
    var gap := b - a - vp.tileWidth;
    MulMonotone(0, gap, el);
    MulSum(el, a, vp.tileWidth, gap);
  }

  /** memcpy of count bytes from src[srcStart..] to dst[dstStart..]. */
  method CopyBytes(dst: array<Byte>, dstStart: nat, src: seq<Byte>, srcStart: nat, count: nat)
    requires dstStart + count <= dst.Length && srcStart + count <= |src|
    modifies dst
    ensures forall k :: dstStart <= k < dstStart + count ==> dst[k] == src[k - dstStart + srcStart]
    ensures forall k :: 0 <= k < dst.Length && !(dstStart <= k < dstStart + count) ==> dst[k] == old(dst[k])
    ensures dst[dstStart..dstStart + count] == src[srcStart..srcStart + count]
    ensures dst[..dstStart] == old(dst[..dstStart]) && dst[dstStart + count..] == old(dst[dstStart + count..])
    ensures dst[..] == old(dst[..dstStart]) + src[srcStart..srcStart + count] + old(dst[dstStart + count..])
  {
    var j := dstStart;
    while j < dstStart + count
      invariant dstStart <= j <= dstStart + count
      invariant forall k :: dstStart <= k < j ==> dst[k] == src[k - dstStart + srcStart]
      invariant forall k :: 0 <= k < dst.Length && !(dstStart <= k < j) ==> dst[k] == old(dst[k])
    {
      dst[j] := src[j - dstStart + srcStart];
      j := j + 1;
    }
  }

  /** The first n tile rows of the frame hold the tile's rows. */
  ghost predicate RowsCopied(frame: seq<Byte>, tile: seq<Byte>, vp: Viewport, elementSize: nat, n: int) {
    forall i, b :: 0 <= i < n && 0 <= b < RowBytes(vp, elementSize) ==>
      0 <= FrameIndex(vp, elementSize, i, b) < |frame| && 0 <= TileIndex(vp, elementSize, i, b) < |tile|
      && frame[FrameIndex(vp, elementSize, i, b)] == tile[TileIndex(vp, elementSize, i, b)]
  }

  /** Frame bytes outside the first n tile rows still hold their original
      value. */
  ghost predicate KeptOutside(frame: seq<Byte>, original: seq<Byte>, vp: Viewport, elementSize: nat, n: int) {
    && |frame| == |original|
    && forall k :: 0 <= k < |frame| && !Covered(vp, elementSize, n, k) ==> frame[k] == original[k]
  }

  /** Copying tile row i over its place in the frame extends both loop
      invariants of StitchTile from i rows to i + 1. */
  lemma {:induction false} RowStep(vp: Viewport, elementSize: nat, tile: seq<Byte>, before: seq<Byte>, after: seq<Byte>,
                                   original: seq<Byte>, i: nat, start: nat, tileStart: nat, rowBytes: nat)
    requires TileFits(vp) && i < vp.tileHeight
    requires start == RowStart(vp, elementSize, i) && tileStart == i * rowBytes && rowBytes == RowBytes(vp, elementSize)
    requires start + rowBytes <= |before| && tileStart + rowBytes <= |tile|
    requires RowsCopied(before, tile, vp, elementSize, i) && KeptOutside(before, original, vp, elementSize, i)
    requires after == before[..start] + tile[tileStart..tileStart + rowBytes] + before[start + rowBytes..]
    ensures RowsCopied(after, tile, vp, elementSize, i + 1) && KeptOutside(after, original, vp, elementSize, i + 1)
  {
    SpliceAt(before, tile[tileStart..tileStart + rowBytes], start, after);
    RowStepCopied(vp, elementSize, tile, before, after, i, start, tileStart, rowBytes);
    RowStepKept(vp, elementSize, before, after, original, i, start, rowBytes);
  }

  lemma {:induction false} RowStepCopied(vp: Viewport, elementSize: nat, tile: seq<Byte>, before: seq<Byte>, after: seq<Byte>,
                                         i: nat, start: nat, tileStart: nat, rowBytes: nat)
    requires TileFits(vp)
    requires start == RowStart(vp, elementSize, i) && tileStart == i * rowBytes && rowBytes == RowBytes(vp, elementSize)
    requires tileStart + rowBytes <= |tile| && |after| == |before| && start + rowBytes <= |before|
    requires RowsCopied(before, tile, vp, elementSize, i)
    requires forall k :: 0 <= k < start ==> after[k] == before[k]
    requires forall k :: start <= k < start + rowBytes ==> after[k] == tile[k - start + tileStart]
    ensures RowsCopied(after, tile, vp, elementSize, i + 1)
  {
    forall r, b | 0 <= r < i + 1 && 0 <= b < rowBytes
      ensures 0 <= FrameIndex(vp, elementSize, r, b) < |after| && 0 <= TileIndex(vp, elementSize, r, b) < |tile|
      ensures after[FrameIndex(vp, elementSize, r, b)] == tile[TileIndex(vp, elementSize, r, b)]
    {
      if r < i {
        RowsDisjoint(vp, elementSize, r, i);
        assert FrameIndex(vp, elementSize, r, b) < start;
        assert after[FrameIndex(vp, elementSize, r, b)] == before[FrameIndex(vp, elementSize, r, b)];
      } else {
        assert FrameIndex(vp, elementSize, r, b) == start + b;
        assert TileIndex(vp, elementSize, r, b) == tileStart + b;
      }
    }
  }

  lemma {:induction false} RowStepKept(vp: Viewport, elementSize: nat, before: seq<Byte>, after: seq<Byte>,
                                       original: seq<Byte>, i: nat, start: nat, rowBytes: nat)
    requires start == RowStart(vp, elementSize, i) && rowBytes == RowBytes(vp, elementSize)
    requires |after| == |before| && start + rowBytes <= |before|
    requires KeptOutside(before, original, vp, elementSize, i)
    requires forall k :: 0 <= k < start ==> after[k] == before[k]
    requires forall k :: start + rowBytes <= k < |before| ==> after[k] == before[k]
    ensures KeptOutside(after, original, vp, elementSize, i + 1)
  {
    forall k | 0 <= k < |after| && !Covered(vp, elementSize, i + 1, k)
      ensures after[k] == original[k]
    {
      CoveredGrows(vp, elementSize, i, k);
      CoveredByRow(vp, elementSize, i, k);
    }
  }

  /** A byte inside tile row i is covered by the first i + 1 rows. */
  lemma {:induction false} CoveredByRow(vp: Viewport, elementSize: nat, i: nat, k: int)
    ensures RowStart(vp, elementSize, i) <= k < RowStart(vp, elementSize, i) + RowBytes(vp, elementSize)
      ==> Covered(vp, elementSize, i + 1, k)
  {
    if RowStart(vp, elementSize, i) <= k < RowStart(vp, elementSize, i) + RowBytes(vp, elementSize) {
      assert 0 <= i < i + 1;
    }
  }

  /** Overwriting s[start..start + |part|] with part: the bytes before and
      after keep their value, the bytes inside come from part. */
  lemma {:induction false} SpliceAt(s: seq<Byte>, part: seq<Byte>, start: int, spliced: seq<Byte>)
    requires 0 <= start && start + |part| <= |s|
    requires spliced == s[..start] + part + s[start + |part|..]
    ensures |spliced| == |s|
    ensures forall k :: 0 <= k < start ==> spliced[k] == s[k]
    ensures forall k :: start <= k < start + |part| ==> spliced[k] == part[k - start]
    ensures forall k :: start + |part| <= k < |s| ==> spliced[k] == s[k]
  {
  }

  /** The tile-row loop of AfterRender: row i of the tile is copied to the
      frame at element offset yoff * width + xoff + i * width; bytes outside
      the tile rows keep their value. */
  method StitchTile(frame: array<Byte>, tile: seq<Byte>, vp: Viewport, elementSize: nat)
    requires TileFits(vp)
    requires frame.Length == FrameBytes(vp.width, vp.height, elementSize)
    requires |tile| == RowBytes(vp, elementSize) * vp.tileHeight
    modifies frame
    ensures RowsCopied(frame[..], tile, vp, elementSize, vp.tileHeight)
    ensures KeptOutside(frame[..], old(frame[..]), vp, elementSize, vp.tileHeight)
  {
    var i := 0;
    while i < vp.tileHeight
      invariant 0 <= i <= vp.tileHeight
      invariant RowsCopied(frame[..], tile, vp, elementSize, i)
      invariant KeptOutside(frame[..], old(frame[..]), vp, elementSize, i)
    {
      CopyRow(frame, tile, vp, elementSize, i, old(frame[..]));
      i := i + 1;
    }
  }

  /** One iteration of the tile-row loop: memcpy of tile row i to its place
      in the frame. */
  method CopyRow(frame: array<Byte>, tile: seq<Byte>, vp: Viewport, elementSize: nat, i: nat, ghost original: seq<Byte>)
    requires TileFits(vp) && i < vp.tileHeight
    requires frame.Length == FrameBytes(vp.width, vp.height, elementSize)
    requires |tile| == RowBytes(vp, elementSize) * vp.tileHeight
    requires RowsCopied(frame[..], tile, vp, elementSize, i) && KeptOutside(frame[..], original, vp, elementSize, i)
    modifies frame
    ensures RowsCopied(frame[..], tile, vp, elementSize, i + 1) && KeptOutside(frame[..], original, vp, elementSize, i + 1)
  {
    RowInBounds(vp, elementSize, i);
    var offset: nat, rowBytes: nat := RowStart(vp, elementSize, i), RowBytes(vp, elementSize);
    ghost var before := frame[..];
    CopyBytes(frame, offset, tile, i * rowBytes, rowBytes);
    RowStep(vp, elementSize, tile, before, frame[..], original, i, offset, i * rowBytes, rowBytes);
  }


  /** One buffer of AfterRender: read directly when the tile is the whole
      frame, otherwise stitched from the tile rows into a zeroed buffer. */
  method AssembleFrame(vp: Viewport, pixels: seq<Byte>, elementSize: nat) returns (frame: seq<Byte>)
    requires vp.width >= 0 && vp.height >= 0
    requires IsFullFrame(vp) || TileFits(vp)
    requires |pixels| == RowBytes(vp, elementSize) * vp.tileHeight
    ensures |frame| == FrameBytes(vp.width, vp.height, elementSize)
    ensures IsFullFrame(vp) ==> frame == pixels
    ensures !IsFullFrame(vp) ==> StitchedFrom(frame, pixels, vp, elementSize)
  {
    var buf := new Byte[FrameBytes(vp.width, vp.height, elementSize)](_ => 0);
    if IsFullFrame(vp) {
      assert |pixels| == buf.Length;
      CopyBytes(buf, 0, pixels, 0, |pixels|);
      assert buf[..] == buf[0..|pixels|];
    } else {
      ghost var zeros := buf[..];
      StitchTile(buf, pixels, vp, elementSize);
      ZeroedStitch(buf[..], zeros, pixels, vp, elementSize);
    }
    frame := buf[..];
  }

  /** A frame stitched over a zeroed buffer is zero outside the tile. */
  lemma {:induction false} ZeroedStitch(frame: seq<Byte>, zeros: seq<Byte>, tile: seq<Byte>, vp: Viewport, elementSize: nat)
    requires forall k :: 0 <= k < |zeros| ==> zeros[k] == 0
    requires RowsCopied(frame, tile, vp, elementSize, vp.tileHeight)
    requires KeptOutside(frame, zeros, vp, elementSize, vp.tileHeight)
    ensures StitchedFrom(frame, tile, vp, elementSize)
  {
    forall k | 0 <= k < |frame| && !Covered(vp, elementSize, vp.tileHeight, k)
      ensures frame[k] == 0
    {
      assert frame[k] == zeros[k];
    }
  }

  /** The colour and depth formats the frame is tagged with. */
  datatype ColorType = RGBAu8
  datatype DepthType = Df

  /** An area as {x, y, width, height}. */
  datatype Area = Area(x: int, y: int, width: int, height: int)

  /** The parts of fbo_msg_header_t the transmitter sets. */
  datatype FrameHeader = FrameHeader(
    frameId: nat, screenArea: Area, updatedArea: Area,
    colorType: ColorType, depthType: DepthType,
    colorBufSize: nat, depthBufSize: nat)

  /** The outgoing message: the header's bytes, then the compressed colour
      buffer, then the compressed depth buffer. */
  method ComposeMessage(header: seq<Byte>, colorCompressed: seq<Byte>, depthCompressed: seq<Byte>)
    returns (message: seq<Byte>)
    ensures message == header + colorCompressed + depthCompressed
  {
    var h, c := |header|, |colorCompressed|;
    var buf := new Byte[h + c + |depthCompressed|](_ => 0);
    CopyBytes(buf, 0, header, 0, h);
    assert buf[..h] == header;
    ghost var afterHeader := buf[..];
    CopyBytes(buf, h, colorCompressed, 0, c);
    assert buf[..h + c] == afterHeader[..h] + colorCompressed;
    CopyBytes(buf, h + c, depthCompressed, 0, |depthCompressed|);
    assert buf[h + c + |depthCompressed|..] == [];
    message := buf[..];
  }

  /** The receiving side's view of a message: given the header's length and
      the two compressed sizes the header announces, the three parts. */
  function SplitMessage(message: seq<Byte>, headerSize: nat, colorSize: nat, depthSize: nat):
    (r: Option<(seq<Byte>, seq<Byte>, seq<Byte>)>)
    ensures r.Some? <==> |message| == headerSize + colorSize + depthSize
    ensures r.Some? ==> r.value.0 + r.value.1 + r.value.2 == message
  {
    if |message| != headerSize + colorSize + depthSize then None
    else
      var parts := (message[..headerSize], message[headerSize..headerSize + colorSize], message[headerSize + colorSize..]);
      assert parts.0 + parts.1 + parts.2 == message;
      Some(parts)
  }

  /** A composed message splits back into its header, colour and depth
      parts using the sizes the header carries. */
  lemma {:induction false} ComposeSplit(message: seq<Byte>, header: seq<Byte>, colorCompressed: seq<Byte>, depthCompressed: seq<Byte>)
    requires message == header + colorCompressed + depthCompressed
    ensures SplitMessage(message, |header|, |colorCompressed|, |depthCompressed|) == Some((header, colorCompressed, depthCompressed))
  {
  }

  class FboTransmitter2 {
    var frameId: nat
    var threadStop: bool
    var connected: bool
    /** The read-side header and buffers, filled by AfterRender. */
    var readHeader: FrameHeader
    var colorBufRead: seq<Byte>
    var depthBufRead: seq<Byte>
    /** The send-side header, completed with the compressed sizes. */
    var sendHeader: FrameHeader

    constructor ()
      ensures frameId == 0 && !threadStop && !connected
      ensures colorBufRead == [] && depthBufRead == []
    {
      frameId := 0;
      threadStop := false;
      connected := false;
      readHeader := FrameHeader(0, Area(0, 0, 0, 0), Area(0, 0, 0, 0), RGBAu8, Df, 0, 0);
      sendHeader := FrameHeader(0, Area(0, 0, 0, 0), Area(0, 0, 0, 0), RGBAu8, Df, 0, 0);
      colorBufRead := [];
      depthBufRead := [];
    }

    /** initThreads: nothing while connected; otherwise (after the handshake
        and bind, not modelled) clears the stop flag, starts the transmitter
        thread and records the connection. */
    method InitThreads()
      modifies this`threadStop, this`connected
      ensures connected
      ensures old(connected) ==> threadStop == old(threadStop)
      ensures !old(connected) ==> !threadStop
    {
      if !connected {
        threadStop := false;
        connected := true;
      }
    }

    /** shutdownThreads: asks the thread to stop and drops the connection. */
    method ShutdownThreads()
      modifies this`threadStop, this`connected
      ensures threadStop && !connected
    {
      threadStop := true;
      connected := false;
    }

    /** reconnectCallback: shut down, then connect afresh. */
    method Reconnect()
      modifies this`threadStop, this`connected
      ensures connected && !threadStop
    {
      ShutdownThreads();
      InitThreads();
    }

    /** AfterRender: connects if needed, assembles the full colour and depth
        frames (read directly when the tile is the whole frame, otherwise
        stitched from the tile rows into zeroed buffers), tags the read-side
        header with the full area, the formats and the next frame id, and
        stores the frames. The pixel reads are parameters. */
    method AfterRender(vp: Viewport, colorPixels: seq<Byte>, depthPixels: seq<Byte>)
      requires vp.width >= 0 && vp.height >= 0
      requires IsFullFrame(vp) || TileFits(vp)
      requires |colorPixels| == RowBytes(vp, COLOR_ELEMENT_SIZE) * vp.tileHeight
      requires |depthPixels| == RowBytes(vp, DEPTH_ELEMENT_SIZE) * vp.tileHeight
      modifies this
      ensures connected
      ensures frameId == old(frameId) + 1 && readHeader.frameId == old(frameId)
      ensures readHeader.screenArea == Area(0, 0, vp.width, vp.height) == readHeader.updatedArea
      ensures readHeader.colorType == RGBAu8 && readHeader.depthType == Df
      ensures |colorBufRead| == FrameBytes(vp.width, vp.height, COLOR_ELEMENT_SIZE)
      ensures |depthBufRead| == FrameBytes(vp.width, vp.height, DEPTH_ELEMENT_SIZE)
      ensures IsFullFrame(vp) ==> colorBufRead == colorPixels && depthBufRead == depthPixels
      ensures !IsFullFrame(vp) ==> StitchedFrom(colorBufRead, colorPixels, vp, COLOR_ELEMENT_SIZE)
      ensures !IsFullFrame(vp) ==> StitchedFrom(depthBufRead, depthPixels, vp, DEPTH_ELEMENT_SIZE)
      ensures sendHeader == old(sendHeader)
    {
      InitThreads();
      var colorFrame := AssembleFrame(vp, colorPixels, COLOR_ELEMENT_SIZE);
      var depthFrame := AssembleFrame(vp, depthPixels, DEPTH_ELEMENT_SIZE);
      readHeader := readHeader.(screenArea := Area(0, 0, vp.width, vp.height),
                                updatedArea := Area(0, 0, vp.width, vp.height),
                                colorType := RGBAu8, depthType := Df);
      colorBufRead := colorFrame;
      depthBufRead := depthFrame;
      readHeader := readHeader.(frameId := frameId);
      frameId := frameId + 1;
    }

    /** One round of transmitterJob: records the compressed sizes in the
        send-side header and composes the message from the header's bytes
        (headerBytes gives the byte image of a header) and the two compressed
        buffers. */
    method TransmitFrame(colorCompressed: seq<Byte>, depthCompressed: seq<Byte>, headerBytes: FrameHeader -> seq<Byte>)
      returns (message: seq<Byte>)
      modifies this`sendHeader
      ensures sendHeader == old(sendHeader).(colorBufSize := |colorCompressed|, depthBufSize := |depthCompressed|)
      ensures SplitMessage(message, |headerBytes(sendHeader)|, sendHeader.colorBufSize, sendHeader.depthBufSize)
        == Some((headerBytes(sendHeader), colorCompressed, depthCompressed))
    {
      sendHeader := sendHeader.(colorBufSize := |colorCompressed|, depthBufSize := |depthCompressed|);
      var header := headerBytes(sendHeader);
      message := ComposeMessage(header, colorCompressed, depthCompressed);
      ComposeSplit(message, header, colorCompressed, depthCompressed);
    }
  }

  /** A frame assembled from the tile: each tile row at its place, zeros
      elsewhere. */
  ghost predicate StitchedFrom(frame: seq<Byte>, tile: seq<Byte>, vp: Viewport, elementSize: nat) {
    && RowsCopied(frame, tile, vp, elementSize, vp.tileHeight)
    && (forall k :: 0 <= k < |frame| && !Covered(vp, elementSize, vp.tileHeight, k) ==> frame[k] == 0)
  }

  /** Two frames in a row carry consecutive frame ids. */
  method ConsecutiveFrames(t: FboTransmitter2, vp: Viewport, colorPixels: seq<Byte>, depthPixels: seq<Byte>)
    requires vp.width >= 0 && vp.height >= 0
    requires IsFullFrame(vp) || TileFits(vp)
    requires |colorPixels| == RowBytes(vp, COLOR_ELEMENT_SIZE) * vp.tileHeight
    requires |depthPixels| == RowBytes(vp, DEPTH_ELEMENT_SIZE) * vp.tileHeight
    modifies t
    ensures t.frameId == old(t.frameId) + 2
  {
    t.AfterRender(vp, colorPixels, depthPixels);
    var first := t.readHeader.frameId;
    t.AfterRender(vp, colorPixels, depthPixels);
    assert t.readHeader.frameId == first + 1;
  }
}
