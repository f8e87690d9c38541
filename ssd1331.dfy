/** The header variant of the SSD1331 driver, the one the firmware uses:
    `Render` sets the address window, then alternates "the renderer fills the
    64-byte chunk buffer" and "write the chunk", 192 times. The renderer is the
    `RainbowFX` scan-out, which the firmware passes in as a lambda. */
module Panel {
  import opened Bytes
  import opened Surface
  import opened PanelBus
  import opened Rainbow

  /** `kRenderInBatches`. */
  const RenderInBatches: bool := true

  /** `kRenderBatchPixels`: one chunk's worth of pixels in batch mode, the whole
      screen otherwise. */
  function RenderBatchPixels(inBatches: bool): (n: nat)
    ensures inBatches ==> n * (BitsPerPixel / 8) == ChunkBytes
    ensures !inBatches ==> n == PanelWidth * PanelHeight
  {
    if inBatches then ChunkBytes / (BitsPerPixel / 8) else PanelWidth * PanelHeight
  }

  /** The length of `pixels_` in 16-bit entries. */
  function PixelBufferLength(inBatches: bool): nat {
    (if inBatches then RenderBatchPixels(inBatches) else PanelWidth * PanelHeight) * BitsPerPixel / 16
  }

  /** In batch mode the buffer holds exactly one chunk, and the frame takes
      exactly as many batches as the scan-out produces per pass. */
  lemma BatchGeometry()
    ensures RenderBatchPixels(RenderInBatches) == BatchPixels
    ensures PixelBufferLength(RenderInBatches) * 2 == ChunkBytes
    ensures PanelWidth * PanelHeight / RenderBatchPixels(RenderInBatches) == BatchesPerFrame
  {
  }

  class Ssd1331 {
    /** `pixels_`, seen through the `uint32_t*` the renderer is given. */
    const pixels: array<U32>
    /** Everything the driver has done on the bus. */
    ghost var trace: seq<Event>

    ghost predicate Valid()
      reads this
    {
      pixels.Length * 2 == PixelBufferLength(RenderInBatches) && Framed(trace)
    }

    /** The panel initialisation the constructor sends is not modelled, so a
        new driver starts from an empty trace. */
    constructor ()
      ensures Valid() && fresh(pixels) && trace == []
    {
      pixels := new U32[WordsPerBatch];
      trace := [];
    }

    method WriteCommand(cmd: U16)
      requires Valid()
      modifies this
      ensures Valid() && trace == old(trace) + CommandEvents(cmd)
    {
      AppendTransaction(trace, CommandEvents(cmd));
      trace := trace + CommandEvents(cmd);
    }

    /** Sends `bytes` bytes from the words at `data + at`. */
    method WriteData(data: array<U32>, at: nat, bytes: nat)
      requires Valid() && bytes % 4 == 0 && at + bytes / 4 <= data.Length
      modifies this
      ensures Valid() && trace == old(trace) + DataEvents(data[at..at + bytes / 4], bytes)
    {
      AppendTransaction(trace, DataEvents(data[at..at + bytes / 4], bytes));
      trace := trace + DataEvents(data[at..at + bytes / 4], bytes);
    }

    /** One frame: the address window, then the 192 chunks of a scan-out pass,
        each sent as soon as the renderer has filled it. The caller starts the
        pass (`BeginRender`) first. */
    method Render(fx: RainbowFX)
      requires Valid() && fx.Valid() && fx.batch == 0 && InPass(fx.batch, fx.renderPtr, fx.renderColumn)
      modifies this, pixels, fx
      ensures Valid() && fx.Valid() && fx.batch == BatchesPerFrame
      ensures fx.backbuffer[..] == old(fx.backbuffer[..])
      ensures trace == old(trace) + Commands(AddressWindow) + BatchEvents(fx.codec, fx.backbuffer[..], BatchesPerFrame)
    {
      SetAddressWindow();
      RenderBatches(fx);
    }

    /** The first six commands of `Render`. */
    method SetAddressWindow()
      requires Valid()
      modifies this
      ensures Valid() && trace == old(trace) + Commands(AddressWindow)
    {
      WriteCommand(CmdSetColumn);
      WriteCommand(0);
      WriteCommand(PanelWidth - 1);
      WriteCommand(CmdSetRow);
      WriteCommand(0);
      WriteCommand(PanelHeight - 1);
      AddressWindowEvents(old(trace));
    }

    /** The batch loop of `Render`. */
    method RenderBatches(fx: RainbowFX)
      requires Valid() && fx.Valid() && fx.batch == 0 && InPass(fx.batch, fx.renderPtr, fx.renderColumn)
      modifies this, pixels, fx
      ensures Valid() && fx.Valid() && fx.batch == BatchesPerFrame
      ensures fx.backbuffer[..] == old(fx.backbuffer[..])
      ensures trace == old(trace) + BatchEvents(fx.codec, fx.backbuffer[..], BatchesPerFrame)
    {
      BatchGeometry();
      ghost var s := fx.backbuffer[..];
      var batchCount := PanelWidth * PanelHeight / RenderBatchPixels(RenderInBatches);
      while batchCount != 0
        invariant Valid() && fx.Valid() && fx.backbuffer[..] == s
        invariant batchCount <= BatchesPerFrame && fx.batch == BatchesPerFrame - batchCount
        invariant fx.renderPtr == CursorPtr(fx.batch) && fx.renderColumn == CursorColumn(fx.batch)
        invariant trace == old(trace) + BatchEvents(fx.codec, s, fx.batch)
        decreases batchCount
      {
        batchCount := batchCount - 1;
        fx.Render(pixels, 0);
        WriteData(pixels, 0, ChunkBytes);
      }
    }
  }

  /** What a frame puts on the bus: exactly the address-window commands, then
      exactly the words of a whole scan-out pass, framed as data. */
  lemma RenderSends(codec: Codec, s: seq<U8>, t: seq<Event>)
    requires ValidCodec(codec) && |s| == BufferBytes
    ensures var after := t + Commands(AddressWindow) + BatchEvents(codec, s, BatchesPerFrame);
      && SentCommands(after) == SentCommands(t) + AddressWindow
      && SentData(after) == SentData(t) + FrameWords(codec, s, BatchesPerFrame)
  {
    BatchEventsSendFrame(codec, s, BatchesPerFrame);
    CommandsThenData(t, AddressWindow, BatchEvents(codec, s, BatchesPerFrame));
  }

  /** Commands, then events that send data only, after a trace `t`. */
  lemma CommandsThenData(t: seq<Event>, cmds: seq<U16>, b: seq<Event>)
    requires SentCommands(b) == []
    ensures SentCommands(t + Commands(cmds) + b) == SentCommands(t) + cmds
    ensures SentData(t + Commands(cmds) + b) == SentData(t) + SentData(b)
  {
    var a := Commands(cmds);
    CommandsRoundTrip(cmds);
    SentCommandsAppend(t, a);
    SentDataAppend(t, a);
    SentCommandsAppend(t + a, b);
    SentDataAppend(t + a, b);
  }
}
