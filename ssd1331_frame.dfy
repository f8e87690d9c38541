/** The older, stand-alone variant of the SSD1331 driver: `pixels_` holds a
    whole frame, `Render` walks it one 64-byte chunk at a time, letting the
    renderer fill each chunk and sending it straight away, and `Clear` and
    `Fill` are fixed command sequences. */
module FramePanel {
  import opened Bytes
  import opened Surface
  import opened PanelBus
  import opened Rainbow

  /** `pixels_` in 16-bit entries: a whole 96x64 frame. */
  const FramePixels: nat := PanelWidth * PanelHeight * BitsPerPixel / 16

  /** The clear-window command over the whole panel. */
  const ClearCommands: seq<U16> := [CmdClear, 0, 0, PanelWidth - 1, PanelHeight - 1]

  /** The outline-and-fill rectangle command `Fill` sends, for colour (r, g, b). */
  function FillCommands(r: U8, g: U8, b: U8): seq<U16> {
    [CmdFill, 0x01, CmdDrawRect, 0, 0, PanelWidth - 1, PanelHeight - 1, r, g, b, r, g, b]
  }

  /** The rectangle of `Fill` covers the whole panel, fill mode is on, and the
      outline colour equals the fill colour. */
  lemma FillPaintsScreen(r: U8, g: U8, b: U8)
    ensures var c := FillCommands(r, g, b);
      && c[..2] == [CmdFill, 1] && c[2] == CmdDrawRect
      && c[3..7] == [0, 0, PanelWidth - 1, PanelHeight - 1]
      && c[7..10] == c[10..13] == [r, g, b]
  {
  }

  class Ssd1331 {
    /** `pixels_`, seen through `uint32_t*`: two pixels per word. */
    const pixels: array<U32>
    ghost var trace: seq<Event>

    ghost predicate Valid()
      reads this
    {
      pixels.Length * 2 == FramePixels && Framed(trace)
    }

    /** The panel initialisation the constructor sends is not modelled, so a
        new driver starts from an empty trace. */
    constructor ()
      ensures Valid() && fresh(pixels) && trace == []
    {
      pixels := new U32[WordsPerBatch * BatchesPerFrame];
      trace := [];
    }

    /** `RenderBatchSize`: the pixels of one chunk. */
    function RenderBatchSize(): (n: nat)
      ensures n * (BitsPerPixel / 8) == ChunkBytes && n == BatchPixels
    {
      ChunkBytes / (BitsPerPixel / 8)
    }

    method WriteCommand(cmd: U16)
      requires Valid()
      modifies this
      ensures Valid() && trace == old(trace) + CommandEvents(cmd)
    {
      AppendTransaction(trace, CommandEvents(cmd));
      trace := trace + CommandEvents(cmd);
    }

    /** Sends `bytes` bytes from the words at `data + at`. */
    method WriteData(data: array<U32>, at: nat, bytes: nat)
      requires Valid() && bytes % 4 == 0 && at + bytes / 4 <= data.Length
      modifies this
      ensures Valid() && trace == old(trace) + DataEvents(data[at..at + bytes / 4], bytes)
    {
      AppendTransaction(trace, DataEvents(data[at..at + bytes / 4], bytes));
      trace := trace + DataEvents(data[at..at + bytes / 4], bytes);
    }

    /** The panel's clear-window command over the whole screen. */
    method Clear()
      requires Valid()
      modifies this
      ensures Valid() && trace == old(trace) + Commands(ClearCommands)
    {
      WriteCommand(CmdClear);
      WriteCommand(0);
      WriteCommand(0);
      WriteCommand(PanelWidth - 1);
      WriteCommand(PanelHeight - 1);
      ClearEvents(old(trace));
    }

    /** Fill mode on, then one rectangle over the whole screen whose outline
        and fill are both (r, g, b). */
    method Fill(r: U8, g: U8, b: U8)
      requires Valid()
      modifies this
      ensures Valid() && trace == old(trace) + Commands(FillCommands(r, g, b))
    {
      WriteCommand(CmdFill);
      WriteCommand(0x01);

      WriteCommand(CmdDrawRect);
      WriteCommand(0);
      WriteCommand(0);
      WriteCommand(PanelWidth - 1);
      WriteCommand(PanelHeight - 1);

      // Outline colour.
      WriteCommand(r);
      WriteCommand(g);
      WriteCommand(b);

      // Fill colour.
      WriteCommand(r);
      WriteCommand(g);
      WriteCommand(b);
      FillEvents(old(trace), r, g, b);
    }

    /** One frame: the address window, then the frame buffer chunk by chunk,
        each chunk filled by the renderer and then sent. The caller starts the
        pass (`BeginRender`) first. Afterwards the frame buffer holds the
        whole pass. */
    method Render(fx: RainbowFX)
      requires Valid() && fx.Valid() && fx.batch == 0 && InPass(fx.batch, fx.renderPtr, fx.renderColumn)
      modifies this, pixels, fx
      ensures Valid() && fx.Valid() && fx.batch == BatchesPerFrame
      ensures fx.backbuffer[..] == old(fx.backbuffer[..])
      ensures pixels[..] == FrameWords(fx.codec, fx.backbuffer[..], BatchesPerFrame)
      ensures trace == old(trace) + Commands(AddressWindow) + BatchEvents(fx.codec, fx.backbuffer[..], BatchesPerFrame)
    {
      SetAddressWindow();
      RenderChunks(fx);
    }

    /** The first six commands of `Render`. */
    method SetAddressWindow()
      requires Valid()
      modifies this
      ensures Valid() && trace == old(trace) + Commands(AddressWindow)
    {
      WriteCommand(CmdSetColumn);
      WriteCommand(0);
      WriteCommand(PanelWidth - 1);
      WriteCommand(CmdSetRow);
      WriteCommand(0);
      WriteCommand(PanelHeight - 1);
      AddressWindowEvents(old(trace));
    }

    /** The chunk walk of `Render`: `p` is the `pixels` address, as a word
        index, and advances 16 words (64 bytes) per chunk until it reaches the
        end of the buffer. */
    method RenderChunks(fx: RainbowFX)
      requires Valid() && fx.Valid() && fx.batch == 0 && InPass(fx.batch, fx.renderPtr, fx.renderColumn)
      modifies this, pixels, fx
      ensures Valid() && fx.Valid() && fx.batch == BatchesPerFrame
      ensures fx.backbuffer[..] == old(fx.backbuffer[..])
      ensures pixels[..] == FrameWords(fx.codec, fx.backbuffer[..], BatchesPerFrame)
      ensures trace == old(trace) + BatchEvents(fx.codec, fx.backbuffer[..], BatchesPerFrame)
    {
      ChunkGeometry();
      ghost var s := fx.backbuffer[..];
      var p := 0;
      var end := pixels.Length;
      while p < end
        invariant Valid() && fx.Valid() && fx.backbuffer[..] == s
        invariant fx.batch <= BatchesPerFrame && p == WordsPerBatch * fx.batch
        invariant fx.renderPtr == CursorPtr(fx.batch) && fx.renderColumn == CursorColumn(fx.batch)
        invariant pixels[..p] == FrameWords(fx.codec, s, fx.batch)
        invariant trace == old(trace) + BatchEvents(fx.codec, s, fx.batch)
        decreases end - p
      {
        ChunkStep(fx, s, p);
        p := p + ChunkBytes / 4;
      }
      assert pixels[..] == pixels[..p];
    }

    /** One chunk: the renderer fills words [p, p + 16), which are then sent. */
    method ChunkStep(fx: RainbowFX, ghost s: seq<U8>, p: nat)
      requires Valid() && fx.Valid() && fx.backbuffer[..] == s
      requires fx.batch < BatchesPerFrame && p == WordsPerBatch * fx.batch
      requires fx.renderPtr == CursorPtr(fx.batch) && fx.renderColumn == CursorColumn(fx.batch)
      requires pixels[..p] == FrameWords(fx.codec, s, fx.batch)
      modifies this, pixels, fx
      ensures Valid() && fx.Valid() && fx.backbuffer[..] == s && fx.batch == old(fx.batch) + 1
      ensures fx.renderPtr == CursorPtr(fx.batch) && fx.renderColumn == CursorColumn(fx.batch)
      ensures pixels[..p + WordsPerBatch] == FrameWords(fx.codec, s, fx.batch)
      ensures trace == old(trace) + DataEvents(BatchWords(fx.codec, s, old(fx.batch)), ChunkBytes)
    {
      ghost var k := fx.batch;
      ghost var codec := fx.codec;
      ghost var before := pixels[..];
      fx.Render(pixels, p);
      ChunkJoin(before, pixels[..], p, WordsPerBatch, FrameWords(codec, s, k), BatchWords(codec, s, k));
      assert pixels[..p + WordsPerBatch] == FrameWords(codec, s, k + 1);
      WriteData(pixels, p, ChunkBytes);
    }
  }

  /** Filling words [p, p + n) of a buffer whose first p words are `frame`
      with `words` leaves `frame + words` in its first p + n words. */
  lemma ChunkJoin(before: seq<U32>, after: seq<U32>, p: nat, n: nat, frame: seq<U32>, words: seq<U32>)
    requires p + n <= |after| && p <= |before|
    requires before[..p] == frame && after[..p] == before[..p] && after[p..p + n] == words
    ensures after[..p + n] == frame + words
  {
    assert after[..p + n] == after[..p] + after[p..p + n];
  }

  /** `Clear`'s five command transactions, appended to trace `t`. */
  lemma ClearEvents(t: seq<Event>)
    ensures t + Commands(ClearCommands)
         == t + CommandEvents(CmdClear) + CommandEvents(0) + CommandEvents(0)
          + CommandEvents(PanelWidth - 1) + CommandEvents(PanelHeight - 1)
  {
    var c := ClearCommands;
    assert t + Commands(c[..0]) == t;
    SentOneMore(t, c, 0);
    SentOneMore(t, c, 1);
    SentOneMore(t, c, 2);
    SentOneMore(t, c, 3);
    SentOneMore(t, c, 4);
    assert c[..5] == c;
  }

  /** `Fill`'s thirteen command transactions, appended to trace `t`. */
  lemma FillEvents(t: seq<Event>, r: U8, g: U8, b: U8)
    ensures t + Commands(FillCommands(r, g, b))
         == t + CommandEvents(CmdFill) + CommandEvents(0x01)
          + CommandEvents(CmdDrawRect) + CommandEvents(0) + CommandEvents(0)
          + CommandEvents(PanelWidth - 1) + CommandEvents(PanelHeight - 1)
          + CommandEvents(r) + CommandEvents(g) + CommandEvents(b)
          + CommandEvents(r) + CommandEvents(g) + CommandEvents(b)
  {
    var c := FillCommands(r, g, b);
    assert t + Commands(c[..0]) == t;
    SentOneMore(t, c, 0);
    SentOneMore(t, c, 1);
    SentOneMore(t, c, 2);
    SentOneMore(t, c, 3);
    SentOneMore(t, c, 4);
    SentOneMore(t, c, 5);
    SentOneMore(t, c, 6);
    SentOneMore(t, c, 7);
    SentOneMore(t, c, 8);
    SentOneMore(t, c, 9);
    SentOneMore(t, c, 10);
    SentOneMore(t, c, 11);
    SentOneMore(t, c, 12);
    assert c[..13] == c;
  }
}
