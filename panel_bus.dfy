/** The SSD1331 bus as the driver drives it: two GPIO lines (D/C and CS)
    and SPI transactions. Nothing is transferred in the model; every pin
    change and every transaction is appended to a trace of events. */
module PanelBus {
  import opened Bytes
  import opened Options
  import opened Surface

  /** The panel geometry and transfer size both driver variants use. */
  const PanelWidth: U8 := 96
  const PanelHeight: U8 := 64
  const BitsPerPixel: nat := 16
  const ChunkBytes: nat := 64

  /** The SSD1331 commands the modelled operations send. */
  const CmdDrawRect: U16 := 0x22
  const CmdClear: U16 := 0x25
  const CmdFill: U16 := 0x26
  const CmdSetColumn: U16 := 0x15
  const CmdSetRow: U16 := 0x75

  /** The address window a frame is written to: columns 0..95, rows 0..63. */
  const AddressWindow: seq<U16> := [CmdSetColumn, 0, PanelWidth - 1, CmdSetRow, 0, PanelHeight - 1]

  /** A whole frame is a whole number of chunks, and a chunk is one batch of
      the scan-out: 96 * 64 pixels of 16 bits are 192 chunks of 64 bytes, each
      32 pixels, or 16 words. */
  lemma ChunkGeometry()
    ensures PanelWidth * PanelHeight * BitsPerPixel / 8 == ChunkBytes * BatchesPerFrame
    ensures ChunkBytes / (BitsPerPixel / 8) == BatchPixels && ChunkBytes / 4 == WordsPerBatch
    ensures (PanelWidth * PanelHeight * BitsPerPixel / 8) % ChunkBytes == 0
    ensures PanelWidth == DisplayWidth && PanelHeight == DisplayHeight
  {
  }

  datatype Pin = DataCommand | ChipSelect

  datatype Event =
    | Level(pin: Pin, high: bool)
      /** An SPI transaction whose command phase carries `cmd` in `bits` bits. */
    | CommandPhase(cmd: U16, bits: nat)
      /** An SPI transaction whose MOSI phase sends `words` in `bits` bits. */
    | DataPhase(words: seq<U32>, bits: nat)

  predicate IsTransfer(e: Event) { e.CommandPhase? || e.DataPhase? }

  /** `WriteCommand(cmd)`: D/C low (command), CS low, then an 8-bit command phase. */
  function CommandEvents(cmd: U16): seq<Event> {
    [Level(DataCommand, false), Level(ChipSelect, false), CommandPhase(cmd, 8)]
  }

  /** `WriteData(data, bytes)`: D/C high (data), CS low, then `bytes * 8`
      bits of MOSI data. */
  function DataEvents(words: seq<U32>, bytes: nat): seq<Event> {
    [Level(DataCommand, true), Level(ChipSelect, false), DataPhase(words, 8 * bytes)]
  }

  /** A sequence of `WriteCommand` calls. */
  function Commands(cmds: seq<U16>): (t: seq<Event>)
    ensures |t| == 3 * |cmds|
  {
    if |cmds| == 0 then [] else Commands(cmds[..|cmds| - 1]) + CommandEvents(cmds[|cmds| - 1])
  }

  lemma CommandsSnoc(cmds: seq<U16>, c: U16)
    ensures Commands(cmds + [c]) == Commands(cmds) + CommandEvents(c)
  {
    assert (cmds + [c])[..|cmds|] == cmds;
  }

  /** Commands sent one at a time: the trace after the first `n + 1`
      commands of `c` is the trace after the first `n` extended by the next. */
  lemma SentOneMore(t: seq<Event>, c: seq<U16>, n: nat)
    requires n < |c|
    ensures t + Commands(c[..n]) + CommandEvents(c[n]) == t + Commands(c[..n + 1])
  {
    assert c[..n + 1] == c[..n] + [c[n]];
    CommandsSnoc(c[..n], c[n]);
  }

  /** The address window's six command transactions, appended to trace `t`. */
  lemma AddressWindowEvents(t: seq<Event>)
    ensures t + Commands(AddressWindow)
         == t + CommandEvents(CmdSetColumn) + CommandEvents(0) + CommandEvents(PanelWidth - 1)
          + CommandEvents(CmdSetRow) + CommandEvents(0) + CommandEvents(PanelHeight - 1)
  {
    var c := AddressWindow;
    assert t + Commands(c[..0]) == t;
    SentOneMore(t, c, 0);
    SentOneMore(t, c, 1);
    SentOneMore(t, c, 2);
    SentOneMore(t, c, 3);
    SentOneMore(t, c, 4);
    SentOneMore(t, c, 5);
    assert c[..6] == c;
  }

  /** The data transactions of the first `n` batches of a pass over surface
      `s`, one 64-byte chunk each. */
  function BatchEvents(codec: Codec, s: seq<U8>, n: nat): (t: seq<Event>)
    requires ValidCodec(codec) && |s| == BufferBytes && n <= BatchesPerFrame
    ensures |t| == 3 * n
  {
    if n == 0 then [] else BatchEvents(codec, s, n - 1) + DataEvents(BatchWords(codec, s, n - 1), ChunkBytes)
  }

  // ---------------------------------------------------------------- Reading a trace back

  /** The command bytes a trace sends, in order. */
  function SentCommands(t: seq<Event>): seq<U16> {
    if |t| == 0 then []
    else SentCommands(t[..|t| - 1]) + (if t[|t| - 1].CommandPhase? then [t[|t| - 1].cmd] else [])
  }

  /** The data words a trace sends, in order. */
  function SentData(t: seq<Event>): seq<U32> {
    if |t| == 0 then []
    else SentData(t[..|t| - 1]) + (if t[|t| - 1].DataPhase? then t[|t| - 1].words else [])
  }

  /** The level a trace last drove `pin` to, if it drove it at all. */
  function LastLevel(t: seq<Event>, pin: Pin): Option<bool> {
    if |t| == 0 then None
    else if t[|t| - 1].Level? && t[|t| - 1].pin == pin then Some(t[|t| - 1].high)
    else LastLevel(t[..|t| - 1], pin)
  }

  /** Every transaction happens with CS asserted (low) and D/C telling the
      panel what it is: low for a command, high for data. */
  ghost predicate Framed(t: seq<Event>) {
    forall i :: 0 <= i < |t| && IsTransfer(t[i]) ==>
      && LastLevel(t[..i], ChipSelect) == Some(false)
      && LastLevel(t[..i], DataCommand) == Some(t[i].DataPhase?)
  }

  lemma {:induction false} SentCommandsAppend(a: seq<Event>, b: seq<Event>)
    ensures SentCommands(a + b) == SentCommands(a) + SentCommands(b)
  {
    if |b| == 0 {
      assert a + b == a;
    } else {
      assert (a + b)[..|a + b| - 1] == a + b[..|b| - 1];
      assert (a + b)[|a + b| - 1] == b[|b| - 1];
      SentCommandsAppend(a, b[..|b| - 1]);
    }
  }

  lemma {:induction false} SentDataAppend(a: seq<Event>, b: seq<Event>)
    ensures SentData(a + b) == SentData(a) + SentData(b)
  {
    if |b| == 0 {
      assert a + b == a;
    } else {
      assert (a + b)[..|a + b| - 1] == a + b[..|b| - 1];
      assert (a + b)[|a + b| - 1] == b[|b| - 1];
      SentDataAppend(a, b[..|b| - 1]);
    }
  }

  /** A transaction sends what its third event carries. */
  lemma TransactionSends(e: seq<Event>)
    requires |e| == 3 && e[0].Level? && e[1].Level?
    ensures SentCommands(e) == if e[2].CommandPhase? then [e[2].cmd] else []
    ensures SentData(e) == if e[2].DataPhase? then e[2].words else []
  {
    var e1, e2 := e[..1], e[..2];
    assert e1[..0] == [] && e1[0].Level?;
    assert SentCommands(e1[..0]) == [] && SentData(e1[..0]) == [];
    assert SentCommands(e1) == [] && SentData(e1) == [];
    assert e2[..1] == e1 && e2[1].Level?;
    assert SentCommands(e2) == [] && SentData(e2) == [];
  }

  /** A run of `WriteCommand` calls sends exactly its commands, and no data. */
  lemma {:induction false} CommandsRoundTrip(cmds: seq<U16>)
    ensures SentCommands(Commands(cmds)) == cmds
    ensures SentData(Commands(cmds)) == []
  {
    if |cmds| > 0 {
      var init, c := cmds[..|cmds| - 1], cmds[|cmds| - 1];
      var t, e := Commands(init), CommandEvents(c);
      assert Commands(cmds) == t + e;
      CommandsRoundTrip(init);
      SentCommandsAppend(t, e);
      SentDataAppend(t, e);
      TransactionSends(e);
      assert SentCommands(t + e) == init + [c];
      assert cmds == init + [c];
    }
  }

  /** A `WriteData` call sends exactly its words, and no command. */
  lemma DataRoundTrip(words: seq<U32>, bytes: nat)
    ensures SentData(DataEvents(words, bytes)) == words
    ensures SentCommands(DataEvents(words, bytes)) == []
  {
    TransactionSends(DataEvents(words, bytes));
  }

  /** Once a suffix has driven `pin`, what came before no longer matters. */
  lemma {:induction false} LastLevelAppend(a: seq<Event>, b: seq<Event>, pin: Pin)
    requires LastLevel(b, pin).Some?
    ensures LastLevel(a + b, pin) == LastLevel(b, pin)
  {
    assert |b| > 0;
    assert (a + b)[..|a + b| - 1] == a + b[..|b| - 1];
    if !(b[|b| - 1].Level? && b[|b| - 1].pin == pin) {
      LastLevelAppend(a, b[..|b| - 1], pin);
    }
  }

  /** Both transaction shapes drive D/C and CS before they transfer. */
  lemma TransactionFramed(e: seq<Event>, i: nat)
    requires (exists c :: e == CommandEvents(c)) || (exists w, n :: e == DataEvents(w, n))
    requires i < |e| && IsTransfer(e[i])
    ensures i == 2
    ensures LastLevel(e[..i], ChipSelect) == Some(false)
    ensures LastLevel(e[..i], DataCommand) == Some(e[i].DataPhase?)
  {
    assert e[..2][..1] == e[..1];
  }

  /** Appending one transaction keeps a trace framed. */
  lemma AppendTransaction(t: seq<Event>, e: seq<Event>)
    requires Framed(t)
    requires (exists c :: e == CommandEvents(c)) || (exists w, n :: e == DataEvents(w, n))
    ensures Framed(t + e)
  {
    forall i | 0 <= i < |t + e| && IsTransfer((t + e)[i])
      ensures LastLevel((t + e)[..i], ChipSelect) == Some(false)
      ensures LastLevel((t + e)[..i], DataCommand) == Some((t + e)[i].DataPhase?)
    {
      if i < |t| {
        assert (t + e)[..i] == t[..i];
      } else {
        var j := i - |t|;
        TransactionFramed(e, j);
        assert (t + e)[..i] == t + e[..j];
        LastLevelAppend(t, e[..j], ChipSelect);
        LastLevelAppend(t, e[..j], DataCommand);
      }
    }
  }

  /** The chunks of a pass send the frame's words and no command. */
  lemma {:induction false} BatchEventsSendFrame(codec: Codec, s: seq<U8>, n: nat)
    requires ValidCodec(codec) && |s| == BufferBytes && n <= BatchesPerFrame
    ensures SentData(BatchEvents(codec, s, n)) == FrameWords(codec, s, n)
    ensures SentCommands(BatchEvents(codec, s, n)) == []
  {
    if n > 0 {
      var e := DataEvents(BatchWords(codec, s, n - 1), ChunkBytes);
      BatchEventsSendFrame(codec, s, n - 1);
      SentDataAppend(BatchEvents(codec, s, n - 1), e);
      SentCommandsAppend(BatchEvents(codec, s, n - 1), e);
      DataRoundTrip(BatchWords(codec, s, n - 1), ChunkBytes);
    }
  }

  /** A framed trace stays framed when the chunks of a pass follow it. */
  lemma {:induction false} BatchEventsFramed(t: seq<Event>, codec: Codec, s: seq<U8>, n: nat)
    requires ValidCodec(codec) && |s| == BufferBytes && n <= BatchesPerFrame && Framed(t)
    ensures Framed(t + BatchEvents(codec, s, n))
  {
    if n > 0 {
      var e := DataEvents(BatchWords(codec, s, n - 1), ChunkBytes);
      BatchEventsFramed(t, codec, s, n - 1);
      AppendTransaction(t + BatchEvents(codec, s, n - 1), e);
      assert t + BatchEvents(codec, s, n) == t + BatchEvents(codec, s, n - 1) + e;
    } else {
      assert t + BatchEvents(codec, s, n) == t;
    }
  }
}
