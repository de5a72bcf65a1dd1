/**
 * The serial bus as an append-only log of transfers, and the fixed command
 * sequences the driver emits (Core/Src/st7567a.c:14-40, 76-131).
 */
module Bus {
  import opened Config
  import FB = Framebuffer

  /** One bus transaction: the reset pulse, a command byte (D/C low) or a data transfer (D/C high). */
  datatype BusEvent = Reset | Cmd(byte: bv8) | Data(bytes: seq<bv8>)

  // Command opcodes (Core/Src/st7567a.c:14-40)
  const DISPLAY_ON: bv8 := 0xAF
  const DISPLAY_OFF: bv8 := 0xAE
  const SET_START_LINE: bv8 := 0x40
  const SEG_NORMAL: bv8 := 0xA0
  const DISPLAY_DRAM: bv8 := 0xA4
  const DISPLAY_ALL_ON: bv8 := 0xA5
  const COM_REVERSE: bv8 := 0xC8
  const POWER_CONTROL: bv8 := 0x28
  const SET_RR: bv8 := 0x20
  const SET_EV_CMD: bv8 := 0x81
  const PAGE_ADDR: bv8 := 0xB0
  const COL_ADDR_H: bv8 := 0x10
  const COL_ADDR_L: bv8 := 0x00
  const BIAS9: bv8 := 0xA2
  const PWR_BOOSTER_ON: bv8 := 0x04
  const PWR_REGULATOR_ON: bv8 := 0x02
  const PWR_FOLLOWER_ON: bv8 := 0x01

  /** The bytes of all data transfers of a log, in order. */
  function Payload(log: seq<BusEvent>): seq<bv8>
  {
    if log == [] then []
    else (if log[0].Data? then log[0].bytes else []) + Payload(log[1..])
  }

  lemma {:induction false} PayloadAppend(a: seq<BusEvent>, b: seq<BusEvent>)
    ensures Payload(a + b) == Payload(a) + Payload(b)
  {
    if a != [] {
      assert (a + b)[0] == a[0];
      assert (a + b)[1..] == a[1..] + b;
      PayloadAppend(a[1..], b);
    } else {
      assert a + b == b;
    }
  }

  /** A log of commands and resets carries no data. */
  lemma {:induction false} PayloadOfCommands(log: seq<BusEvent>)
    requires forall k :: 0 <= k < |log| ==> !log[k].Data?
    ensures Payload(log) == []
  {
    if log != [] {
      PayloadOfCommands(log[1..]);
    }
  }

  // ---------------------------------------------------------------------------
  // st7567a_Display (Core/Src/st7567a.c:104-114)

  /** One iteration of the page loop: page address, column address high and low, then WIDTH data bytes. */
  function PageTransfer(buf: FB.Buffer, i: nat): seq<BusEvent>
    requires i < PAGES
  {
    [Cmd(PAGE_ADDR + i as bv8), Cmd(COL_ADDR_H), Cmd(COL_ADDR_L), Data(buf[WIDTH * i .. WIDTH * i + WIDTH])]
  }

  /** The first n iterations of the page loop. */
  function PageTransfers(buf: FB.Buffer, n: nat): seq<BusEvent>
    requires n <= PAGES
  {
    if n == 0 then [] else PageTransfers(buf, n - 1) + PageTransfer(buf, n - 1)
  }

  function DisplaySequence(buf: FB.Buffer): seq<BusEvent>
  {
    [Cmd(SET_START_LINE)] + PageTransfers(buf, PAGES) + [Cmd(DISPLAY_ON)]
  }

  lemma {:induction false} PageTransfersLength(buf: FB.Buffer, n: nat)
    requires n <= PAGES
    ensures |PageTransfers(buf, n)| == 4 * n
  {
    if n > 0 {
      PageTransfersLength(buf, n - 1);
    }
  }

  lemma {:induction false} PageTransfersAt(buf: FB.Buffer, n: nat, i: nat)
    requires i < n <= PAGES
    ensures |PageTransfers(buf, n)| == 4 * n
    ensures PageTransfers(buf, n)[4 * i .. 4 * i + 4] == PageTransfer(buf, i)
  {
    PageTransfersLength(buf, n);
    PageTransfersLength(buf, n - 1);
    var prev := PageTransfers(buf, n - 1);
    var page := PageTransfer(buf, n - 1);
    assert PageTransfers(buf, n) == prev + page;
    if i < n - 1 {
      PageTransfersAt(buf, n - 1, i);
      assert (prev + page)[4 * i .. 4 * i + 4] == prev[4 * i .. 4 * i + 4];
    } else {
      assert (prev + page)[4 * i .. 4 * i + 4] == page;
    }
  }

  /** One iteration of the page loop carries exactly the WIDTH bytes of page i. */
  lemma PageTransferPayload(buf: FB.Buffer, i: nat)
    requires i < PAGES
    ensures Payload(PageTransfer(buf, i)) == buf[WIDTH * i .. WIDTH * i + WIDTH]
  {
    var page := PageTransfer(buf, i);
    var d := buf[WIDTH * i .. WIDTH * i + WIDTH];
    assert page == page[..3] + [Data(d)];
    PayloadAppend(page[..3], [Data(d)]);
    PayloadOfCommands(page[..3]);
    assert [Data(d)][1..] == [];
  }

  lemma {:induction false} PageTransfersPayload(buf: FB.Buffer, n: nat)
    requires n <= PAGES
    ensures Payload(PageTransfers(buf, n)) == buf[.. WIDTH * n]
  {
    if n > 0 {
      var d := buf[WIDTH * (n - 1) .. WIDTH * n];
      assert buf[.. WIDTH * (n - 1)] + d == buf[.. WIDTH * n];
      PageTransfersPayload(buf, n - 1);
      PageTransferPayload(buf, n - 1);
      PayloadAppend(PageTransfers(buf, n - 1), PageTransfer(buf, n - 1));
    }
  }

  /**
   * The flush: the start-line command, then for each page 0..7 in increasing order its
   * page address 0xB0 + i, column address 0x10 and 0x00 and exactly WIDTH data bytes
   * (bytes 128i .. 128i+127 of the buffer), then display-on.
   */
  lemma DisplaySequenceLayout(buf: FB.Buffer)
    ensures |DisplaySequence(buf)| == 2 + 4 * PAGES
    ensures DisplaySequence(buf)[0] == Cmd(0x40)
    ensures DisplaySequence(buf)[1 + 4 * PAGES] == Cmd(0xAF)
    ensures forall i :: 0 <= i < PAGES ==>
      DisplaySequence(buf)[1 + 4 * i .. 5 + 4 * i] ==
        [Cmd(0xB0 + i as bv8), Cmd(0x10), Cmd(0x00), Data(buf[128 * i .. 128 * i + 128])]
  {
    PageTransfersLength(buf, PAGES);
    var pages := PageTransfers(buf, PAGES);
    forall i | 0 <= i < PAGES
      ensures DisplaySequence(buf)[1 + 4 * i .. 5 + 4 * i] ==
        [Cmd(0xB0 + i as bv8), Cmd(0x10), Cmd(0x00), Data(buf[128 * i .. 128 * i + 128])]
    {
      PageTransfersAt(buf, PAGES, i);
      assert DisplaySequence(buf)[1 + 4 * i .. 5 + 4 * i] == pages[4 * i .. 4 * i + 4];
      assert PageTransfer(buf, i) ==
        [Cmd(0xB0 + i as bv8), Cmd(0x10), Cmd(0x00), Data(buf[128 * i .. 128 * i + 128])];
    }
  }

  /** The eight data payloads of a flush, concatenated, are the whole framebuffer. */
  lemma DisplayPayloadIsBuffer(buf: FB.Buffer)
    ensures Payload(DisplaySequence(buf)) == buf
  {
    PageTransfersPayload(buf, PAGES);
    var pages := PageTransfers(buf, PAGES);
    PayloadAppend([Cmd(SET_START_LINE)], pages);
    PayloadAppend([Cmd(SET_START_LINE)] + pages, [Cmd(DISPLAY_ON)]);
    PayloadOfCommands([Cmd(SET_START_LINE)]);
    PayloadOfCommands([Cmd(DISPLAY_ON)]);
    assert buf[.. WIDTH * PAGES] == buf;
  }

  // ---------------------------------------------------------------------------
  // st7567a_Init (Core/Src/st7567a.c:76-94)

  /** Bias, segment and common direction, regulation ratio, electronic volume, then the three power stages. */
  const INIT_COMMANDS: seq<BusEvent> := [
    Cmd(BIAS9), Cmd(SEG_NORMAL), Cmd(COM_REVERSE), Cmd(SET_RR | 0x4), Cmd(SET_EV_CMD), Cmd(38),
    Cmd(POWER_CONTROL | PWR_BOOSTER_ON),
    Cmd(POWER_CONTROL | PWR_BOOSTER_ON | PWR_REGULATOR_ON),
    Cmd(POWER_CONTROL | PWR_BOOSTER_ON | PWR_REGULATOR_ON | PWR_FOLLOWER_ON)]

  function InitSequence(): seq<BusEvent>
  {
    [Reset] + INIT_COMMANDS + DisplaySequence(FB.Fill(PixelOff)) + [Cmd(DISPLAY_DRAM), Cmd(DISPLAY_ON)]
  }

  /** The log Init leaves, assembled from its three stages. */
  lemma InitLogShape(start: seq<BusEvent>, configured: seq<BusEvent>, flushed: seq<BusEvent>, final: seq<BusEvent>)
    requires configured == start + ([Reset] + INIT_COMMANDS)
    requires flushed == configured + DisplaySequence(FB.Fill(PixelOff))
    requires final == flushed + [Cmd(DISPLAY_DRAM)] + [Cmd(DISPLAY_ON)]
    ensures final == start + InitSequence()
  {
    var a, d := [Reset] + INIT_COMMANDS, DisplaySequence(FB.Fill(PixelOff));
    var t := [Cmd(DISPLAY_DRAM), Cmd(DISPLAY_ON)];
    AppendAssoc(flushed, [Cmd(DISPLAY_DRAM)], [Cmd(DISPLAY_ON)]);
    AppendAssoc(start, a, d);
    AppendAssoc(start, a + d, t);
  }

  lemma AppendAssoc(a: seq<BusEvent>, b: seq<BusEvent>, c: seq<BusEvent>)
    ensures (a + b) + c == a + (b + c)
  {
  }

  /** Init: the reset pulse, the bytes A2 A0 C8 24 81 26 2C 2E 2F, a flush of an all-zero buffer, then A4 AF. */
  lemma InitSequenceLayout()
    ensures |InitSequence()| == 12 + |DisplaySequence(FB.Fill(PixelOff))|
    ensures InitSequence()[..10] == [Reset, Cmd(0xA2), Cmd(0xA0), Cmd(0xC8), Cmd(0x24), Cmd(0x81),
                                     Cmd(0x26), Cmd(0x2C), Cmd(0x2E), Cmd(0x2F)]
    ensures InitSequence()[10 .. |InitSequence()| - 2] == DisplaySequence(FB.Fill(PixelOff))
    ensures InitSequence()[|InitSequence()| - 2 ..] == [Cmd(0xA4), Cmd(0xAF)]
  {
    var flush := DisplaySequence(FB.Fill(PixelOff));
    var head := [Reset] + INIT_COMMANDS;
    assert head == [Reset, Cmd(0xA2), Cmd(0xA0), Cmd(0xC8), Cmd(0x24), Cmd(0x81),
                    Cmd(0x26), Cmd(0x2C), Cmd(0x2E), Cmd(0x2F)];
    var tail := [Cmd(DISPLAY_DRAM), Cmd(DISPLAY_ON)];
    var all := head + flush + tail;
    assert InitSequence() == all;
    assert all[..10] == head;
    assert all[10 .. |all| - 2] == flush;
    assert all[|all| - 2 ..] == tail;
  }

  /** Every data byte Init sends is zero: the 1024 bytes of the cleared framebuffer. */
  lemma InitPayloadZero()
    ensures Payload(InitSequence()) == FB.Fill(PixelOff)
    ensures forall k :: 0 <= k < |Payload(InitSequence())| ==> Payload(InitSequence())[k] == 0
  {
    var zero := FB.Fill(PixelOff);
    var flush := DisplaySequence(zero);
    var head := [Reset] + INIT_COMMANDS;
    var tail := [Cmd(DISPLAY_DRAM), Cmd(DISPLAY_ON)];
    assert InitSequence() == (head + flush) + tail;
    PayloadOfCommands(head);
    PayloadOfCommands(tail);
    DisplayPayloadIsBuffer(zero);
    PayloadAppend(head, flush);
    assert Payload(head + flush) == zero;
    PayloadAppend(head + flush, tail);
    assert Payload(InitSequence()) == zero;
    forall k | 0 <= k < |zero| ensures zero[k] == 0 {
    }
  }

  /** The power stages are switched on cumulatively: booster, then booster and regulator, then all three. */
  lemma PowerStagesCumulative()
    ensures INIT_COMMANDS[6].byte & INIT_COMMANDS[7].byte == INIT_COMMANDS[6].byte
    ensures INIT_COMMANDS[7].byte & INIT_COMMANDS[8].byte == INIT_COMMANDS[7].byte
    ensures INIT_COMMANDS[6].byte & 0x07 == PWR_BOOSTER_ON
    ensures INIT_COMMANDS[8].byte & 0x07 == PWR_BOOSTER_ON | PWR_REGULATOR_ON | PWR_FOLLOWER_ON
  {
  }

  // ---------------------------------------------------------------------------
  // st7567a_SetContrast and st7567a_PowerSave (Core/Src/st7567a.c:116-131)

  function ContrastSequence(v: bv8): seq<BusEvent>
  {
    [Cmd(SET_EV_CMD), Cmd(v & 0x3F)]
  }

  /** The electronic-volume value is v cut to its low 6 bits: below 64, and v itself when v already is. */
  lemma ContrastMasked(v: bv8)
    ensures ContrastSequence(v)[0] == Cmd(0x81)
    ensures ContrastSequence(v)[1].byte < 64
    ensures v < 64 ==> ContrastSequence(v)[1] == Cmd(v)
    ensures ContrastSequence(v)[1].byte as int == (v as int) % 64
  {
  }

  function PowerSaveSequence(enable: bool): seq<BusEvent>
  {
    if enable then [Cmd(DISPLAY_OFF), Cmd(DISPLAY_ALL_ON)] else [Cmd(DISPLAY_DRAM), Cmd(DISPLAY_ON)]
  }

  /** Power save on is display-off then all-pixels-on; off is RAM display then display-on. */
  lemma PowerSaveBytes(enable: bool)
    ensures enable ==> PowerSaveSequence(enable) == [Cmd(0xAE), Cmd(0xA5)]
    ensures !enable ==> PowerSaveSequence(enable) == [Cmd(0xA4), Cmd(0xAF)]
  {
  }

  /** Leaving power save ends with the same two commands that end Init: RAM display, display on. */
  lemma PowerSaveOffRestoresNormalMode()
    ensures PowerSaveSequence(false) == InitSequence()[|InitSequence()| - 2 ..]
  {
    InitSequenceLayout();
  }
}
