/**
 * What the control layer guarantees, proved about the transitions of
 * module Control: the channel-switch protocol, the menu and mode state
 * machine, the button and command actions, the idle power cycle, the
 * receive latch, the redraw gate, and the invariant every pass of the main
 * loop keeps.
 */
module ControlProofs {
  import opened Platform
  import opened Text
  import opened Control

  // ---------------------------------------------------------------------------
  // The driver trace

  lemma WellFormedAppend(a: seq<Op>, b: seq<Op>)
    requires WellFormedTrace(a) && WellFormedTrace(b)
    ensures WellFormedTrace(a + b)
  {
    var t := a + b;
    forall i | 0 <= i < |t|
      ensures ChannelSwitchAt(t, i) && SleepCycleAt(t, i)
    {
      if i < |a| {
        assert ChannelSwitchAt(a, i) && SleepCycleAt(a, i);
      } else {
        assert ChannelSwitchAt(b, i - |a|) && SleepCycleAt(b, i - |a|);
      }
    }
  }

  lemma {:induction false} RenderCountAppend(a: seq<Op>, b: seq<Op>)
    ensures RenderCount(a + b) == RenderCount(a) + RenderCount(b)
    decreases |b|
  {
    if b == [] {
      assert a + b == a;
    } else {
      var init := b[..|b| - 1];
      RenderCountAppend(a, init);
      assert (a + b)[..|a + b| - 1] == a + init;
    }
  }

  /** Appending driver calls none of which is a render leaves the render count as it was. */
  lemma RenderCountAppendQuiet(a: seq<Op>, b: seq<Op>)
    requires forall i :: 0 <= i < |b| ==> !b[i].LcdRender?
    ensures RenderCount(a + b) == RenderCount(a)
  {
    RenderCountAppend(a, b);
    RenderCountQuiet(b);
  }

  lemma {:induction false} RenderCountQuiet(b: seq<Op>)
    requires forall i :: 0 <= i < |b| ==> !b[i].LcdRender?
    ensures RenderCount(b) == 0
    decreases |b|
  {
    if b != [] {
      RenderCountQuiet(b[..|b| - 1]);
    }
  }

  // ---------------------------------------------------------------------------
  // Channel controller

  /** 126 wraps to 0, anything above clamps to 125, 0..125 are kept; normalising twice changes nothing. */
  lemma NormalizeChannelCases(requested: uint8)
    ensures requested <= MAX_CHANNEL ==> NormalizeChannel(requested) == requested
    ensures requested == 126 ==> NormalizeChannel(requested) == 0
    ensures requested > 126 ==> NormalizeChannel(requested) == MAX_CHANNEL
    ensures NormalizeChannel(NormalizeChannel(requested)) == NormalizeChannel(requested)
  {
  }

  /** Asking for the channel already selected changes nothing: no counter reset, no radio call, no redraw. */
  lemma SetChannelSameIsNoop(s: State, requested: uint8)
    requires NormalizeChannel(requested) == s.radio.channel
    ensures SetChannel(s, requested) == s
  {
  }

  /**
   * A different channel clears the counters, selects the channel, and issues
   * exactly setChannel, stopListening, startListening, in that order; no other
   * global changes and no redraw is requested.
   */
  lemma SetChannelSwitchProtocol(s: State, requested: uint8)
    requires NormalizeChannel(requested) != s.radio.channel
    ensures var c := NormalizeChannel(requested);
      var t := SetChannel(s, requested);
      && t.radio.channel == c && t.radio.receiveCount == 0 && !t.radio.hasData
      && t.trace == s.trace + [RadioSetChannel(c), RadioStopListening, RadioStartListening]
      && t.screen.refreshLcd == s.screen.refreshLcd
      && t == s.(radio := s.radio.(channel := c, receiveCount := 0, hasData := false), trace := t.trace)
  {
  }

  /**
   * Stepping the channel with uint8_t arithmetic is a circular dial over
   * 0..125: 125 + 1 gives 126, which wraps to 0; 0 - 1 gives 255, which
   * clamps to 125.
   */
  lemma ChannelDial(channel: uint8)
    requires channel <= MAX_CHANNEL
    ensures NormalizeChannel(ToUint8(channel + 1)) == (channel + 1) % 126
    ensures NormalizeChannel(ToUint8(channel - 1)) == (channel + 125) % 126
  {
  }

  // ---------------------------------------------------------------------------
  // Menu and display mode

  function MenuNextN(sel: uint8, n: nat): uint8
  {
    if n == 0 then sel else MenuNext(MenuNextN(sel, n - 1))
  }

  function MenuPrevN(sel: uint8, n: nat): uint8
  {
    if n == 0 then sel else MenuPrev(MenuPrevN(sel, n - 1))
  }

  /** menuNext and menuPrev undo each other on the four entries. */
  lemma MenuNextPrevInverse(sel: uint8)
    requires (sel as int) < MENU_ITEMS
    ensures MenuPrev(MenuNext(sel)) == sel
    ensures MenuNext(MenuPrev(sel)) == sel
  {
  }

  /** One step of menuNext or menuPrev on the four entries is a step modulo four. */
  lemma MenuStep(sel: uint8)
    requires (sel as int) < MENU_ITEMS
    ensures MenuNext(sel) as int == (sel as int + 1) % MENU_ITEMS
    ensures MenuPrev(sel) as int == (sel as int - 1) % MENU_ITEMS
  {
  }

  /** n calls of menuNext move the selection n entries forward, modulo the four entries. */
  lemma {:induction false} MenuNextNRotates(sel: uint8, n: nat)
    requires (sel as int) < MENU_ITEMS
    ensures MenuNextN(sel, n) as int == (sel as int + n) % MENU_ITEMS
  {
    if n > 0 {
      var k := MenuNextN(sel, n - 1);
      MenuNextNRotates(sel, n - 1);
      MenuStep(k);
      ModFourStep(sel as int + n - 1, 1);
    }
  }

  /** n calls of menuPrev move the selection n entries back, modulo the four entries. */
  lemma {:induction false} MenuPrevNRotates(sel: uint8, n: nat)
    requires (sel as int) < MENU_ITEMS
    ensures MenuPrevN(sel, n) as int == (sel as int - n) % MENU_ITEMS
  {
    if n > 0 {
      var k := MenuPrevN(sel, n - 1);
      MenuPrevNRotates(sel, n - 1);
      MenuStep(k);
      ModFourStep(sel as int - n + 1, -1);
    }
  }

  lemma ModFourStep(a: int, d: int)
    ensures (a % 4 + d) % 4 == (a + d) % 4
  {
    var q := a / 4;
    assert a == 4 * q + a % 4;
    assert a + d == 4 * q + (a % 4 + d);
  }

  /** Four steps either way bring the selection back. */
  lemma MenuCycle(sel: uint8)
    requires (sel as int) < MENU_ITEMS
    ensures MenuNextN(sel, MENU_ITEMS) == sel
    ensures MenuPrevN(sel, MENU_ITEMS) == sel
  {
    MenuNextNRotates(sel, MENU_ITEMS);
    MenuPrevNRotates(sel, MENU_ITEMS);
  }

  /** ASCII becomes DEC, anything else ASCII; twice is the identity on the two modes; DEC at start. */
  lemma ChangeModeToggles(mode: uint8, deadline: uint64)
    ensures ChangeMode(MENU_MODE_ASCII) == MENU_MODE_DEC
    ensures mode != MENU_MODE_ASCII ==> ChangeMode(mode) == MENU_MODE_ASCII
    ensures mode == MENU_MODE_ASCII || mode == MENU_MODE_DEC ==> ChangeMode(ChangeMode(mode)) == mode
    ensures Initial(deadline).screen.rxShowMode == MENU_MODE_DEC
  {
  }

  /** The backlight setting flips, and afterwards the active-low pin is low exactly when it is enabled. */
  lemma OnOffBacklightEffect(d: Screen)
    ensures var t := DisplayOnOffBacklight(d);
      && t.enableBackLight == !d.enableBackLight
      && (!t.backlightPinHigh <==> t.enableBackLight)
      && t == d.(enableBackLight := t.enableBackLight, backlightPinHigh := t.backlightPinHigh)
  {
  }

  // ---------------------------------------------------------------------------
  // The actions shared by the serial commands and the buttons

  /**
   * Confirm runs the selected entry's action only when the menu is shown and
   * the entry is not "Exit" (Show D/A toggles the mode, Led ON/OFF the
   * backlight, Send Data nothing), then flips the menu and requests a redraw;
   * the selection and every other global are kept.
   */
  lemma ConfirmActionEffect(s: State)
    ensures var t := ConfirmAction(s);
      var runs := s.screen.showMenu && s.screen.menuSelItem != MENU_ITEM_EXIT;
      && t.screen.showMenu == !s.screen.showMenu && t.screen.refreshLcd && t.screen.menuSelItem == s.screen.menuSelItem
      && t.screen.rxShowMode == (if runs && s.screen.menuSelItem == MENU_ITEM_SHOW_MODE then ChangeMode(s.screen.rxShowMode) else s.screen.rxShowMode)
      && t.screen.enableBackLight == (if runs && s.screen.menuSelItem == MENU_ITEM_BACKLIGHT then !s.screen.enableBackLight else s.screen.enableBackLight)
      && t.screen.backlightPinHigh == (if runs && s.screen.menuSelItem == MENU_ITEM_BACKLIGHT then !t.screen.enableBackLight else s.screen.backlightPinHigh)
      && t == s.(screen := s.screen.(showMenu := t.screen.showMenu, refreshLcd := true, rxShowMode := t.screen.rxShowMode,
                                     enableBackLight := t.screen.enableBackLight, backlightPinHigh := t.screen.backlightPinHigh))
  {
  }

  /**
   * Opening and closing the menu restores it, with the selection kept, and
   * runs the selected entry's action on the way out: with Send Data or Exit
   * selected nothing but the redraw request remains.
   */
  lemma ConfirmTwiceFromReceiveView(s: State)
    requires !s.screen.showMenu
    ensures ConfirmAction(ConfirmAction(s)) == DisplayHasChanged(s.(screen := SelectedEntryAction(s.screen)))
    ensures s.screen.menuSelItem == MENU_ITEM_SEND_DATA || s.screen.menuSelItem == MENU_ITEM_EXIT ==>
      ConfirmAction(ConfirmAction(s)) == DisplayHasChanged(s)
  {
  }

  /**
   * Next moves the selection when the menu is shown and steps the channel up
   * the circular dial otherwise; either way a redraw is requested.
   */
  lemma NextActionEffect(s: State)
    requires Valid(s)
    ensures var t := NextAction(s);
      && t.screen.refreshLcd
      && (s.screen.showMenu ==>
            t == s.(screen := s.screen.(menuSelItem := MenuNext(s.screen.menuSelItem), refreshLcd := true)))
      && (!s.screen.showMenu ==>
            && t.radio.channel == (s.radio.channel + 1) % 126
            && t.screen.menuSelItem == s.screen.menuSelItem
            && t == DisplayHasChanged(SetChannel(s, t.radio.channel)))
  {
    ChannelDial(s.radio.channel);
  }

  /** Prev moves the selection back when the menu is shown and steps the channel down otherwise. */
  lemma PrevActionEffect(s: State)
    requires Valid(s)
    ensures var t := PrevAction(s);
      && t.screen.refreshLcd
      && (s.screen.showMenu ==>
            t == s.(screen := s.screen.(menuSelItem := MenuPrev(s.screen.menuSelItem), refreshLcd := true)))
      && (!s.screen.showMenu ==>
            && t.radio.channel == (s.radio.channel + 125) % 126
            && t.screen.menuSelItem == s.screen.menuSelItem
            && t == DisplayHasChanged(SetChannel(s, t.radio.channel)))
  {
    ChannelDial(s.radio.channel);
  }

  /** Next then Prev returns to the same channel or the same menu entry. */
  lemma NextThenPrev(s: State)
    requires Valid(s)
    ensures Valid(NextAction(s))
    ensures PrevAction(NextAction(s)).radio.channel == s.radio.channel
    ensures PrevAction(NextAction(s)).screen.menuSelItem == s.screen.menuSelItem
  {
    NextActionEffect(s);
    NextActionPreservesValid(s);
    PrevActionEffect(NextAction(s));
    MenuNextPrevInverse(s.screen.menuSelItem);
  }

  // ---------------------------------------------------------------------------
  // Serial commands

  /** "channel" without an argument does nothing; unknown commands and "test" change nothing. */
  lemma CommandsWithoutEffect(s: State, cmd: Command)
    requires (cmd.name == "channel" && cmd.args == []) || cmd.name !in {"channel", "q", "w", "e"}
    ensures HandleCommand(s, cmd) == s
  {
  }

  /**
   * "channel <arg>" selects atoi(arg) truncated to uint8_t and normalised,
   * and requests a redraw even when the channel stays the same.
   */
  lemma ChannelCommandEffect(s: State, args: seq<string>)
    requires |args| > 0
    ensures var t := HandleCommand(s, Command("channel", args));
      var requested := ToUint8(Atoi(args[0]));
      && t == DisplayHasChanged(SetChannel(s, requested))
      && t.radio.channel == NormalizeChannel(requested)
      && t.screen.refreshLcd
  {
  }

  /** A channel written in decimal is the channel selected; "channel -1" wraps round to 125. */
  lemma ChannelCommandOfNumber(s: State, n: nat)
    ensures HandleCommand(s, Command("channel", [Dec(n)])).radio.channel == NormalizeChannel(n % 256)
    ensures HandleCommand(s, Command("channel", ["-" + Dec(1)])).radio.channel == MAX_CHANNEL
  {
    AtoiOfDec(n);
    AtoiOfDec(1);
  }

  /** "q", "w" and "e" are the confirm, next and previous actions. */
  lemma CommandActions(s: State, args: seq<string>)
    ensures HandleCommand(s, Command("q", args)) == ConfirmAction(s)
    ensures HandleCommand(s, Command("w", args)) == NextAction(s)
    ensures HandleCommand(s, Command("e", args)) == PrevAction(s)
  {
  }

  // ---------------------------------------------------------------------------
  // Buttons

  lemma ActionsKeepLatchesAndDeadline(s: State)
    ensures ConfirmAction(s).latches == s.latches && ConfirmAction(s).idleTimerCicles == s.idleTimerCicles
    ensures NextAction(s).latches == s.latches && NextAction(s).idleTimerCicles == s.idleTimerCicles
    ensures PrevAction(s).latches == s.latches && PrevAction(s).idleTimerCicles == s.idleTimerCicles
  {
  }

  /**
   * A press latch is only ever cleared (when its pin is low), never set; the
   * idle deadline is rearmed exactly when at least one button pin is high.
   */
  lemma CheckButtonLatchesAndDeadline(s: State, pins: Pins, rearm: uint64)
    ensures var t := CheckButton(s, pins, rearm);
      && t.latches.button0Pressed == (s.latches.button0Pressed && pins.button0)
      && t.latches.button1Pressed == (s.latches.button1Pressed && pins.button1)
      && t.latches.button2Pressed == (s.latches.button2Pressed && pins.button2)
      && t.idleTimerCicles == (if AnyHigh(pins) then rearm else s.idleTimerCicles)
  {
    var s0 := PollButton0(s, pins.button0);
    var s1 := PollButton1(s0, pins.button1);
    ActionsKeepLatchesAndDeadline(s);
    ActionsKeepLatchesAndDeadline(s0);
    ActionsKeepLatchesAndDeadline(s1);
  }

  /** Buttons are handled in wiring order: 0, then 1, then 2, each on the state the previous one left. */
  lemma CheckButtonOrder(s: State, pins: Pins, rearm: uint64)
    requires s.latches == Latches(false, false, false)
    ensures var s0 := if pins.button0 then ConfirmAction(s) else s;
      var s1 := if pins.button1 then NextAction(s0) else s0;
      var s2 := if pins.button2 then PrevAction(s1) else s1;
      CheckButton(s, pins, rearm) == if AnyHigh(pins) then ResetIdleTimer(s2, rearm) else s2
  {
    ActionsKeepLatchesAndDeadline(s);
    var s0 := if pins.button0 then ConfirmAction(s) else s;
    ActionsKeepLatchesAndDeadline(s0);
    var s1 := if pins.button1 then NextAction(s0) else s0;
    ActionsKeepLatchesAndDeadline(s1);
  }

  /** Button 0, 1 and 2 alone do what "q", "w" and "e" do, and also rearm the idle deadline. */
  lemma ButtonsMatchCommands(s: State, args: seq<string>, rearm: uint64)
    requires Valid(s)
    ensures CheckButton(s, Pins(true, false, false), rearm) == ResetIdleTimer(HandleCommand(s, Command("q", args)), rearm)
    ensures CheckButton(s, Pins(false, true, false), rearm) == ResetIdleTimer(HandleCommand(s, Command("w", args)), rearm)
    ensures CheckButton(s, Pins(false, false, true), rearm) == ResetIdleTimer(HandleCommand(s, Command("e", args)), rearm)
  {
    CheckButtonOrder(s, Pins(true, false, false), rearm);
    CheckButtonOrder(s, Pins(false, true, false), rearm);
    CheckButtonOrder(s, Pins(false, false, true), rearm);
  }

  /**
   * Since no latch is ever set, a button held over two polls acts twice:
   * holding button 0 shows the menu and hides it again.
   */
  lemma HeldConfirmRepeats(s: State, rearm: uint64)
    requires Valid(s)
    ensures var once := CheckButton(s, Pins(true, false, false), rearm);
      Valid(once) && CheckButton(once, Pins(true, false, false), rearm).screen.showMenu == s.screen.showMenu
  {
    var p0 := Pins(true, false, false);
    CheckButtonOrder(s, p0, rearm);
    CheckButtonPreservesValid(s, p0, rearm);
    var once := CheckButton(s, p0, rearm);
    CheckButtonOrder(once, p0, rearm);
    ConfirmActionEffect(s);
    ConfirmActionEffect(once);
  }

  /** Holding button 1 with the menu hidden over two polls moves two channels up the dial. */
  lemma HeldNextRepeats(s: State, rearm: uint64)
    requires Valid(s) && !s.screen.showMenu
    ensures var once := CheckButton(s, Pins(false, true, false), rearm);
      Valid(once) && CheckButton(once, Pins(false, true, false), rearm).radio.channel == (s.radio.channel + 2) % 126
  {
    var p1 := Pins(false, true, false);
    CheckButtonOrder(s, p1, rearm);
    CheckButtonPreservesValid(s, p1, rearm);
    NextActionEffect(s);
    var once := CheckButton(s, p1, rearm);
    CheckButtonOrder(once, p1, rearm);
    NextActionEffect(once);
  }

  // ---------------------------------------------------------------------------
  // Idle power manager

  /**
   * When the deadline is set and reached, checkJobs powers the radio down,
   * sleeps the display, sleeps, powers the radio up, wakes the display (in
   * that order), requests a redraw and rearms the deadline; the backlight pin
   * ends low exactly when the backlight is enabled.
   */
  lemma CheckJobsFires(s: State, now: uint64, rearm: uint64)
    requires IdleExpired(s, now)
    ensures var t := CheckJobs(s, now, rearm);
      && t.trace == s.trace + [RadioPowerDown, LcdSleep, McuSleep, RadioPowerUp, LcdWake]
      && t.idleTimerCicles == rearm && t.screen.refreshLcd
      && t.screen.enableBackLight == s.screen.enableBackLight && (!t.screen.backlightPinHigh <==> t.screen.enableBackLight)
      && t == s.(idleTimerCicles := rearm, trace := t.trace,
                 screen := s.screen.(refreshLcd := true, backlightPinHigh := !s.screen.enableBackLight))
  {
  }

  /** Before the deadline, or with the deadline 0, checkJobs changes nothing. */
  lemma CheckJobsQuiet(s: State, now: uint64, rearm: uint64)
    requires s.idleTimerCicles == 0 || now < s.idleTimerCicles
    ensures CheckJobs(s, now, rearm) == s
  {
  }

  /** displayIdle forces the backlight off without forgetting the setting; the wake restores it. */
  lemma IdleThenWake(s: State)
    ensures DisplayIdle(s).screen.backlightPinHigh && DisplayIdle(s).screen.enableBackLight == s.screen.enableBackLight
    ensures var t := DisplayWake(DisplayIdle(s));
      && (!t.screen.backlightPinHigh <==> s.screen.enableBackLight) && t.screen.enableBackLight == s.screen.enableBackLight
      && t.screen.refreshLcd && t.trace == s.trace + [LcdSleep, LcdWake]
  {
  }

  /** Serial commands, the radio, the battery and the redraw never touch the idle deadline. */
  lemma OnlyButtonsAndJobsMoveDeadline(s: State, cmd: Command, rxOk: bool, payload: seq<uint8>, reading: uint16)
    ensures HandleCommand(s, cmd).idleTimerCicles == s.idleTimerCicles
    ensures ReadRadioData(s, rxOk, payload).idleTimerCicles == s.idleTimerCicles
    ensures ReadBatteryLevel(s, reading).idleTimerCicles == s.idleTimerCicles
    ensures DisplayLoop(s).idleTimerCicles == s.idleTimerCicles
  {
    ActionsKeepLatchesAndDeadline(s);
  }

  // ---------------------------------------------------------------------------
  // Radio receive latch and battery

  /**
   * Without the latch nothing happens. With it, the latch is cleared and a
   * redraw requested; only an rx_ok event also copies the payload, counts it
   * (wrapping at 16 bits) and marks data present.
   */
  lemma ReadRadioDataEffect(s: State, rxOk: bool, payload: seq<uint8>)
    ensures !s.radio.rxReceived ==> ReadRadioData(s, rxOk, payload) == s
    ensures s.radio.rxReceived && rxOk ==>
      ReadRadioData(s, rxOk, payload) ==
        s.(radio := s.radio.(rxReceived := false, data := payload,
                             receiveCount := (s.radio.receiveCount + 1) % 0x1_0000, hasData := true),
           screen := s.screen.(refreshLcd := true))
    ensures s.radio.rxReceived && !rxOk ==>
      ReadRadioData(s, rxOk, payload) ==
        s.(radio := s.radio.(rxReceived := false), screen := s.screen.(refreshLcd := true))
  {
  }

  /** The count after 65535 receptions in a row wraps to 0. */
  lemma ReceiveCountWraps(s: State, payload: seq<uint8>)
    requires s.radio.rxReceived && s.radio.receiveCount == 0xFFFF
    ensures ReadRadioData(s, true, payload).radio.receiveCount == 0
  {
  }

  /** The reading is always stored; a redraw is requested exactly when it differs from the last one. */
  lemma ReadBatteryLevelEffect(s: State, reading: uint16)
    ensures var t := ReadBatteryLevel(s, reading);
      && t.batteryLevel == reading
      && (t.screen.refreshLcd <==> s.screen.refreshLcd || s.batteryLevel != reading)
      && t == s.(batteryLevel := reading, screen := s.screen.(refreshLcd := t.screen.refreshLcd))
  {
  }

  // ---------------------------------------------------------------------------
  // Redraw gate and screen contents

  /** displayLoop renders once and clears the flag when it is set, and does nothing otherwise. */
  lemma DisplayLoopRendersIffDirty(s: State)
    ensures var t := DisplayLoop(s);
      && !t.screen.refreshLcd
      && RenderCount(t.trace) == RenderCount(s.trace) + (if s.screen.refreshLcd then 1 else 0)
      && (s.screen.refreshLcd ==> t == s.(screen := s.screen.(refreshLcd := false), trace := s.trace + [LcdRender(FrameOf(s))]))
      && (!s.screen.refreshLcd ==> t == s)
  {
    if s.screen.refreshLcd {
      var cleared := s.(screen := s.screen.(refreshLcd := false));
      assert FrameOf(cleared) == FrameOf(s);
      var t := s.trace + [LcdRender(FrameOf(s))];
      assert t[..|t| - 1] == s.trace;
    }
  }

  /** Any number of redraw requests before displayLoop give one render. */
  lemma RedrawRequestsCoalesce(s: State)
    ensures DisplayHasChanged(DisplayHasChanged(s)) == DisplayHasChanged(s)
    ensures RenderCount(DisplayLoop(DisplayHasChanged(s)).trace) == RenderCount(s.trace) + 1
  {
    DisplayLoopRendersIffDirty(DisplayHasChanged(s));
  }

  /**
   * The menu is drawn whenever it is shown; otherwise received data is drawn
   * in the selected mode; without data only the header is drawn.
   */
  lemma FrameBodyChoice(s: State)
    requires Valid(s)
    ensures var body := FrameOf(s).body;
      && (body.MenuBody? <==> s.screen.showMenu)
      && (body.DecimalBody? <==> !s.screen.showMenu && s.radio.hasData && s.screen.rxShowMode == MENU_MODE_DEC)
      && (body.GlyphBody? <==> !s.screen.showMenu && s.radio.hasData && s.screen.rxShowMode == MENU_MODE_ASCII)
      && (body.NoBody? <==> !s.screen.showMenu && !s.radio.hasData)
      && (body.GlyphBody? ==> body.glyphs == s.radio.data)
  {
  }

  /** Every text displayWriteData builds fits its 100-byte buffer. */
  lemma FrameFitsBuffer(s: State)
    requires Valid(s)
    ensures |FrameOf(s).header| < BUFFER_SIZE
    ensures FrameOf(s).body.MenuBody? ==> |FrameOf(s).body.text| < BUFFER_SIZE
    ensures FrameOf(s).body.DecimalBody? ==> |FrameOf(s).body.text| < BUFFER_SIZE
  {
    HeaderLayout(s.radio.channel, s.batteryLevel, s.radio.receiveCount);
    MenuTextLayout(s.screen.menuSelItem);
    DecimalPayloadFits(s.radio.data);
  }

  // ---------------------------------------------------------------------------
  // The invariant

  lemma InitialIsValid(deadline: uint64)
    ensures Valid(Initial(deadline))
    ensures Initial(deadline).screen.refreshLcd && !Initial(deadline).screen.showMenu
    ensures Initial(deadline).radio.channel == DEFAULT_CHANNEL && Initial(deadline).screen.menuSelItem == 0
  {
  }

  lemma SetChannelPreservesValid(s: State, requested: uint8)
    requires Valid(s)
    ensures Valid(SetChannel(s, requested))
  {
    var c := NormalizeChannel(requested);
    if c != s.radio.channel {
      var ops := [RadioSetChannel(c), RadioStopListening, RadioStartListening];
      assert WellFormedTrace(ops) by {
        forall i | 0 <= i < |ops|
          ensures ChannelSwitchAt(ops, i) && SleepCycleAt(ops, i)
        {
        }
      }
      WellFormedAppend(s.trace, ops);
    }
  }

  lemma ConfirmActionPreservesValid(s: State)
    requires Valid(s)
    ensures Valid(ConfirmAction(s))
  {
  }

  lemma NextActionPreservesValid(s: State)
    requires Valid(s)
    ensures Valid(NextAction(s))
  {
    SetChannelPreservesValid(s, ToUint8(s.radio.channel + 1));
  }

  lemma PrevActionPreservesValid(s: State)
    requires Valid(s)
    ensures Valid(PrevAction(s))
  {
    SetChannelPreservesValid(s, ToUint8(s.radio.channel - 1));
  }

  lemma HandleCommandPreservesValid(s: State, cmd: Command)
    requires Valid(s)
    ensures Valid(HandleCommand(s, cmd))
  {
    if cmd.name == "channel" && |cmd.args| > 0 {
      SetChannelPreservesValid(s, ToUint8(Atoi(cmd.args[0])));
    }
    ConfirmActionPreservesValid(s);
    NextActionPreservesValid(s);
    PrevActionPreservesValid(s);
  }

  lemma CheckButtonPreservesValid(s: State, pins: Pins, rearm: uint64)
    requires Valid(s)
    ensures Valid(CheckButton(s, pins, rearm))
  {
    CheckButtonOrder(s, pins, rearm);
    ConfirmActionPreservesValid(s);
    var s0 := if pins.button0 then ConfirmAction(s) else s;
    NextActionPreservesValid(s0);
    var s1 := if pins.button1 then NextAction(s0) else s0;
    PrevActionPreservesValid(s1);
  }

  lemma CheckJobsPreservesValid(s: State, now: uint64, rearm: uint64)
    requires Valid(s)
    ensures Valid(CheckJobs(s, now, rearm))
  {
    if IdleExpired(s, now) {
      var ops := [RadioPowerDown, LcdSleep, McuSleep, RadioPowerUp, LcdWake];
      assert WellFormedTrace(ops) by {
        forall i | 0 <= i < |ops|
          ensures ChannelSwitchAt(ops, i) && SleepCycleAt(ops, i)
        {
        }
      }
      WellFormedAppend(s.trace, ops);
      CheckJobsFires(s, now, rearm);
    }
  }

  lemma ReadRadioDataPreservesValid(s: State, rxOk: bool, payload: seq<uint8>)
    requires Valid(s) && |payload| == RF_PAYLOAD_SIZE
    ensures Valid(ReadRadioData(s, rxOk, payload))
  {
  }

  lemma ReadBatteryLevelPreservesValid(s: State, reading: uint16)
    requires Valid(s)
    ensures Valid(ReadBatteryLevel(s, reading))
  {
  }

  lemma DisplayLoopPreservesValid(s: State)
    requires Valid(s)
    ensures Valid(DisplayLoop(s))
  {
    if s.screen.refreshLcd {
      var ops := [LcdRender(FrameOf(s))];
      assert WellFormedTrace(ops);
      WellFormedAppend(s.trace, ops);
    }
  }

  /** Every pass of the main loop keeps the invariant. */
  lemma LoopIterationPreservesValid(s: State, inputs: Inputs)
    requires Valid(s) && |inputs.payload| == RF_PAYLOAD_SIZE
    ensures Valid(LoopIteration(s, inputs))
  {
    var s1 := CheckJobs(s, inputs.now, inputs.wakeRearm);
    CheckJobsPreservesValid(s, inputs.now, inputs.wakeRearm);
    var s2 := CommandStage(s1, inputs.command);
    if inputs.command.Some? {
      HandleCommandPreservesValid(s1, inputs.command.value);
    }
    var s3 := DisplayLoop(s2);
    DisplayLoopPreservesValid(s2);
    var s4 := ReadBatteryLevel(s3, inputs.batteryReading);
    ReadBatteryLevelPreservesValid(s3, inputs.batteryReading);
    var s5 := ReadRadioData(s4, inputs.rxOk, inputs.payload);
    ReadRadioDataPreservesValid(s4, inputs.rxOk, inputs.payload);
    CheckButtonPreservesValid(s5, inputs.pins, inputs.buttonRearm);
  }

  // ---------------------------------------------------------------------------
  // One pass of the main loop

  lemma SetChannelQuiet(s: State, requested: uint8)
    ensures RenderCount(SetChannel(s, requested).trace) == RenderCount(s.trace)
  {
    var c := NormalizeChannel(requested);
    RenderCountAppendQuiet(s.trace, [RadioSetChannel(c), RadioStopListening, RadioStartListening]);
  }

  lemma ActionsQuiet(s: State)
    ensures RenderCount(ConfirmAction(s).trace) == RenderCount(s.trace)
    ensures RenderCount(NextAction(s).trace) == RenderCount(s.trace)
    ensures RenderCount(PrevAction(s).trace) == RenderCount(s.trace)
  {
    SetChannelQuiet(s, ToUint8(s.radio.channel + 1));
    SetChannelQuiet(s, ToUint8(s.radio.channel - 1));
  }

  lemma CheckJobsAddsNoRender(s: State, now: uint64, rearm: uint64)
    ensures RenderCount(CheckJobs(s, now, rearm).trace) == RenderCount(s.trace)
  {
    if IdleExpired(s, now) {
      CheckJobsFires(s, now, rearm);
      RenderCountAppendQuiet(s.trace, [RadioPowerDown, LcdSleep, McuSleep, RadioPowerUp, LcdWake]);
    }
  }

  lemma CommandStageAddsNoRender(s: State, command: Option<Command>)
    ensures RenderCount(CommandStage(s, command).trace) == RenderCount(s.trace)
  {
    if command.Some? {
      var cmd := command.value;
      if cmd.name == "channel" && |cmd.args| > 0 {
        SetChannelQuiet(s, ToUint8(Atoi(cmd.args[0])));
      }
    }
    ActionsQuiet(s);
  }

  lemma PollButtonsAddNoRender(s: State, high: bool)
    ensures RenderCount(PollButton0(s, high).trace) == RenderCount(s.trace)
    ensures RenderCount(PollButton1(s, high).trace) == RenderCount(s.trace)
    ensures RenderCount(PollButton2(s, high).trace) == RenderCount(s.trace)
  {
    ActionsQuiet(s);
  }

  lemma CheckButtonAddsNoRender(s: State, pins: Pins, rearm: uint64)
    ensures RenderCount(CheckButton(s, pins, rearm).trace) == RenderCount(s.trace)
  {
    var s0 := PollButton0(s, pins.button0);
    var s1 := PollButton1(s0, pins.button1);
    var s2 := PollButton2(s1, pins.button2);
    PollButtonsAddNoRender(s, pins.button0);
    PollButtonsAddNoRender(s0, pins.button1);
    PollButtonsAddNoRender(s1, pins.button2);
    assert CheckButton(s, pins, rearm).trace == s2.trace;
  }

  /** The battery and the radio receive path make no driver call that is traced. */
  lemma SensorsLeaveTrace(s: State, inputs: Inputs)
    ensures ReadBatteryLevel(s, inputs.batteryReading).trace == s.trace
    ensures ReadRadioData(s, inputs.rxOk, inputs.payload).trace == s.trace
  {
  }

  /**
   * A pass renders at most once: exactly when the redraw flag is set by the
   * time displayLoop runs, that is after checkJobs and the serial step.
   */
  lemma LoopIterationRenders(s: State, inputs: Inputs)
    ensures var mid := CommandStage(CheckJobs(s, inputs.now, inputs.wakeRearm), inputs.command);
      RenderCount(LoopIteration(s, inputs).trace) == RenderCount(s.trace) + (if mid.screen.refreshLcd then 1 else 0)
  {
    var s1 := CheckJobs(s, inputs.now, inputs.wakeRearm);
    var s2 := CommandStage(s1, inputs.command);
    var s3 := DisplayLoop(s2);
    var s4 := ReadBatteryLevel(s3, inputs.batteryReading);
    var s5 := ReadRadioData(s4, inputs.rxOk, inputs.payload);
    CheckJobsAddsNoRender(s, inputs.now, inputs.wakeRearm);
    CommandStageAddsNoRender(s1, inputs.command);
    DisplayLoopRendersIffDirty(s2);
    SensorsLeaveTrace(s3, inputs);
    SensorsLeaveTrace(s4, inputs);
    CheckButtonAddsNoRender(s5, inputs.pins, inputs.buttonRearm);
  }

  /** A redraw already requested when a pass starts is rendered in that pass. */
  lemma PendingRedrawRendered(s: State, inputs: Inputs)
    requires s.screen.refreshLcd
    ensures RenderCount(LoopIteration(s, inputs).trace) == RenderCount(s.trace) + 1
  {
    LoopIterationRenders(s, inputs);
  }

  /**
   * Changes made after displayLoop (a new battery reading, a received
   * packet, a button) are not rendered in the pass that makes them; they
   * leave the redraw flag set for the next pass.
   */
  lemma LateChangesWaitForNextPass(s: State, inputs: Inputs)
    requires Valid(s) && !s.screen.refreshLcd && !IdleExpired(s, inputs.now) && inputs.command.None?
    ensures var t := LoopIteration(s, inputs);
      && RenderCount(t.trace) == RenderCount(s.trace)
      && (t.screen.refreshLcd <==> inputs.batteryReading != s.batteryLevel || s.radio.rxReceived || AnyHigh(inputs.pins))
  {
    LoopIterationRenders(s, inputs);
    var s4 := ReadBatteryLevel(s, inputs.batteryReading);
    var s5 := ReadRadioData(s4, inputs.rxOk, inputs.payload);
    CheckButtonOrder(s5, inputs.pins, inputs.buttonRearm);
  }

  /** Across a pass the deadline moves only for a held button or an idle wake. */
  lemma LoopIterationDeadline(s: State, inputs: Inputs)
    ensures LoopIteration(s, inputs).idleTimerCicles ==
      if AnyHigh(inputs.pins) then inputs.buttonRearm
      else if IdleExpired(s, inputs.now) then inputs.wakeRearm
      else s.idleTimerCicles
  {
    var s1 := CheckJobs(s, inputs.now, inputs.wakeRearm);
    var s2 := CommandStage(s1, inputs.command);
    var s3 := DisplayLoop(s2);
    var s4 := ReadBatteryLevel(s3, inputs.batteryReading);
    var s5 := ReadRadioData(s4, inputs.rxOk, inputs.payload);
    if inputs.command.Some? {
      OnlyButtonsAndJobsMoveDeadline(s1, inputs.command.value, inputs.rxOk, inputs.payload, inputs.batteryReading);
    }
    OnlyButtonsAndJobsMoveDeadline(s2, Command("", []), inputs.rxOk, inputs.payload, inputs.batteryReading);
    OnlyButtonsAndJobsMoveDeadline(s3, Command("", []), inputs.rxOk, inputs.payload, inputs.batteryReading);
    OnlyButtonsAndJobsMoveDeadline(s4, Command("", []), inputs.rxOk, inputs.payload, inputs.batteryReading);
    CheckButtonLatchesAndDeadline(s5, inputs.pins, inputs.buttonRearm);
  }

  // ---------------------------------------------------------------------------
  // A session at the serial console

  /**
   * From the start state (channel 3, menu hidden): "channel 10" switches and
   * clears the counters; "q" opens the menu on Send Data, whose action does
   * nothing; three "w" walk to Exit; "q" on Exit closes the menu and runs nothing.
   */
  lemma ConsoleSession(deadline: uint64)
    ensures var s0 := Initial(deadline);
      var s1 := HandleCommand(s0, Command("channel", ["10"]));
      var s2 := HandleCommand(s1, Command("q", []));
      var s3 := HandleCommand(HandleCommand(HandleCommand(s2, Command("w", [])), Command("w", [])), Command("w", []));
      var s4 := HandleCommand(s3, Command("q", []));
      && s1.radio.channel == 10 && s1.radio.receiveCount == 0 && !s1.radio.hasData && s1.screen.refreshLcd
      && s2.screen.showMenu && s2.screen.menuSelItem == MENU_ITEM_SEND_DATA && s2.screen.rxShowMode == s1.screen.rxShowMode
      && s3.screen.menuSelItem == MENU_ITEM_EXIT && s3.radio.channel == 10
      && !s4.screen.showMenu && s4 == s3.(screen := s3.screen.(showMenu := false))
  {
    AtoiOfDec(10);
    assert Dec(10) == "10";
  }
}
