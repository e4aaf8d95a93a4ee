/**
 * The receiver's control layer as a state machine over values: one State
 * holds every global that main.cpp and display.cpp share, and the functions
 * below are the transitions the C code makes. Most are one C function each.
 * The exceptions are SelectedEntryAction (the switch over the menu entry);
 * ConfirmAction, NextAction and PrevAction, the blocks that handle_usart_cmd
 * and checkButton both write out; PollButton0 to PollButton2, the three
 * sections of checkButton; RxInterrupt, the INT1 interrupt handler; and
 * CommandStage and LoopIteration, the serial step and one pass of main's
 * while (1) loop. The class in receiver.dfy
 * performs these transitions in place and is proved against them.
 */
module Control {
  import opened Platform
  import opened Text

  /** Levels of the button pins PD2 (button 0), PD6 (button 1) and PD7 (button 2); high is pressed. */
  datatype Pins = Pins(button0: bool, button1: bool, button2: bool)

  predicate AnyHigh(pins: Pins)
  {
    pins.button0 || pins.button1 || pins.button2
  }

  /** A serial line as the tokenizer hands it over: the command name and its arguments. */
  datatype Command = Command(name: string, args: seq<string>)

  /** The radio globals of main.cpp: radio_channel, receive_count, radio_has_data, radio_data, rx_received. */
  datatype Radio = Radio(
    channel: uint8,
    receiveCount: uint16,
    hasData: bool,
    data: seq<uint8>,
    rxReceived: bool)

  /** button_0_pressed, button_1_pressed, button_2_pressed. */
  datatype Latches = Latches(button0Pressed: bool, button1Pressed: bool, button2Pressed: bool)

  /** The globals of display.cpp, and the backlight pin PC1 (the backlight is lit while it is low). */
  datatype Screen = Screen(
    refreshLcd: bool,
    showMenu: bool,
    enableBackLight: bool,
    rxShowMode: uint8,
    menuSelItem: uint8,
    backlightPinHigh: bool)

  /** Every global the control layer shares, and the driver calls made so far. */
  datatype State = State(
    radio: Radio,
    latches: Latches,
    idleTimerCicles: uint64,
    batteryLevel: uint16,
    screen: Screen,
    trace: seq<Op>)

  /** What one pass of the main loop reads from the hardware. */
  datatype Inputs = Inputs(
    now: uint64,                // getCurrentTimeCicles() in checkJobs
    wakeRearm: uint64,          // convertSecondsToCicles(IDLE_TIMEOUT) after a wake
    command: Option<Command>,   // a complete serial line, if usart_check_loop has one
    batteryReading: uint16,     // adc_read(MUX0)
    rxOk: bool,                 // rx_ok from radio.whatHappened
    payload: seq<uint8>,        // what radio.read copies into radio_data
    pins: Pins,                 // PIND in checkButton
    buttonRearm: uint64)        // convertSecondsToCicles(IDLE_TIMEOUT) in checkButton

  const ZeroPayload: seq<uint8> := [0, 0, 0, 0, 0, 0, 0, 0]

  /** The globals' initial values, after main has set the first idle deadline. */
  function Initial(deadline: uint64): State
  {
    State(
      Radio(DEFAULT_CHANNEL, 0, false, ZeroPayload, false),
      Latches(false, false, false),
      deadline,
      0,
      Screen(true, false, false, MENU_MODE_DEC, 0, true),
      [])
  }

  // ---------------------------------------------------------------------------
  // The driver trace

  /** A channel switch on the radio is always followed at once by stop- and start-listening. */
  predicate ChannelSwitchAt(t: seq<Op>, i: nat)
    requires i < |t|
  {
    t[i].RadioSetChannel? ==>
      && t[i].channel <= MAX_CHANNEL
      && i + 2 < |t| && t[i + 1] == RadioStopListening && t[i + 2] == RadioStartListening
  }

  /** A radio power-down always starts the full sleep cycle, ending with the display awake. */
  predicate SleepCycleAt(t: seq<Op>, i: nat)
    requires i < |t|
  {
    t[i] == RadioPowerDown ==>
      && i + 4 < |t|
      && t[i + 1] == LcdSleep && t[i + 2] == McuSleep && t[i + 3] == RadioPowerUp && t[i + 4] == LcdWake
  }

  predicate WellFormedTrace(t: seq<Op>)
  {
    forall i :: 0 <= i < |t| ==> ChannelSwitchAt(t, i) && SleepCycleAt(t, i)
  }

  function RenderCount(t: seq<Op>): nat
  {
    if t == [] then 0 else RenderCount(t[..|t| - 1]) + (if t[|t| - 1].LcdRender? then 1 else 0)
  }

  /** Driver calls made in this order. */
  function Emit(s: State, ops: seq<Op>): State
  {
    s.(trace := s.trace + ops)
  }

  /** The invariant every reachable state keeps. */
  predicate Valid(s: State)
  {
    && s.radio.channel <= MAX_CHANNEL
    && |s.radio.data| == RF_PAYLOAD_SIZE
    && s.latches == Latches(false, false, false)
    && (s.screen.menuSelItem as int) < MENU_ITEMS
    && (s.screen.rxShowMode == MENU_MODE_ASCII || s.screen.rxShowMode == MENU_MODE_DEC)
    && (s.screen.backlightPinHigh <==> !s.screen.enableBackLight)
    && WellFormedTrace(s.trace)
  }

  // ---------------------------------------------------------------------------
  // Channel controller (setChannel)

  /** setChannel's normalisation: 126 wraps to 0, anything above clamps to 125. */
  function NormalizeChannel(requested: uint8): (channel: uint8)
    ensures channel <= MAX_CHANNEL
  {
    if requested == 126 then 0 else if requested > 126 then MAX_CHANNEL else requested
  }

  function SetChannel(s: State, requested: uint8): State
  {
    var channel := NormalizeChannel(requested);
    if s.radio.channel == channel then s
    else Emit(s.(radio := s.radio.(hasData := false, receiveCount := 0, channel := channel)),
              [RadioSetChannel(channel), RadioStopListening, RadioStartListening])
  }

  // ---------------------------------------------------------------------------
  // Menu and display mode (display.cpp)

  function DisplayHasChanged(s: State): State
  {
    s.(screen := s.screen.(refreshLcd := true))
  }

  function MenuNext(sel: uint8): (next: uint8)
    ensures (sel as int) < MENU_ITEMS ==> (next as int) < MENU_ITEMS
  {
    if sel as int == MENU_ITEMS - 1 then 0 else ToUint8(sel + 1)
  }

  function MenuPrev(sel: uint8): (prev: uint8)
    ensures (sel as int) < MENU_ITEMS ==> (prev as int) < MENU_ITEMS
  {
    if sel > 0 then sel - 1 else MENU_ITEMS - 1
  }

  function ChangeMode(mode: uint8): (next: uint8)
    ensures next == MENU_MODE_ASCII || next == MENU_MODE_DEC
  {
    if mode == MENU_MODE_ASCII then MENU_MODE_DEC else MENU_MODE_ASCII
  }

  function DisplayChangeMode(d: Screen): Screen
  {
    d.(rxShowMode := ChangeMode(d.rxShowMode))
  }

  function DisplayOnOffBacklight(d: Screen): Screen
  {
    var enable := !d.enableBackLight;
    d.(enableBackLight := enable, backlightPinHigh := !enable)
  }

  /**
   * The action bound to the selected menu entry: Show D/A and Led ON/OFF
   * change the display globals; Send Data calls the empty stub
   * sendRadioData, and "Exit" has no action.
   */
  function SelectedEntryAction(d: Screen): Screen
  {
    if d.menuSelItem == MENU_ITEM_SHOW_MODE then DisplayChangeMode(d)
    else if d.menuSelItem == MENU_ITEM_BACKLIGHT then DisplayOnOffBacklight(d)
    else d
  }

  // ---------------------------------------------------------------------------
  // The three actions shared by the serial commands and the buttons

  /** "q" and button 0: run the selected entry's action, then show or hide the menu. */
  function ConfirmAction(s: State): State
  {
    var acted := if s.screen.showMenu && s.screen.menuSelItem != MENU_ITEM_EXIT
                 then SelectedEntryAction(s.screen) else s.screen;
    s.(screen := acted.(showMenu := !acted.showMenu, refreshLcd := true))
  }

  /** "w" and button 1: next menu entry, or the next channel when the menu is hidden. */
  function NextAction(s: State): State
  {
    DisplayHasChanged(
      if s.screen.showMenu then s.(screen := s.screen.(menuSelItem := MenuNext(s.screen.menuSelItem)))
      else SetChannel(s, ToUint8(s.radio.channel + 1)))
  }

  /** "e" and button 2: previous menu entry, or the previous channel when the menu is hidden. */
  function PrevAction(s: State): State
  {
    DisplayHasChanged(
      if s.screen.showMenu then s.(screen := s.screen.(menuSelItem := MenuPrev(s.screen.menuSelItem)))
      else SetChannel(s, ToUint8(s.radio.channel - 1)))
  }

  /** handle_usart_cmd: "channel <n>", "q", "w", "e"; "test" only echoes and anything else is ignored. */
  function HandleCommand(s: State, cmd: Command): State
  {
    if cmd.name == "channel" then
      if |cmd.args| > 0 then DisplayHasChanged(SetChannel(s, ToUint8(Atoi(cmd.args[0])))) else s
    else if cmd.name == "q" then ConfirmAction(s)
    else if cmd.name == "w" then NextAction(s)
    else if cmd.name == "e" then PrevAction(s)
    else s
  }

  // ---------------------------------------------------------------------------
  // Buttons (checkButton); the latches are only ever cleared

  function PollButton0(s: State, high: bool): State
  {
    if high then (if !s.latches.button0Pressed then ConfirmAction(s) else s)
    else s.(latches := s.latches.(button0Pressed := false))
  }

  function PollButton1(s: State, high: bool): State
  {
    if high then (if !s.latches.button1Pressed then NextAction(s) else s)
    else s.(latches := s.latches.(button1Pressed := false))
  }

  function PollButton2(s: State, high: bool): State
  {
    if high then (if !s.latches.button2Pressed then PrevAction(s) else s)
    else s.(latches := s.latches.(button2Pressed := false))
  }

  /** resetIdleTimer: the new deadline is what the timer library computes at that moment. */
  function ResetIdleTimer(s: State, rearm: uint64): State
  {
    s.(idleTimerCicles := rearm)
  }

  function CheckButton(s: State, pins: Pins, rearm: uint64): State
  {
    var s0 := PollButton0(s, pins.button0);
    var s1 := PollButton1(s0, pins.button1);
    var s2 := PollButton2(s1, pins.button2);
    if AnyHigh(pins) then ResetIdleTimer(s2, rearm) else s2
  }

  // ---------------------------------------------------------------------------
  // Idle power manager (checkJobs, powerDownAVR, powerUpAVR)

  /** displayIdle: backlight pin high (off), display asleep; enableBackLight is kept. */
  function DisplayIdle(s: State): State
  {
    Emit(s.(screen := s.screen.(backlightPinHigh := true)), [LcdSleep])
  }

  /** displayWake: backlight back on only if enabled, display awake, redraw. */
  function DisplayWake(s: State): State
  {
    var lit := if s.screen.enableBackLight then s.(screen := s.screen.(backlightPinHigh := false)) else s;
    DisplayHasChanged(Emit(lit, [LcdWake]))
  }

  function PowerDownAvr(s: State): State
  {
    DisplayIdle(Emit(s, [RadioPowerDown]))
  }

  function PowerUpAvr(s: State): State
  {
    DisplayWake(Emit(s, [RadioPowerUp]))
  }

  function SleepMode(s: State): State
  {
    Emit(s, [McuSleep])
  }

  predicate IdleExpired(s: State, now: uint64)
  {
    s.idleTimerCicles != 0 && now >= s.idleTimerCicles
  }

  function CheckJobs(s: State, now: uint64, rearm: uint64): State
  {
    if IdleExpired(s, now) then ResetIdleTimer(PowerUpAvr(SleepMode(PowerDownAvr(s))), rearm)
    else s
  }

  // ---------------------------------------------------------------------------
  // Radio receive (readRadioData, readRxRadio) and battery (read_battery_level)

  /** The INT1 interrupt: the radio signalled an event. */
  function RxInterrupt(s: State): State
  {
    s.(radio := s.radio.(rxReceived := true))
  }

  function ReadRxRadio(r: Radio, rxOk: bool, payload: seq<uint8>): Radio
  {
    if rxOk then r.(data := payload, receiveCount := ToUint16(r.receiveCount + 1), hasData := true)
    else r
  }

  function ReadRadioData(s: State, rxOk: bool, payload: seq<uint8>): State
  {
    if s.radio.rxReceived then
      DisplayHasChanged(s.(radio := ReadRxRadio(s.radio.(rxReceived := false), rxOk, payload)))
    else s
  }

  function ReadBatteryLevel(s: State, reading: uint16): State
  {
    var marked := if s.batteryLevel != reading then DisplayHasChanged(s) else s;
    marked.(batteryLevel := reading)
  }

  // ---------------------------------------------------------------------------
  // Rendering (displayLoop, displayWriteData)

  /** The screen displayWriteData draws from the current globals. */
  function FrameOf(s: State): Frame
  {
    var body :=
      if s.screen.showMenu then MenuBody(MenuText(s.screen.menuSelItem))
      else if s.radio.hasData then
        if s.screen.rxShowMode == MENU_MODE_ASCII then GlyphBody(s.radio.data)
        else if s.screen.rxShowMode == MENU_MODE_DEC then DecimalBody(DecimalPayload(s.radio.data))
        else NoBody
      else NoBody;
    Frame(HeaderText(s.radio.channel, s.batteryLevel, s.radio.receiveCount), body)
  }

  function DisplayWriteData(s: State): State
  {
    Emit(s, [LcdRender(FrameOf(s))])
  }

  function DisplayLoop(s: State): State
  {
    if s.screen.refreshLcd then DisplayWriteData(s.(screen := s.screen.(refreshLcd := false))) else s
  }

  // ---------------------------------------------------------------------------
  // One pass of main's while (1) loop

  function CommandStage(s: State, command: Option<Command>): State
  {
    if command.Some? then HandleCommand(s, command.value) else s
  }

  /** checkJobs, the serial step, displayLoop, read_battery_level, readRadioData, checkButton. */
  function LoopIteration(s: State, inputs: Inputs): State
  {
    var s1 := CheckJobs(s, inputs.now, inputs.wakeRearm);
    var s2 := CommandStage(s1, inputs.command);
    var s3 := DisplayLoop(s2);
    var s4 := ReadBatteryLevel(s3, inputs.batteryReading);
    var s5 := ReadRadioData(s4, inputs.rxOk, inputs.payload);
    CheckButton(s5, inputs.pins, inputs.buttonRearm)
  }
}
