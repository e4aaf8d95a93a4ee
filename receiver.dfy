/**
 * The receiver's globals as one object whose methods update them in place.
 * Most methods are the C function of the same name. The exceptions are
 * ConfirmAction, NextAction and PrevAction, the blocks that handle_usart_cmd
 * and checkButton both write out; PollButton0 to PollButton2, the three
 * sections of checkButton; RxInterrupt, the INT1 interrupt handler; and
 * LoopIteration, one pass of main's while (1) loop. Every method is proved to
 * perform exactly the transition module Control gives for that function,
 * so every property proved there about a transition holds of the method.
 */
module Receiver {
  import opened Platform
  import opened Text
  import Control
  import ControlProofs

  class Controller {
    // main.cpp
    var radioChannel: uint8
    var receiveCount: uint16
    var radioHasData: bool
    const radioData: array<uint8>
    var rxReceived: bool
    var idleTimerCicles: uint64
    var button0Pressed: bool
    var button1Pressed: bool
    var button2Pressed: bool
    var batteryLevel: uint16
    // display.cpp, and the backlight pin PC1 (lit while low)
    var refreshLcd: bool
    var showMenu: bool
    var enableBackLight: bool
    var rxShowMode: uint8
    var menuSelItem: uint8
    var backlightPinHigh: bool
    /** The calls made into the radio and display drivers so far. */
    ghost var trace: seq<Op>

    /** The globals as a value of the state machine. */
    ghost function Snap(): Control.State
      reads this, radioData
    {
      Control.State(
        Control.Radio(radioChannel, receiveCount, radioHasData, radioData[..], rxReceived),
        Control.Latches(button0Pressed, button1Pressed, button2Pressed),
        idleTimerCicles,
        batteryLevel,
        Control.Screen(refreshLcd, showMenu, enableBackLight, rxShowMode, menuSelItem, backlightPinHigh),
        trace)
    }

    ghost predicate Valid()
      reads this, radioData
    {
      Control.Valid(Snap())
    }

    /** The static initialisers, then main's first resetIdleTimer-style deadline. */
    constructor(deadline: uint64)
      ensures Snap() == Control.Initial(deadline)
      ensures Valid()
      ensures fresh(radioData)
    {
      radioChannel := DEFAULT_CHANNEL;
      receiveCount := 0;
      radioHasData := false;
      radioData := new uint8[RF_PAYLOAD_SIZE](_ => 0);
      rxReceived := false;
      idleTimerCicles := deadline;
      button0Pressed, button1Pressed, button2Pressed := false, false, false;
      batteryLevel := 0;
      refreshLcd := true;
      showMenu := false;
      enableBackLight := false;
      rxShowMode := MENU_MODE_DEC;
      menuSelItem := 0;
      backlightPinHigh := true;
      trace := [];
      new;
      assert radioData[..] == Control.ZeroPayload;
      ControlProofs.InitialIsValid(deadline);
    }

    // -------------------------------------------------------------------------
    // Channel controller

    method SetChannel(requested: uint8)
      modifies this
      ensures Snap() == Control.SetChannel(old(Snap()), requested)
    {
      var channel := requested;
      if channel == 126 {
        channel := 0;
      } else if channel > 126 {
        channel := 125;
      }
      if radioChannel != channel {
        radioHasData := false;
        receiveCount := 0;
        radioChannel := channel;
        trace := trace + [RadioSetChannel(channel), RadioStopListening, RadioStartListening];
      }
    }

    // -------------------------------------------------------------------------
    // Menu and display mode

    method DisplayHasChanged()
      modifies this
      ensures Snap() == Control.DisplayHasChanged(old(Snap()))
    {
      refreshLcd := true;
    }

    method MenuNext()
      modifies this
      ensures Snap() == old(Snap()).(screen := old(Snap()).screen.(menuSelItem := Control.MenuNext(old(menuSelItem))))
    {
      if menuSelItem as int == MENU_ITEMS - 1 {
        menuSelItem := 0;
      } else {
        menuSelItem := ToUint8(menuSelItem + 1);
      }
    }

    method MenuPrev()
      modifies this
      ensures Snap() == old(Snap()).(screen := old(Snap()).screen.(menuSelItem := Control.MenuPrev(old(menuSelItem))))
    {
      if menuSelItem > 0 {
        menuSelItem := menuSelItem - 1;
      } else {
        menuSelItem := MENU_ITEMS - 1;
      }
    }

    method DisplayChangeMode()
      modifies this
      ensures Snap() == old(Snap()).(screen := Control.DisplayChangeMode(old(Snap()).screen))
    {
      if rxShowMode == MENU_MODE_ASCII {
        rxShowMode := MENU_MODE_DEC;
      } else {
        rxShowMode := MENU_MODE_ASCII;
      }
    }

    method DisplayOnOffBacklight()
      modifies this
      ensures Snap() == old(Snap()).(screen := Control.DisplayOnOffBacklight(old(Snap()).screen))
    {
      enableBackLight := !enableBackLight;
      if enableBackLight {
        backlightPinHigh := false;
      } else {
        backlightPinHigh := true;
      }
    }

    /** sendRadioData is an empty stub. */
    method SendRadioData()
      ensures Snap() == old(Snap())
    {
    }

    // -------------------------------------------------------------------------
    // The actions the serial commands and the buttons share

    method ConfirmAction()
      modifies this
      ensures Snap() == Control.ConfirmAction(old(Snap()))
    {
      if showMenu && menuSelItem != MENU_ITEM_EXIT {
        if menuSelItem == MENU_ITEM_SEND_DATA {
          SendRadioData();
        } else if menuSelItem == MENU_ITEM_SHOW_MODE {
          DisplayChangeMode();
        } else if menuSelItem == MENU_ITEM_BACKLIGHT {
          DisplayOnOffBacklight();
        }
      }
      showMenu := !showMenu;
      DisplayHasChanged();
    }

    method NextAction()
      modifies this
      ensures Snap() == Control.NextAction(old(Snap()))
    {
      if showMenu {
        MenuNext();
      } else {
        SetChannel(ToUint8(radioChannel + 1));
      }
      DisplayHasChanged();
    }

    method PrevAction()
      modifies this
      ensures Snap() == Control.PrevAction(old(Snap()))
    {
      if showMenu {
        MenuPrev();
      } else {
        SetChannel(ToUint8(radioChannel - 1));
      }
      DisplayHasChanged();
    }

    /** handle_usart_cmd, with every invariant kept. */
    method HandleCommand(cmd: Control.Command)
      requires Valid()
      modifies this
      ensures Snap() == Control.HandleCommand(old(Snap()), cmd)
      ensures Valid()
    {
      ControlProofs.HandleCommandPreservesValid(Snap(), cmd);
      if cmd.name == "channel" {
        if |cmd.args| > 0 {
          SetChannel(ToUint8(Atoi(cmd.args[0])));
          DisplayHasChanged();
        }
      }
      if cmd.name == "q" {
        ConfirmAction();
      }
      if cmd.name == "w" {
        NextAction();
      }
      if cmd.name == "e" {
        PrevAction();
      }
    }

    // -------------------------------------------------------------------------
    // Buttons and the idle deadline

    method ResetIdleTimer(rearm: uint64)
      modifies this
      ensures Snap() == Control.ResetIdleTimer(old(Snap()), rearm)
    {
      idleTimerCicles := rearm;
    }

    method PollButton0(high: bool)
      modifies this
      ensures Snap() == Control.PollButton0(old(Snap()), high)
    {
      if high {
        if !button0Pressed {
          ConfirmAction();
        }
      } else {
        button0Pressed := false;
      }
    }

    method PollButton1(high: bool)
      modifies this
      ensures Snap() == Control.PollButton1(old(Snap()), high)
    {
      if high {
        if !button1Pressed {
          NextAction();
        }
      } else {
        button1Pressed := false;
      }
    }

    method PollButton2(high: bool)
      modifies this
      ensures Snap() == Control.PollButton2(old(Snap()), high)
    {
      if high {
        if !button2Pressed {
          PrevAction();
        }
      } else {
        button2Pressed := false;
      }
    }

    /** checkButton, on one sample of PIND. */
    method CheckButton(pins: Control.Pins, rearm: uint64)
      requires Valid()
      modifies this
      ensures Snap() == Control.CheckButton(old(Snap()), pins, rearm)
      ensures Valid()
    {
      ControlProofs.CheckButtonPreservesValid(Snap(), pins, rearm);
      PollButton0(pins.button0);
      PollButton1(pins.button1);
      PollButton2(pins.button2);
      if pins.button0 || pins.button1 || pins.button2 {
        ResetIdleTimer(rearm);
      }
    }

    // -------------------------------------------------------------------------
    // Idle power manager

    method DisplayIdle()
      modifies this
      ensures Snap() == Control.DisplayIdle(old(Snap()))
    {
      backlightPinHigh := true;
      trace := trace + [LcdSleep];
    }

    method DisplayWake()
      modifies this
      ensures Snap() == Control.DisplayWake(old(Snap()))
    {
      if enableBackLight {
        backlightPinHigh := false;
      }
      trace := trace + [LcdWake];
      DisplayHasChanged();
    }

    method PowerDownAvr()
      modifies this
      ensures Snap() == Control.PowerDownAvr(old(Snap()))
    {
      trace := trace + [RadioPowerDown];
      DisplayIdle();
    }

    method PowerUpAvr()
      modifies this
      ensures Snap() == Control.PowerUpAvr(old(Snap()))
    {
      trace := trace + [RadioPowerUp];
      DisplayWake();
    }

    /** checkJobs: now is getCurrentTimeCicles(), rearm the deadline resetIdleTimer computes. */
    method CheckJobs(now: uint64, rearm: uint64)
      requires Valid()
      modifies this
      ensures Snap() == Control.CheckJobs(old(Snap()), now, rearm)
      ensures Valid()
    {
      ControlProofs.CheckJobsPreservesValid(Snap(), now, rearm);
      if idleTimerCicles != 0 && now >= idleTimerCicles {
        PowerDownAvr();
        trace := trace + [McuSleep];
        PowerUpAvr();
        ResetIdleTimer(rearm);
      }
    }

    // -------------------------------------------------------------------------
    // Radio receive and battery

    /** The INT1 interrupt handler. */
    method RxInterrupt()
      modifies this
      ensures Snap() == Control.RxInterrupt(old(Snap()))
    {
      rxReceived := true;
    }

    /** readRxRadio: on rx_ok, radio.read copies the payload into radio_data. */
    method ReadRxRadio(rxOk: bool, payload: seq<uint8>)
      requires |payload| == radioData.Length
      modifies this, radioData
      ensures Snap() == old(Snap()).(radio := Control.ReadRxRadio(old(Snap()).radio, rxOk, payload))
    {
      if rxOk {
        forall i | 0 <= i < radioData.Length {
          radioData[i] := payload[i];
        }
        assert radioData[..] == payload;
        receiveCount := ToUint16(receiveCount + 1);
        radioHasData := true;
      }
    }

    method ReadRadioData(rxOk: bool, payload: seq<uint8>)
      requires Valid() && |payload| == RF_PAYLOAD_SIZE
      modifies this, radioData
      ensures Snap() == Control.ReadRadioData(old(Snap()), rxOk, payload)
      ensures Valid()
    {
      ControlProofs.ReadRadioDataPreservesValid(Snap(), rxOk, payload);
      if rxReceived {
        rxReceived := false;
        ReadRxRadio(rxOk, payload);
        DisplayHasChanged();
      }
    }

    /** read_battery_level: reading is what adc_read(MUX0) returns. */
    method ReadBatteryLevel(reading: uint16)
      requires Valid()
      modifies this
      ensures Snap() == Control.ReadBatteryLevel(old(Snap()), reading)
      ensures Valid()
    {
      ControlProofs.ReadBatteryLevelPreservesValid(Snap(), reading);
      if batteryLevel != reading {
        DisplayHasChanged();
      }
      batteryLevel := reading;
    }

    // -------------------------------------------------------------------------
    // Rendering

    /** displayWriteData: the header line, then the menu, the payload, or nothing. */
    method DisplayWriteData()
      requires radioData.Length == RF_PAYLOAD_SIZE
      modifies this
      ensures Snap() == Control.DisplayWriteData(old(Snap()))
    {
      var header := HeaderText(radioChannel, batteryLevel, receiveCount);
      var body := NoBody;
      if showMenu {
        var text := BuildMenuText(menuSelItem);
        body := MenuBody(text);
      } else if radioHasData {
        if rxShowMode == MENU_MODE_ASCII {
          body := GlyphBody(radioData[..]);
        } else if rxShowMode == MENU_MODE_DEC {
          var text := BuildDecimalText(radioData[..]);
          body := DecimalBody(text);
        }
      }
      trace := trace + [LcdRender(Frame(header, body))];
    }

    method DisplayLoop()
      requires Valid()
      modifies this
      ensures Snap() == Control.DisplayLoop(old(Snap()))
      ensures Valid()
    {
      ControlProofs.DisplayLoopPreservesValid(Snap());
      if refreshLcd {
        refreshLcd := false;
        DisplayWriteData();
      }
    }

    // -------------------------------------------------------------------------
    // The main loop

    /** One pass of main's while (1) loop. */
    method LoopIteration(inputs: Control.Inputs)
      requires Valid() && |inputs.payload| == RF_PAYLOAD_SIZE
      modifies this, radioData
      ensures Snap() == Control.LoopIteration(old(Snap()), inputs)
      ensures Valid()
    {
      CheckJobs(inputs.now, inputs.wakeRearm);
      if inputs.command.Some? {
        HandleCommand(inputs.command.value);
      }
      DisplayLoop();
      ReadBatteryLevel(inputs.batteryReading);
      ReadRadioData(inputs.rxOk, inputs.payload);
      CheckButton(inputs.pins, inputs.buttonRearm);
    }
  }
}
