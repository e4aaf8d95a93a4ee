# RF portable receiver: control layer

A model, in Dafny, of the control layer of a battery-powered nRF24L01 receiver with a PCD8544 LCD. The control layer is one single-threaded loop over global state, split across `src/main.cpp` and `src/display.cpp`. The model covers:

- the channel controller (`setChannel`);
- the serial command dispatcher (`handle_usart_cmd`);
- the three buttons (`checkButton`);
- the idle power manager (`checkJobs`, `powerDownAVR`, `powerUpAVR`, `resetIdleTimer`);
- the radio receive latch (`readRadioData`, `readRxRadio`, and the INT1 handler that sets it);
- the battery change check (`read_battery_level`);
- the menu, mode and backlight toggles, and the redraw gate (`displayLoop`, `displayHasChanged`);
- the texts `displayWriteData` builds;
- one pass of `main`'s loop.

The project has five modules:

- `Platform` (`platform.dfy`) holds:
  - the C integer widths (`uint8`, `uint16`, `uint64`, with conversions by reduction modulo 2^8 and 2^16);
  - the constants `display.h` defines (the menu modes and entries, `RF_PAYLOAD_SIZE`) and `DEFAULT_CHANNEL` from `main.cpp`;
  - `MAX_CHANNEL`, which names the literal 125 in `setChannel` (`src/main.cpp:322`);
  - `BUFFER_SIZE`, the size of `displayWriteData`'s text buffer (`src/display.cpp:38`);
  - `Op`, the calls made into the radio driver, the display driver and the sleep controller.

  The model records those calls in a trace, so their order can be proved.
- `Text` (`text.dfy`) holds the texts as pure functions:
  - the header line, the menu and the decimal payload;
  - `printf`'s `%d` and `%0Nd`;
  - `atoi`;
  - a splitter, used to state what a reader of each text gets back.

  It also holds `BuildMenuText` and `BuildDecimalText`, the two `for` loops of `displayWriteData` that append into the text buffer. Each is proved to build its function's text.
- `Control` (`control.dfy`) is the specification. `State` is a value holding every global and the trace. Most transition functions are one C function each. The exceptions are listed at the top of `control.dfy`: the shared action blocks, the per-button sections, the INT1 handler, the serial step and the loop pass. `Valid` is the invariant reachable states keep.
- `ControlProofs` (`control_proofs.dfy`) proves the properties of those transitions.
- `Receiver` (`receiver.dfy`) is the implementation model. Class `Controller` keeps the globals as fields and `radio_data` as an `array`. Each of its methods is the C function of that name, updating the fields in place, with four kinds of exception. `handle_usart_cmd` (`src/main.cpp:179-217`) and `checkButton` (`src/main.cpp:349-403`) write out the same three blocks: confirm, next and previous. The copies are identical, so the model has one function for each block (`ConfirmAction`, `NextAction`, `PrevAction`). This is why `ButtonsMatchCommands` holds by construction. `PollButton0` to `PollButton2` are the three per-button sections of `checkButton`. `RxInterrupt` is `ISR(INT1_vect)` (`src/main.cpp:86-89`). `LoopIteration` is the body of `main`'s `while (1)` loop (`src/main.cpp:124-138`). Each method is proved to perform exactly the `Control` transition (`ensures Snap() == Control.F(old(Snap()), …)`), so every `ControlProofs` lemma holds of the methods. The loop-level methods also keep `Valid()`.

Hardware inputs are parameters: the pin levels, the current tick, `rx_ok` with the payload, the ADC reading, and a tokenized serial command. `convertSecondsToCicles(IDLE_TIMEOUT)` belongs to a timer library that is not part of this model. The deadline it returns is therefore a parameter (`rearm`), and nothing assumes it equals now plus the timeout.

Where the code and its description disagree, the model follows the code:

- The button press latches are never set. The assignments are commented out at `src/main.cpp:351,375,391`. A latch is only ever cleared, so a held button fires its action on every poll (`HeldConfirmRepeats`, `HeldNextRepeats`).
- Only button activity (`src/main.cpp:405-408`) and a wake from sleep (`src/main.cpp:425`) move the idle deadline. Serial commands and received packets do not (`OnlyButtonsAndJobsMoveDeadline`, `LoopIterationDeadline`).
- The `channel` command requests a redraw even when the channel stays the same (`src/main.cpp:175`).
- A pass of the loop runs `checkJobs`, the serial step, `displayLoop`, the battery read, `readRadioData`, then `checkButton` (`src/main.cpp:124-138`). So changes made after `displayLoop` are drawn only in the next pass (`LateChangesWaitForNextPass`).
- Confirming twice from the receive view does not always restore the state. The second confirm runs the action of the selected entry, so with "Show D/A" or "Led ON/OFF" selected it toggles the mode or the backlight (`ConfirmTwiceFromReceiveView`).

## Model

| member | source | states |
|---|---|---|
| Control.NormalizeChannel | src/main.cpp:318-323 | the channel setChannel selects is always within 0..125 |
| ControlProofs.NormalizeChannelCases | src/main.cpp:318-323 | 0..125 are kept, 126 wraps to 0, anything above 126 clamps to 125, and normalising is idempotent |
| ControlProofs.SetChannelSameIsNoop | src/main.cpp:325 | asking for the channel already selected changes no global and makes no radio call |
| ControlProofs.SetChannelSwitchProtocol | src/main.cpp:325-332 | a new channel clears the count and the data flag, selects the channel, and appends exactly setChannel(c), stopListening, startListening, leaving everything else as it was |
| ControlProofs.ChannelDial | src/main.cpp:318-323 | with uint8_t arithmetic, stepping up or down is a circular dial over 126 channels: 125+1 gives 0 and 0-1 (255) gives 125 |
| Control.MenuNext | src/display.cpp:110-116 | keeps the selection among the four entries |
| Control.MenuPrev | src/display.cpp:118-124 | keeps the selection among the four entries |
| ControlProofs.MenuNextPrevInverse | src/display.cpp:110-124 | menuNext and menuPrev undo each other on the four entries |
| ControlProofs.MenuStep | src/display.cpp:110-124 | one step of menuNext or menuPrev is plus or minus one modulo MENU_ITEMS |
| ControlProofs.MenuNextNRotates | src/display.cpp:110-116 | n calls of menuNext move the selection n entries forward modulo four |
| ControlProofs.MenuPrevNRotates | src/display.cpp:118-124 | n calls of menuPrev move the selection n entries back modulo four |
| ControlProofs.MenuCycle | src/display.cpp:110-124 | four calls of either one return to the starting entry |
| Control.ChangeMode | src/display.cpp:126-132 | the mode after a toggle is ASCII or DEC |
| ControlProofs.ChangeModeToggles | src/display.cpp:126-132 | ASCII becomes DEC and every other mode ASCII, twice is the identity on the two modes, and the initial mode is DEC |
| ControlProofs.OnOffBacklightEffect | src/display.cpp:134-142 | the setting flips and afterwards the active-low pin PC1 is low exactly when the backlight is enabled; nothing else changes |
| ControlProofs.ConfirmActionEffect | src/main.cpp:179-197 | the selected entry's action runs only with the menu shown and the entry not Exit, then the menu flips and a redraw is requested; the selection is kept and nothing else changes |
| ControlProofs.ConfirmTwiceFromReceiveView | src/main.cpp:179-197 | opening and closing the menu leaves only the selected entry's action and the redraw request; with Send Data or Exit selected only the redraw request |
| ControlProofs.NextActionEffect | src/main.cpp:199-207 | with the menu shown the selection moves forward, otherwise the channel moves one up the dial; a redraw is always requested |
| ControlProofs.PrevActionEffect | src/main.cpp:209-217 | with the menu shown the selection moves back, otherwise the channel moves one down the dial; a redraw is always requested |
| ControlProofs.NextThenPrev | src/main.cpp:199-217 | "w" then "e" return to the same channel and the same menu entry |
| ControlProofs.CommandsWithoutEffect | src/main.cpp:164-177 | "channel" without an argument, "test" and unknown commands change no state |
| ControlProofs.ChannelCommandEffect | src/main.cpp:171-177 | "channel n" runs setChannel on atoi(n) truncated to uint8_t and always requests a redraw |
| Text.AtoiOfDec | src/main.cpp:173 | atoi reads back a decimal number, also with a minus sign |
| ControlProofs.ChannelCommandOfNumber | src/main.cpp:171-177 | "channel n" selects n mod 256 normalised, and "channel -1" selects 125 |
| ControlProofs.CommandActions | src/main.cpp:179-217 | "q", "w" and "e" perform the confirm, next and previous actions |
| ControlProofs.ActionsKeepLatchesAndDeadline | src/main.cpp:179-217 | none of the three actions touches a press latch or the idle deadline |
| ControlProofs.CheckButtonLatchesAndDeadline | src/main.cpp:347-408 | a latch is cleared when its pin is low and never set; the deadline is rearmed if and only if a pin is high |
| ControlProofs.CheckButtonOrder | src/main.cpp:347-408 | buttons 0, 1 and 2 act in that order, each on the state the previous one left |
| ControlProofs.ButtonsMatchCommands | src/main.cpp:347-408 | buttons 0, 1 and 2 alone perform what "q", "w" and "e" perform, plus the rearm |
| ControlProofs.HeldConfirmRepeats | src/main.cpp:349-371 | holding button 0 over two polls shows and hides the menu again |
| ControlProofs.HeldNextRepeats | src/main.cpp:373-387 | holding button 1 over two polls with the menu hidden moves two channels |
| ControlProofs.CheckJobsFires | src/main.cpp:411-427 | at or past a non-zero deadline: powerDown, display sleep, sleep, powerUp, display wake in that order, a redraw request and a rearm; the backlight pin ends low exactly when the backlight is enabled |
| ControlProofs.CheckJobsQuiet | src/main.cpp:414 | before the deadline, or with the deadline 0, nothing changes |
| ControlProofs.IdleThenWake | src/display.cpp:144-155 | idle forces the pin high and keeps the setting; the wake after it drives the pin low exactly when the backlight is enabled and requests a redraw |
| ControlProofs.OnlyButtonsAndJobsMoveDeadline | src/main.cpp:164-219 | serial commands, the radio, the battery and the redraw leave the idle deadline alone |
| ControlProofs.ReadRadioDataEffect | src/main.cpp:294-341 | without the latch nothing happens; with it the latch is cleared and a redraw requested, and only on rx_ok is the payload copied, counted with 16-bit wrap and marked present |
| ControlProofs.ReceiveCountWraps | src/main.cpp:311 | after 65535 packets the count wraps to 0 |
| ControlProofs.ReadBatteryLevelEffect | src/main.cpp:278-285 | the reading is stored, and a redraw is requested exactly when it differs from the last one |
| ControlProofs.DisplayLoopRendersIffDirty | src/display.cpp:55-60 | with the flag set, one render of the current screen and the flag cleared; otherwise nothing |
| ControlProofs.RedrawRequestsCoalesce | src/display.cpp:55-60 | redraw requests are idempotent, and any number of them before displayLoop give one render |
| ControlProofs.FrameBodyChoice | src/display.cpp:73-102 | the menu is drawn when shown; otherwise received data in the selected mode; with no data only the header |
| ControlProofs.FrameFitsBuffer | src/display.cpp:62-104 | the header, the menu text and the decimal text each fit the 100-byte buffer |
| Text.Dec | src/display.cpp:65 | "%d" is a non-empty run of digits with no leading zero |
| Text.ValueOfDec | src/display.cpp:65 | the digits "%d" writes read back as the number |
| Text.ZeroPadFixedWidth | src/display.cpp:65 | "%0Nd" of a number below 10^N is exactly N digits that read back as the number |
| Text.HeaderLayout | src/display.cpp:65-69 | the header is 25 to 29 characters; the 4-digit frequency 2400+channel, the 3-digit zero-padded channel, the battery ("%d", without leading zeros) and the 5-digit zero-padded count sit at fixed places, consist of digits only and read back as their values |
| Text.Split | src/display.cpp:73-99 | the splitter yields at least one piece, and no piece contains the separator |
| Text.SplitPieceCount | src/display.cpp:73-99 | the splitter yields exactly one more piece than the separators in the text |
| Text.SplitAppend | src/display.cpp:73-99 | splitting distributes over a joining separator |
| Text.MenuTextLayout | src/display.cpp:73-83 | the menu text is 43 characters: MENU_ITEMS newline-terminated lines, line i the marker and entry i |
| Text.MenuMarkerUnique | src/display.cpp:73-83 | exactly the selected entry's line starts with "->" |
| Text.BuildMenuText | src/display.cpp:73-83 | the menu loop builds the menu text |
| Text.SplitDecimalPayload | src/display.cpp:93-99 | splitting the decimal text at spaces gives each byte's decimal text, in order |
| Text.DecimalPayloadRoundTrip | src/display.cpp:93-99 | the decimal text has one field per byte, and each field reads back as its byte |
| Text.DecimalPayloadLength | src/display.cpp:93-99 | the decimal text of n bytes is at most 4n-1 characters |
| Text.DecimalPayloadFits | src/display.cpp:93-99 | the decimal text of the 8-byte payload fits the 100-byte buffer |
| Text.BuildDecimalText | src/display.cpp:93-99 | the decimal loop builds the decimal text |
| Text.HeaderAsPrintedFromHalfRange | src/display.cpp:65-69 | on avr-gcc, from 32768 packets on the printed count starts with '-' and the header differs from the intended one |
| Text.HeaderAsPrintedBelowHalfRange | src/display.cpp:65-69 | below 32768 packets the printed header is the intended one |
| Text.HeaderAsPrintedFits | src/display.cpp:65-69 | the printed header differs from the intended one only in the count field, which takes one extra place at most, so it is at most 30 characters and fits the 100-byte buffer |
| Text.HeaderAsPrintedExample | src/display.cpp:65-69 | after 65535 packets the header ends " P=-0001" instead of " P=65535" |
| ControlProofs.WellFormedAppend | src/main.cpp:318-333 | joining two traces that keep the switch and sleep protocols keeps them |
| ControlProofs.RenderCountAppend | src/display.cpp:55-60 | renders in a joined trace add up |
| ControlProofs.InitialIsValid | src/main.cpp:48-57 | the initial globals satisfy the invariant, with the redraw flag set, the menu hidden, channel 3 and entry 0 selected |
| ControlProofs.SetChannelPreservesValid | src/main.cpp:318-333 | setChannel keeps the invariant |
| ControlProofs.ConfirmActionPreservesValid | src/main.cpp:179-197 | the confirm action keeps the invariant |
| ControlProofs.NextActionPreservesValid | src/main.cpp:199-207 | the next action keeps the invariant |
| ControlProofs.PrevActionPreservesValid | src/main.cpp:209-217 | the previous action keeps the invariant |
| ControlProofs.HandleCommandPreservesValid | src/main.cpp:164-219 | every serial command keeps the invariant |
| ControlProofs.CheckButtonPreservesValid | src/main.cpp:347-409 | checkButton keeps the invariant |
| ControlProofs.CheckJobsPreservesValid | src/main.cpp:411-447 | checkJobs keeps the invariant, including the sleep-cycle order of the trace |
| ControlProofs.ReadRadioDataPreservesValid | src/main.cpp:294-341 | the receive path keeps the invariant |
| ControlProofs.ReadBatteryLevelPreservesValid | src/main.cpp:270-292 | the battery read keeps the invariant |
| ControlProofs.DisplayLoopPreservesValid | src/display.cpp:55-60 | displayLoop keeps the invariant |
| ControlProofs.LoopIterationPreservesValid | src/main.cpp:124-138 | every pass of the main loop keeps the invariant |
| ControlProofs.CheckJobsAddsNoRender | src/main.cpp:411-427 | the sleep cycle renders nothing itself |
| ControlProofs.CommandStageAddsNoRender | src/main.cpp:164-219 | a serial command renders nothing itself |
| ControlProofs.CheckButtonAddsNoRender | src/main.cpp:347-409 | checkButton renders nothing itself |
| ControlProofs.SensorsLeaveTrace | src/main.cpp:270-341 | the battery read and the receive path make no traced driver call |
| ControlProofs.LoopIterationRenders | src/main.cpp:124-138 | a pass renders once if the redraw flag is set after checkJobs and the serial step, and not at all otherwise |
| ControlProofs.PendingRedrawRendered | src/main.cpp:124-138 | a redraw pending at the start of a pass is rendered in that pass |
| ControlProofs.LateChangesWaitForNextPass | src/main.cpp:124-138 | a battery change, a received packet or a button in a pass leaves a redraw pending for the next pass, without rendering in this one |
| ControlProofs.LoopIterationDeadline | src/main.cpp:124-138 | across a pass the deadline takes the button rearm if a pin is high, else the wake rearm if the deadline expired, else stays |
| ControlProofs.ConsoleSession | src/main.cpp:164-219 | from the start state, "channel 10", "q", three "w" and "q" select channel 10, walk the menu to Exit and close it with no other effect |
| Receiver.Controller.constructor | src/main.cpp:48-57 | the globals start as initialised in main.cpp and display.cpp, with the first deadline, and satisfy the invariant; radio_data is a newly allocated array |
| Receiver.Controller.SetChannel | src/main.cpp:318-333 | performs Control.SetChannel in place |
| Receiver.Controller.DisplayHasChanged | src/display.cpp:106-108 | performs Control.DisplayHasChanged in place |
| Receiver.Controller.MenuNext | src/display.cpp:110-116 | moves the selection as Control.MenuNext and changes nothing else |
| Receiver.Controller.MenuPrev | src/display.cpp:118-124 | moves the selection as Control.MenuPrev and changes nothing else |
| Receiver.Controller.DisplayChangeMode | src/display.cpp:126-132 | toggles the mode as Control.ChangeMode and changes nothing else |
| Receiver.Controller.DisplayOnOffBacklight | src/display.cpp:134-142 | performs Control.DisplayOnOffBacklight in place |
| Receiver.Controller.SendRadioData | src/main.cpp:343-345 | changes nothing |
| Receiver.Controller.ConfirmAction | src/main.cpp:179-197 | performs Control.ConfirmAction in place |
| Receiver.Controller.NextAction | src/main.cpp:199-207 | performs Control.NextAction in place |
| Receiver.Controller.PrevAction | src/main.cpp:209-217 | performs Control.PrevAction in place |
| Receiver.Controller.HandleCommand | src/main.cpp:164-219 | performs Control.HandleCommand in place and keeps the invariant |
| Receiver.Controller.ResetIdleTimer | src/main.cpp:445-447 | performs Control.ResetIdleTimer in place |
| Receiver.Controller.PollButton0 | src/main.cpp:349-371 | performs Control.PollButton0 in place |
| Receiver.Controller.PollButton1 | src/main.cpp:373-387 | performs Control.PollButton1 in place |
| Receiver.Controller.PollButton2 | src/main.cpp:389-403 | performs Control.PollButton2 in place |
| Receiver.Controller.CheckButton | src/main.cpp:347-409 | performs Control.CheckButton in place and keeps the invariant |
| Receiver.Controller.DisplayIdle | src/display.cpp:144-147 | performs Control.DisplayIdle in place |
| Receiver.Controller.DisplayWake | src/display.cpp:149-155 | performs Control.DisplayWake in place |
| Receiver.Controller.PowerDownAvr | src/main.cpp:437-443 | performs Control.PowerDownAvr in place |
| Receiver.Controller.PowerUpAvr | src/main.cpp:429-435 | performs Control.PowerUpAvr in place |
| Receiver.Controller.CheckJobs | src/main.cpp:411-427 | performs Control.CheckJobs in place and keeps the invariant |
| Receiver.Controller.RxInterrupt | src/main.cpp:86-89 | sets the receive latch, as Control.RxInterrupt |
| Receiver.Controller.ReadRxRadio | src/main.cpp:294-316 | copies the payload into the radio_data array and counts it only on rx_ok, as Control.ReadRxRadio |
| Receiver.Controller.ReadRadioData | src/main.cpp:335-341 | performs Control.ReadRadioData in place and keeps the invariant |
| Receiver.Controller.ReadBatteryLevel | src/main.cpp:278-285 | performs Control.ReadBatteryLevel in place and keeps the invariant |
| Receiver.Controller.DisplayWriteData | src/display.cpp:62-104 | renders the frame Control.FrameOf describes, built by the two text loops |
| Receiver.Controller.DisplayLoop | src/display.cpp:55-60 | performs Control.DisplayLoop in place and keeps the invariant |
| Receiver.Controller.LoopIteration | src/main.cpp:124-138 | performs one pass, Control.LoopIteration, in place and keeps the invariant |

## Findings

| source | as written | input that shows it | evidently intended | confidence | as-written member | corrected member |
|---|---|---|---|---|---|---|
| src/display.cpp:65-69 | `receive_count`, a `uint16_t`, is printed with `%05d`. int is 16 bits wide on avr-gcc, so counts from 32768 on print as negative numbers | 65535 received packets: the header ends " P=-0001" | the count printed unsigned (`%05u`), " P=65535" | medium, not executed; depends on avr-gcc's 16-bit int | Text.HeaderAsPrintedFromHalfRange | Text.HeaderLayout |

`Text.HeaderTextAsPrinted` is the header as printed. `Text.HeaderAsPrintedExample` shows the concrete input. `Text.HeaderAsPrintedFits` shows that the printed header still fits the buffer. The rest of the model uses the corrected `Text.HeaderText`. `battery_level` is printed with `%d` too, but the ADC reading is at most 10 bits, so it never reaches 32768.

## Left out

- Register and peripheral bring-up is not modelled: `initGPIO`, `initRadio`, `displayInit`, `initTimer1`, `usart_init`, the `SMCR` and interrupt register writes, `adc_read`'s conversion busy-wait, and the ADC enable, disable and pull-up in `read_battery_level`. The ADC reading is a parameter.
- Interrupt concurrency is not modelled. `RxInterrupt` sets the receive latch between loop steps. No interleaving inside a step is modelled, and the USART, timer and INT0 handlers are left out.
- The RF24 driver, the PCD8544 driver, the USART tokenizer and the timer library are foreign code. Their calls are trace entries or parameters. `radio.whatHappened`, `radio.read` and `radio.flush_rx` are not traced: their results are the `rxOk` and `payload` parameters.
- `convertSecondsToCicles` and `getCurrentTimeCicles` are not visible. The new deadline and the current tick are parameters.
- `_delay_ms` is timing only and is left out. `sleep_mode` is only the `McuSleep` trace marker.
- `printf` and `log_*` output, and the echo of the `test` command, have no effect on state and are left out.
- ASCII mode renders the payload as raw glyphs through the display driver. The model records only that branch and the bytes (`GlyphBody`), not the pixels. Likewise a render records the frame's texts, not `textWrap`'s layout.
- The self-aliasing `sprintf(buffer, "%s…", buffer, …)` in `displayWriteData` is undefined behaviour in C. The model gives it its evident meaning, appending.
- Receiver.Controller.CheckButton: `checkButton` reads PIND four times. The model takes one sample for all four reads, so it does not capture a pin changing between the reads.
- Text.Atoi: a number outside the range of `int` is kept as its mathematical value, where C leaves `atoi` undefined. `setChannel` receives it reduced modulo 256, as the conversion to `uint8_t` does.
- Receiver.Controller.DisplayWriteData: the rendered header is the intended one, `Text.HeaderText`, with the count printed unsigned. The firmware prints counts of 32768 or more as negative numbers (see Findings; the as-printed header is `Text.HeaderTextAsPrinted`). `Control.FrameOf` and `ControlProofs.FrameFitsBuffer` use the intended header too.
- Control.ReadBatteryLevel: the reading is any 16-bit value, and the header prints it unsigned. The firmware prints it with `%d`, which would show a value of 32768 or more as negative. `adc_read` returns the 10-bit ADC result (at most 1023), so this never happens, but the model does not bound the reading.
- `sendRadioData` is an empty stub. It is a no-op (`Receiver.Controller.SendRadioData`) and the Send Data entry changes nothing.
