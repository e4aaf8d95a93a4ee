/**
 * Platform facts shared by the receiver's control layer: the C integer
 * widths of its globals, the constants of main.cpp and display.h, and the
 * calls it makes into the radio and display drivers, recorded as a trace.
 */
module Platform {

  /** uint8_t, uint16_t and uint64_t of avr-gcc. */
  type uint8 = x: int | 0 <= x < 0x100
  type uint16 = x: int | 0 <= x < 0x1_0000
  type uint64 = x: int | 0 <= x < 0x1_0000_0000_0000_0000

  /** Conversion of an int to uint8_t: reduction modulo 2^8 (also for negative values). */
  function ToUint8(x: int): uint8
  {
    x % 0x100
  }

  /** Conversion of an int to uint16_t: reduction modulo 2^16. */
  function ToUint16(x: int): uint16
  {
    x % 0x1_0000
  }

  // main.cpp
  const DEFAULT_CHANNEL: uint8 := 3
  /** Highest channel setChannel ever leaves selected: the literal 125 in setChannel. */
  const MAX_CHANNEL: uint8 := 125

  // display.h
  const MENU_MODE_ASCII: uint8 := 0
  const MENU_MODE_DEC: uint8 := 2
  const MENU_ITEMS: nat := 4
  const MENU_ITEM_SEND_DATA: uint8 := 0
  const MENU_ITEM_SHOW_MODE: uint8 := 1
  const MENU_ITEM_BACKLIGHT: uint8 := 2
  const MENU_ITEM_EXIT: uint8 := 3
  const RF_PAYLOAD_SIZE: nat := 8

  // display.cpp: char buffer[100], which must also hold the terminating NUL
  const BUFFER_SIZE: nat := 100

  datatype Option<T> = None | Some(value: T)

  /** What displayWriteData puts below the header line. */
  datatype Body =
    | NoBody
    | MenuBody(text: string)          // the four menu lines
    | DecimalBody(text: string)       // the payload as decimal numbers
    | GlyphBody(glyphs: seq<uint8>)   // the payload written as raw glyphs

  /** One rendered screen: the header line and what follows it. */
  datatype Frame = Frame(header: string, body: Body)

  /** Calls into the radio driver, the display driver and the sleep controller. */
  datatype Op =
    | RadioSetChannel(channel: uint8)  // radio.setChannel
    | RadioStopListening               // radio.stopListening
    | RadioStartListening              // radio.startListening
    | RadioPowerDown                   // radio.powerDown
    | RadioPowerUp                     // radio.powerUp
    | LcdSleep                         // display.sleep
    | LcdWake                          // display.wake
    | McuSleep                         // sleep_mode
    | LcdRender(frame: Frame)          // clearDisplay, textWrap/write, display
}
