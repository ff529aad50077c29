/**
 * Option type used where the Java code uses a nullable box (`Byte`, `Integer`).
 */
module Wrappers {
  datatype Option<+T> = None | Some(value: T)
}

/**
 * The protocol constants of the TN3270 client: Telnet command and option
 * codes (RFC 854, RFC 856, RFC 858, RFC 885, RFC 1091), 3270 command, order,
 * WCC and AID codes, and the 80x24 screen geometry.  Java `byte` constants are
 * written as `bv8`; a Java comparison of two bytes is a comparison of the
 * same bit patterns.
 */
module Tn3270Constants {
  // Telnet commands
  const IAC: bv8 := 0xFF
  const DONT: bv8 := 0xFE
  const DO: bv8 := 0xFD
  const WONT: bv8 := 0xFC
  const WILL: bv8 := 0xFB
  const SB: bv8 := 0xFA
  const SE: bv8 := 0xF0
  const EOR: bv8 := 0xEF

  // Telnet options
  const BINARY: bv8 := 0
  const ECHO: bv8 := 1
  const SUPPRESS_GO_AHEAD: bv8 := 3
  const TERMINAL_TYPE: bv8 := 24
  const END_OF_RECORD: bv8 := 25

  // Terminal-type sub-commands
  const TT_IS: bv8 := 0
  const TT_SEND: bv8 := 1

  // 3270 commands
  const WRITE: bv8 := 0xF1
  const ERASE_WRITE: bv8 := 0xF5
  const ERASE_WRITE_ALTERNATE: bv8 := 0x7E
  const READ_BUFFER: bv8 := 0xF2
  const READ_MODIFIED: bv8 := 0xF6
  const READ_MODIFIED_ALL: bv8 := 0x6E

  // 3270 orders
  const SF: bv8 := 0x1D
  const SFE: bv8 := 0x29
  const SBA: bv8 := 0x11
  const SA: bv8 := 0x28
  const MF: bv8 := 0x2C
  const IC: bv8 := 0x13
  const PT: bv8 := 0x05
  const RA: bv8 := 0x3C
  const EUA: bv8 := 0x12
  const GE: bv8 := 0x08

  // Write control character bits
  const WCC_KEYBOARD_RESTORE: bv8 := 0x01
  const WCC_SOUND_ALARM: bv8 := 0x02
  const WCC_START_PRINTER: bv8 := 0x04
  const WCC_PRINT: bv8 := 0x08
  const WCC_ERASE_ALL_UNPROTECTED: bv8 := 0x40

  // Field attribute bits
  const ATTR_MDT: bv8 := 0x01

  /** Type code of the basic field attribute in an SFE/SA/MF attribute pair. */
  const BASIC_ATTRIBUTE: bv8 := 0xC0

  // Attention identifiers
  const AID_CLEAR: bv8 := 0x6D
  const AID_ENTER: bv8 := 0x7D
  const AID_PF1: bv8 := 0xF1
  const AID_PF2: bv8 := 0xF2
  const AID_PF3: bv8 := 0xF3
  const AID_PF4: bv8 := 0xF4
  const AID_PF5: bv8 := 0xF5
  const AID_PF6: bv8 := 0xF6
  const AID_PF7: bv8 := 0xF7
  const AID_PF8: bv8 := 0xF8
  const AID_PF9: bv8 := 0xF9
  const AID_PF10: bv8 := 0x7A
  const AID_PF11: bv8 := 0x7B
  const AID_PF12: bv8 := 0x7C
  const AID_PA1: bv8 := 0x6C
  const AID_PA2: bv8 := 0x6E
  const AID_PA3: bv8 := 0x6B

  // Screen geometry of an IBM 3278 model 2
  const SCREEN_WIDTH: int := 80
  const SCREEN_HEIGHT: int := 24
  const BUFFER_SIZE: int := 1920

  /** The value of a Java `byte` (two's complement). */
  function Signed(b: bv8): (v: int)
    ensures -128 <= v < 128
    ensures v < 0 <==> b >= 0x80
    ensures v % 256 == b as int
  {
    if b < 0x80 then b as int else b as int - 256
  }
}
