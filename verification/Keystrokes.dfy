/** A keystroke as keyboards report it. */
module Keystrokes {

  type Word = w: nat | w < 0x1_0000

  /** A flag word, as the set of its bit numbers. */
  type Flags = set<nat>

  const SHIFT_STATE_VALID: nat := 31
  const TOGGLE_STATE_VALID: nat := 7

  datatype KeyState = KeyState(shift: Flags, toggle: Flags)

  datatype KeyData = KeyData(scanCode: Word, unicodeChar: Word, state: KeyState)
}
