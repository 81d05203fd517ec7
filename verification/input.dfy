/**
 * One frame of keyboard and mouse input. Left and right variants of a
 * modifier are merged into one key.
 */
module Input {

  datatype Key =
    | Ctrl | Shift | Alt | Space
    | KeyA | KeyC | KeyD | KeyE | KeyH | KeyI | KeyL | KeyQ | KeyR | KeyV | KeyX | KeyY | KeyZ
    | Escape | Delete | Backspace | Enter | PageUp | PageDown
    | BracketLeft | BracketRight
    | ArrowLeft | ArrowRight | ArrowUp | ArrowDown
    | Digit(d: nat)

  /** Keys held this frame, newly pressed this frame and released this frame. */
  datatype Keys = Keys(pressed: set<Key>, justPressed: set<Key>, justReleased: set<Key>)

  /** The left and right mouse buttons this frame. */
  datatype Mouse = Mouse(leftStart: bool, leftDown: bool, leftEnd: bool, rightStart: bool)

  predicate Held(k: Keys, key: Key)
  {
    key in k.pressed
  }

  predicate Tapped(k: Keys, key: Key)
  {
    key in k.justPressed
  }

  predicate Released(k: Keys, key: Key)
  {
    key in k.justReleased
  }
}
