/**
 This module models the input vocabulary of the typing game: the keys the
 program distinguishes and the window-system events it receives.
 */
module Keys {

  /** The keys the program tells apart. Every other key is `OtherKey`; its
      code only distinguishes one such key from another. */
  datatype Key = Return | Space | Backspace | Escape | OtherKey(code: nat)

  /** An event delivered by the window system. A key press carries the key and
      the text it produced (`unicode`), which may be empty (a modifier key) or
      longer than one character (an input method). Every event that is
      neither a quit request nor a key press is `OtherEvent`. */
  datatype Event = Quit | KeyDown(key: Key, unicode: string) | OtherEvent(kind: nat)

  /** The keys that empty the typed-input buffer. */
  const ClearKeys: set<Key> := {Return, Space}

  predicate IsClearKey(k: Key) {
    k in ClearKeys
  }

  /** Neither Backspace nor Escape is a clear key, so testing for a clear
      key before testing for Backspace never shadows Backspace, and neither
      test catches Escape. */
  lemma KeyClassesAreDisjoint()
    ensures !IsClearKey(Backspace) && !IsClearKey(Escape)
  {
  }
}
