/**
 * The keyboard dispatch of `_handleKeydown`: with `keybind` on, Up and Down
 * step the value and Ctrl+Up / Ctrl+Down jump to the bounds; any Alt
 * combination and every other key do nothing.
 */
module Keys {
  /** The operation a key press or a button click asks for. */
  datatype Action = NoAction | Increase | Decrease | ToMin | ToMax

  /** `e.which` of the arrow keys. */
  const KeyUp: int := 38
  const KeyDown: int := 40

  /** The handler `_handleKeydown` calls for a key press, given `keybind`. */
  function KeyAction(keybind: bool, which: int, alt: bool, ctrl: bool): (a: Action)
    ensures a != NoAction ==> keybind && !alt && (which == KeyUp || which == KeyDown)
    ensures (a == ToMin || a == ToMax) <==> a != NoAction && ctrl
  {
    if !keybind || alt then NoAction
    else if which == KeyUp then (if ctrl then ToMax else Increase)
    else if which == KeyDown then (if ctrl then ToMin else Decrease)
    else NoAction
  }

  /** Each operation is reached by exactly one key combination, and only with `keybind` on and Alt up. */
  lemma KeyActionExactly(keybind: bool, which: int, alt: bool, ctrl: bool)
    ensures var a := KeyAction(keybind, which, alt, ctrl);
      && (a == Increase <==> keybind && !alt && !ctrl && which == KeyUp)
      && (a == ToMax <==> keybind && !alt && ctrl && which == KeyUp)
      && (a == Decrease <==> keybind && !alt && !ctrl && which == KeyDown)
      && (a == ToMin <==> keybind && !alt && ctrl && which == KeyDown)
      && (a == NoAction <==> !keybind || alt || (which != KeyUp && which != KeyDown))
  {
  }

  /** Ctrl switches an arrow key from a step to the bound in the same direction. */
  lemma CtrlJumpsToBound(which: int)
    ensures KeyAction(true, which, false, false) == Increase <==> KeyAction(true, which, false, true) == ToMax
    ensures KeyAction(true, which, false, false) == Decrease <==> KeyAction(true, which, false, true) == ToMin
  {
  }
}
