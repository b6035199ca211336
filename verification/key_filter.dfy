/**
  The key filter of handleInputNumberKeyDown: a number input admits only
  digits, numpad digits and signs, arrows, Backspace and Tab; any other key
  has its default action prevented unless Ctrl is held.
*/
module KeyFilter {

  const BackspaceKeyCode: int := 8
  const TabKeyCode: int := 9
  const ArrowKeyCodes: seq<int> := [37, 38, 39, 40]
  const NumPadNumberKeyCodes: seq<int> := [96, 97, 98, 99, 100, 101, 102, 103, 104, 105, 109, 110, 190]

  /** Every key code the input admits, written out. */
  const AdmittedKeyCodes: set<int> := {
    8, 9,
    37, 38, 39, 40,
    48, 49, 50, 51, 52, 53, 54, 55, 56, 57,
    96, 97, 98, 99, 100, 101, 102, 103, 104, 105, 109, 110, 190}

  /** What the handler does with a key press. */
  datatype KeyAction =
    | PreventDefault   // e.preventDefault()
    | Forward          // passed on to the component's onKeyDown
    | Ignore           // neither: a rejected key with Ctrl held, or no onKeyDown

  /** The handler's test, with JavaScript's `&&` binding tighter than `||`. */
  predicate Rejected(keyCode: int) {
    && ((keyCode < 48 && keyCode !in ArrowKeyCodes) || (keyCode > 57 && keyCode !in NumPadNumberKeyCodes))
    && !(keyCode == BackspaceKeyCode || keyCode == TabKeyCode)
  }

  /**
    handleInputNumberKeyDown: prevent a key that is not admitted unless Ctrl
    is held, and forward an admitted one when there is an onKeyDown handler.
  */
  function KeyDown(keyCode: int, ctrlKey: bool, hasOnKeyDown: bool): (a: KeyAction)
    ensures a == PreventDefault <==> keyCode !in AdmittedKeyCodes && !ctrlKey
    ensures a == Forward <==> keyCode in AdmittedKeyCodes && hasOnKeyDown
  {
    if Rejected(keyCode) then
      if !ctrlKey then PreventDefault else Ignore
    else if hasOnKeyDown then Forward
    else Ignore
  }

  /** The key is blocked: its default action is prevented. */
  predicate Blocked(keyCode: int, ctrlKey: bool) {
    KeyDown(keyCode, ctrlKey, false) == PreventDefault
  }

  /** Digits, arrows, Backspace, Tab and the listed numpad codes are never blocked. */
  lemma AdmittedKeysNeverBlocked(keyCode: int, ctrlKey: bool)
    requires 48 <= keyCode <= 57 || keyCode in ArrowKeyCodes || keyCode in NumPadNumberKeyCodes
      || keyCode == BackspaceKeyCode || keyCode == TabKeyCode
    ensures !Blocked(keyCode, ctrlKey)
  {
  }

  /** Any other key below 48 or above 57 is blocked exactly when Ctrl is not held. */
  lemma OtherKeysBlockedWithoutCtrl(keyCode: int, ctrlKey: bool)
    requires keyCode < 48 || keyCode > 57
    requires keyCode !in ArrowKeyCodes && keyCode !in NumPadNumberKeyCodes
    requires keyCode != BackspaceKeyCode && keyCode != TabKeyCode
    ensures Blocked(keyCode, ctrlKey) <==> !ctrlKey
  {
  }
}
