/** Where a validator shows its error: on the text field itself, or on the
    nearest enclosing `TextInputLayout`. The state is the two error slots plus
    the `textInputLayoutValidate` mode flag that selects the active one. */
module ErrorDisplay {
  import opened Wrappers
  import opened Text

  /** One entry of the field's parent chain, nearest parent first. */
  datatype Ancestor = InputLayout | OtherView

  /** `IllegalArgumentException("Error finding TextInputLayout")`, and the
      `NullPointerException` of dereferencing a missing layout. */
  datatype Fault = NoInputLayout | NullLayout

  /** How a Java call ends: normally, or by throwing after having left the
      object in `state`. */
  datatype Completion<S> = Normal(state: S) | Abrupt(state: S, fault: Fault)

  /** The field's error, the layout's error and the mode flag. In layout mode
      the layout slot belongs to the first `TextInputLayout` ancestor. */
  datatype Display = Display(fieldError: Option<string>, layoutError: Option<string>, layoutMode: bool)

  /** The error on the active target. */
  function Shown(d: Display): Option<string>
  {
    if d.layoutMode then d.layoutError else d.fieldError
  }

  /** The error on the inactive target. */
  function Hidden(d: Display): Option<string>
  {
    if d.layoutMode then d.fieldError else d.layoutError
  }

  /** Only the active target shows anything. */
  predicate SingleTarget(d: Display)
  {
    IsEmpty(Hidden(d))
  }

  /** `Validator.setError`: writes the active target, whatever `showError` says. */
  function SetError(d: Display, e: Option<string>): (r: Display)
    ensures Shown(r) == e
    ensures Hidden(r) == Hidden(d)
    ensures r.layoutMode == d.layoutMode
    ensures SingleTarget(d) ==> SingleTarget(r)
  {
    if d.layoutMode then d.(layoutError := e) else d.(fieldError := e)
  }

  /** The walk up `getParent()` until a `TextInputLayout` or the root: the
      index of the first layout in the chain, or `None` when there is none. */
  function FindInputLayout(ancestors: seq<Ancestor>): (r: Option<nat>)
    ensures r.None? <==> forall k :: 0 <= k < |ancestors| ==> ancestors[k] != InputLayout
    ensures r.Some? ==> r.value < |ancestors| && ancestors[r.value] == InputLayout
    ensures r.Some? ==> forall k :: 0 <= k < r.value ==> ancestors[k] != InputLayout
  {
    if |ancestors| == 0 then None
    else if ancestors[0] == InputLayout then Some(0)
    else
      match FindInputLayout(ancestors[1..])
      case None => None
      case Some(k) => Some(k + 1)
  }

  /** Entering layout mode once the layout is found: a non-empty field error
      moves to the layout and the field is cleared. */
  function MoveToLayout(d: Display): (r: Display)
    ensures r.layoutMode
    ensures !IsEmpty(d.fieldError) ==> r.layoutError == d.fieldError && r.fieldError == None
    ensures IsEmpty(d.fieldError) ==> r.fieldError == d.fieldError && r.layoutError == d.layoutError
  {
    if !IsEmpty(d.fieldError) then Display(None, d.fieldError, true) else d.(layoutMode := true)
  }

  /** Leaving layout mode: a layout is held exactly when layout mode was on;
      its non-empty error moves back to the field and the layout is cleared. */
  function MoveToField(d: Display): (r: Display)
    ensures !r.layoutMode
    ensures d.layoutMode && !IsEmpty(d.layoutError) ==> r.fieldError == d.layoutError && r.layoutError == None
    ensures !(d.layoutMode && !IsEmpty(d.layoutError)) ==> r.fieldError == d.fieldError && r.layoutError == d.layoutError
  {
    if d.layoutMode && !IsEmpty(d.layoutError) then Display(d.layoutError, None, false) else d.(layoutMode := false)
  }

  /** `setTextInputLayoutValidate(on)`, with the mode flag assigned only once
      the layout is found: when there is none the call throws and the display
      is left exactly as it was. */
  function SetLayoutMode(d: Display, ancestors: seq<Ancestor>, on: bool): (c: Completion<Display>)
    ensures c.Abrupt? <==> on && forall k :: 0 <= k < |ancestors| ==> ancestors[k] != InputLayout
    ensures c.Abrupt? ==> c.state == d && c.fault == NoInputLayout
    ensures c.Normal? ==> c.state.layoutMode == on
  {
    if on then
      match FindInputLayout(ancestors)
      case None => Abrupt(d, NoInputLayout)
      case Some(_) => Normal(MoveToLayout(d))
    else
      Normal(MoveToField(d))
  }

  /** Switching the target never leaves an error on the inactive target, and a
      non-empty error shown before the switch is shown after it. */
  lemma SwitchTransfersShownError(d: Display, ancestors: seq<Ancestor>, on: bool)
    requires SingleTarget(d)
    requires SetLayoutMode(d, ancestors, on).Normal?
    ensures SingleTarget(SetLayoutMode(d, ancestors, on).state)
    ensures !IsEmpty(Shown(d)) ==> Shown(SetLayoutMode(d, ancestors, on).state) == Shown(d)
    ensures IsEmpty(Shown(d)) ==> IsEmpty(Shown(SetLayoutMode(d, ancestors, on).state))
  {
  }

  /** Entering layout mode and leaving it again hands a field error back to
      the field untouched. */
  lemma LayoutRoundTrip(d: Display, ancestors: seq<Ancestor>)
    requires !d.layoutMode && d.layoutError == None
    requires FindInputLayout(ancestors).Some?
    ensures SetLayoutMode(d, ancestors, true).Normal?
    ensures SetLayoutMode(SetLayoutMode(d, ancestors, true).state, ancestors, false) == Normal(d)
  {
  }

  // The code as written assigns the mode flag before searching, and keeps
  // the found layout in a separate reference that stays null on failure.

  /** The display together with whether the `textInputLayout` reference is set. */
  datatype RawDisplay = RawDisplay(display: Display, attached: bool)

  /** `setTextInputLayoutValidate` as written: the flag is assigned first, so a
      failed search throws with layout mode already on and no layout held. */
  function SetLayoutModeAsWritten(r: RawDisplay, ancestors: seq<Ancestor>, on: bool): (c: Completion<RawDisplay>)
    ensures c.state.display.layoutMode == on
    ensures c.Abrupt? <==> on && FindInputLayout(ancestors).None?
    ensures c.Abrupt? ==> c.state.attached == r.attached
    ensures c.Normal? ==> c.state.attached == on
  {
    if on then
      match FindInputLayout(ancestors)
      case None => Abrupt(RawDisplay(r.display.(layoutMode := true), r.attached), NoInputLayout)
      case Some(_) => Normal(RawDisplay(MoveToLayout(r.display), true))
    else if r.attached && !IsEmpty(r.display.layoutError) then
      Normal(RawDisplay(Display(r.display.layoutError, None, false), false))
    else
      Normal(RawDisplay(r.display.(layoutMode := false), false))
  }

  /** `setError` as written: in layout mode it dereferences the layout reference. */
  function SetErrorAsWritten(r: RawDisplay, e: Option<string>): (c: Completion<RawDisplay>)
    ensures c.Abrupt? <==> r.display.layoutMode && !r.attached
    ensures c.Normal? ==> c.state == RawDisplay(SetError(r.display, e), r.attached)
  {
    if r.display.layoutMode && !r.attached then Abrupt(r, NullLayout)
    else Normal(RawDisplay(SetError(r.display, e), r.attached))
  }

  /** Where a layout exists, the code as written and `SetLayoutMode` agree. */
  lemma AsWrittenAgreesWhenFound(d: Display, ancestors: seq<Ancestor>, on: bool)
    requires FindInputLayout(ancestors).Some?
    ensures SetLayoutMode(d, ancestors, on).Normal?
    ensures SetLayoutModeAsWritten(RawDisplay(d, d.layoutMode), ancestors, on)
         == Normal(RawDisplay(SetLayoutMode(d, ancestors, on).state, on))
  {
  }

  /** Counterexample: a field with no `TextInputLayout` ancestor. Enabling
      layout mode throws, yet leaves the flag on, and every later `setError`
      (every `validate` that shows its result) throws `NullPointerException`. */
  lemma FailedEnableBreaksSetError(e: Option<string>)
    ensures var c := SetLayoutModeAsWritten(RawDisplay(Display(None, None, false), false), [OtherView], true);
            && c.Abrupt? && c.fault == NoInputLayout
            && c.state.display.layoutMode
            && SetErrorAsWritten(c.state, e).Abrupt?
            && SetErrorAsWritten(c.state, e).fault == NullLayout
  {
  }
}
