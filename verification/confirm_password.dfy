/** `ConfirmPasswordValidator`: two password validators joined by an equality
    check. It listens to both; an inner success re-checks equality at once,
    an inner error is left to the inner validator. */
module ConfirmPassword {
  import opened Wrappers
  import opened Text
  import opened Platform
  import D = ErrorDisplay
  import V = Validators

  /** The password validator, the confirmation validator and the configured
      mismatch message. */
  datatype Pair = Pair(password: V.Validator, confirm: V.Validator, mismatchError: Option<string>)

  /** Which of the two fields a UI event reaches. */
  datatype Side = PasswordSide | ConfirmSide

  /** What `validate()` returns, and the pair after it. */
  datatype JointOutcome = JointOutcome(passed: bool, after: Pair)

  /** Both inner validators report to this one. */
  predicate Wired(j: Pair)
  {
    j.password.config.listener == V.ConfirmListener && j.confirm.config.listener == V.ConfirmListener
  }

  /** Two pairs that differ at most in what their fields display. */
  predicate SameButDisplays(a: Pair, b: Pair)
  {
    V.SameButDisplay(a.password, b.password) && V.SameButDisplay(a.confirm, b.confirm)
    && a.mismatchError == b.mismatchError
  }

  /** Neither field's mode nor its inactive slot differs. */
  predicate SameTargets(a: Pair, b: Pair)
  {
    && a.password.display.layoutMode == b.password.display.layoutMode
    && a.confirm.display.layoutMode == b.confirm.display.layoutMode
    && D.Hidden(a.password.display) == D.Hidden(b.password.display)
    && D.Hidden(a.confirm.display) == D.Hidden(b.confirm.display)
  }

  /** Whether `validate()` on `v` passes. */
  predicate Accepts(v: V.Validator, env: Env)
  {
    V.Validate(v, v.text, env).passed
  }

  /** The constructor: installs itself as the listener of both validators,
      replacing whatever listener they had; nothing else changes. */
  function New(password: V.Validator, confirm: V.Validator): (j: Pair)
    ensures Wired(j)
    ensures j.password == V.SetValidateListener(password, V.ConfirmListener)
    ensures j.confirm == V.SetValidateListener(confirm, V.ConfirmListener)
    ensures j.mismatchError == None
  {
    Pair(V.SetValidateListener(password, V.ConfirmListener), V.SetValidateListener(confirm, V.ConfirmListener), None)
  }

  /** `setMismatchPasswordError`. */
  function SetMismatchPasswordError(j: Pair, e: Option<string>): (r: Pair)
    ensures r.mismatchError == e
    ensures r.(mismatchError := j.mismatchError) == j
  {
    j.(mismatchError := e)
  }

  /** The mismatch message: the configured one unless it is null or empty,
      the localized default otherwise. */
  function MismatchMessage(j: Pair, env: Env): (m: string)
    ensures !IsEmpty(j.mismatchError) ==> m == j.mismatchError.value
    ensures IsEmpty(j.mismatchError) ==> m == env.getString(PasswordsDoNotMatch, [])
  {
    if !IsEmpty(j.mismatchError) then j.mismatchError.value else env.getString(PasswordsDoNotMatch, [])
  }

  /** `setError`: both fields show `e` through `Validator.setError`, so the
      `showError` flags are not consulted. */
  function SetError(j: Pair, e: Option<string>): (r: Pair)
    ensures SameButDisplays(j, r)
    ensures D.Shown(r.password.display) == e && D.Shown(r.confirm.display) == e
    ensures SameTargets(j, r)
  {
    j.(password := V.SetError(j.password, e), confirm := V.SetError(j.confirm, e))
  }

  /** `setErrorMismatch`: both fields show the same mismatch message. */
  function SetErrorMismatch(j: Pair, env: Env): (r: Pair)
    ensures SameButDisplays(j, r) && SameTargets(j, r)
    ensures D.Shown(r.password.display) == Some(MismatchMessage(j, env))
    ensures D.Shown(r.confirm.display) == Some(MismatchMessage(j, env))
  {
    SetError(j, Some(MismatchMessage(j, env)))
  }

  /** `onSuccess`: when both texts are non-empty, a mismatch is shown on both
      fields if they differ and both are cleared if they are equal; when
      either is empty nothing changes. */
  function OnSuccess(j: Pair, env: Env): (r: Pair)
    ensures SameButDisplays(j, r) && SameTargets(j, r)
    ensures |j.password.text| == 0 || |j.confirm.text| == 0 ==> r == j
    ensures |j.password.text| > 0 && |j.confirm.text| > 0 && j.password.text != j.confirm.text ==>
      D.Shown(r.password.display) == Some(MismatchMessage(j, env))
      && D.Shown(r.confirm.display) == Some(MismatchMessage(j, env))
    ensures |j.password.text| > 0 && |j.confirm.text| > 0 && j.password.text == j.confirm.text ==>
      D.Shown(r.password.display) == None && D.Shown(r.confirm.display) == None
  {
    if |j.password.text| > 0 && |j.confirm.text| > 0 then
      if j.password.text != j.confirm.text then SetErrorMismatch(j, env) else SetError(j, None)
    else
      j
  }

  /** `onError`: nothing. */
  function OnError(j: Pair, message: Option<string>): (r: Pair)
    ensures r == j
  {
    j
  }

  /** The callbacks an inner validator fired, as received by this validator
      when it is that validator's listener. */
  function Route(j: Pair, l: V.ListenerRef, events: seq<V.Event>, env: Env): (r: Pair)
    ensures SameButDisplays(j, r) && SameTargets(j, r)
    ensures l != V.ConfirmListener || events == [] ==> r == j
    ensures l == V.ConfirmListener && events == [V.OnSuccess] ==> r == OnSuccess(j, env)
    ensures l == V.ConfirmListener && |events| == 1 && events[0].OnError? ==> r == j
    decreases |events|
  {
    if l != V.ConfirmListener || |events| == 0 then j
    else
      var j' := match events[0]
        case OnSuccess => OnSuccess(j, env)
        case OnError(m) => OnError(j, m);
      Route(j', l, events[1..], env)
  }

  /** Validation verdicts do not depend on what a field displays. */
  lemma AcceptsIgnoresDisplay(a: V.Validator, b: V.Validator, env: Env)
    requires V.SameButDisplay(a, b)
    ensures Accepts(a, env) == Accepts(b, env)
  {
    V.VerdictIgnoresDisplay(a, b.display, a.config.showError, a.text, env);
  }

  /** `validate()` on one inner validator, its callback delivered here. */
  function ValidateOne(j: Pair, side: Side, env: Env): (o: JointOutcome)
    ensures SameButDisplays(j, o.after) && SameTargets(j, o.after)
    ensures side == PasswordSide ==> o.passed == Accepts(j.password, env)
    ensures side == ConfirmSide ==> o.passed == Accepts(j.confirm, env)
    ensures side == PasswordSide && !o.passed ==> o.after.confirm == j.confirm
    ensures Wired(j) && o.passed && |j.password.text| > 0 && j.password.text == j.confirm.text ==>
      D.Shown(o.after.password.display) == None && D.Shown(o.after.confirm.display) == None
  {
    match side
    case PasswordSide =>
      var o1 := V.Validate(j.password, j.password.text, env);
      JointOutcome(o1.passed, Route(j.(password := o1.after), j.password.config.listener, o1.events, env))
    case ConfirmSide =>
      var o2 := V.Validate(j.confirm, j.confirm.text, env);
      JointOutcome(o2.passed, Route(j.(confirm := o2.after), j.confirm.config.listener, o2.events, env))
  }

  /** `validate()`: the password validator, then (only if it passed) the
      confirmation validator, then the equality check. */
  function Validate(j: Pair, env: Env): (o: JointOutcome)
    ensures SameButDisplays(j, o.after) && SameTargets(j, o.after)
    ensures o.passed <==> Accepts(j.password, env) && Accepts(j.confirm, env) && j.password.text == j.confirm.text
    ensures !Accepts(j.password, env) ==> o.after.confirm == j.confirm
    ensures Accepts(j.password, env) && Accepts(j.confirm, env) && j.password.text != j.confirm.text ==>
      D.Shown(o.after.password.display) == Some(MismatchMessage(j, env))
      && D.Shown(o.after.confirm.display) == Some(MismatchMessage(j, env))
  {
    var o1 := ValidateOne(j, PasswordSide, env);
    if !o1.passed then o1
    else
      var o2 := ValidateOne(o1.after, ConfirmSide, env);
      AcceptsIgnoresDisplay(j.confirm, o1.after.confirm, env);
      if !o2.passed then JointOutcome(false, o2.after)
      else if o2.after.password.text != o2.after.confirm.text then JointOutcome(false, SetErrorMismatch(o2.after, env))
      else JointOutcome(true, o2.after)
  }

  /** Both inner validators pass on equal non-empty texts: `validate()` passes
      and both fields end up clear, the clearing done by `onSuccess`. */
  lemma MatchClearsBoth(j: Pair, env: Env)
    requires Wired(j)
    requires Accepts(j.password, env) && Accepts(j.confirm, env)
    requires j.password.text == j.confirm.text && |j.password.text| > 0
    ensures Validate(j, env).passed
    ensures D.Shown(Validate(j, env).after.password.display) == None
    ensures D.Shown(Validate(j, env).after.confirm.display) == None
  {
    var o1 := ValidateOne(j, PasswordSide, env);
    AcceptsIgnoresDisplay(j.confirm, o1.after.confirm, env);
  }

  /** A UI event on one of the two fields, its callbacks delivered here. */
  function FieldEvent(j: Pair, side: Side, s: V.Step, env: Env): (r: Pair)
    ensures side == PasswordSide ==> SameButDisplays(j.(password := s.after), r)
    ensures side == ConfirmSide ==> SameButDisplays(j.(confirm := s.after), r)
  {
    match side
    case PasswordSide => Route(j.(password := s.after), j.password.config.listener, s.events, env)
    case ConfirmSide => Route(j.(confirm := s.after), j.confirm.config.listener, s.events, env)
  }

  /** The user edits one of the two fields. */
  function TextChanged(j: Pair, side: Side, newText: string, env: Env): (r: Pair)
    ensures side == PasswordSide ==> r.password.text == newText && r.confirm.text == j.confirm.text
    ensures side == ConfirmSide ==> r.confirm.text == newText && r.password.text == j.password.text
    ensures side == PasswordSide ==> SameButDisplays(j.(password := j.password.(text := newText)), r)
    ensures side == ConfirmSide ==> SameButDisplays(j.(confirm := j.confirm.(text := newText)), r)
  {
    match side
    case PasswordSide => FieldEvent(j, side, V.TextChanged(j.password, newText, env), env)
    case ConfirmSide => FieldEvent(j, side, V.TextChanged(j.confirm, newText, env), env)
  }

  /** One of the two fields gains or loses focus. */
  function FocusChanged(j: Pair, side: Side, hasFocus: bool, env: Env): (r: Pair)
    ensures SameButDisplays(j, r)
  {
    match side
    case PasswordSide => FieldEvent(j, side, V.FocusChanged(j.password, hasFocus, env), env)
    case ConfirmSide => FieldEvent(j, side, V.FocusChanged(j.confirm, hasFocus, env), env)
  }

  /** Equality is re-checked as the user types: editing the confirmation to a
      non-empty text its own rules accept shows the mismatch on both fields
      when it differs from the password, and clears both when it matches,
      without any call to `validate()`. */
  lemma TypingRechecksEquality(j: Pair, newText: string, env: Env)
    requires Wired(j) && j.confirm.textWatcher
    requires |j.password.text| > 0 && |newText| > 0
    requires Accepts(j.confirm.(text := newText), env)
    ensures var r := TextChanged(j, ConfirmSide, newText, env);
      && (newText != j.password.text ==>
            D.Shown(r.password.display) == Some(MismatchMessage(j, env))
            && D.Shown(r.confirm.display) == Some(MismatchMessage(j, env)))
      && (newText == j.password.text ==>
            D.Shown(r.password.display) == None && D.Shown(r.confirm.display) == None)
  {
    var c := j.confirm.(text := newText);
    var o := V.Validate(c, newText, env);
    assert V.TextChanged(j.confirm, newText, env) == V.StepOf(o);
    assert o.events == [V.OnSuccess];
  }

  /** The same re-check from the other side: editing the password to a
      non-empty text its own rules accept, while the confirmation is
      non-empty, shows the mismatch on both fields when they differ and
      clears both when they match. */
  lemma TypingPasswordRechecksEquality(j: Pair, newText: string, env: Env)
    requires Wired(j) && j.password.textWatcher
    requires |j.confirm.text| > 0 && |newText| > 0
    requires Accepts(j.password.(text := newText), env)
    ensures var r := TextChanged(j, PasswordSide, newText, env);
      && (newText != j.confirm.text ==>
            D.Shown(r.password.display) == Some(MismatchMessage(j, env))
            && D.Shown(r.confirm.display) == Some(MismatchMessage(j, env)))
      && (newText == j.confirm.text ==>
            D.Shown(r.password.display) == None && D.Shown(r.confirm.display) == None)
  {
    var o := V.Validate(j.password.(text := newText), newText, env);
    assert V.TextChanged(j.password, newText, env) == V.StepOf(o);
    assert o.events == [V.OnSuccess];
  }

  /** Both inner validators keep the invariant through `validate()` and
      through `onSuccess`. */
  lemma ValidateKeepsValid(j: Pair, env: Env)
    requires V.Valid(j.password) && V.Valid(j.confirm)
    ensures V.Valid(Validate(j, env).after.password) && V.Valid(Validate(j, env).after.confirm)
    ensures V.Valid(OnSuccess(j, env).password) && V.Valid(OnSuccess(j, env).confirm)
  {
  }
}
