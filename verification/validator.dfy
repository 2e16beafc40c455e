/** The validation protocol shared by every field type: the required-field
    check, the rule hook, the error display, the listener callback, the
    keystroke and focus triggers, and the display-target switch. A validator
    is an immutable value; each operation returns the validator after it. */
module Validators {
  import opened Wrappers
  import opened Text
  import opened Platform
  import D = ErrorDisplay
  import EmailRule
  import PhoneRule
  import PasswordRule

  /** The rule hook `onValidate`, one variant per validator subclass. */
  datatype Rule =
    | Email(emailError: Option<string>)
    | Phone(phoneError: Option<string>)
    | Password(password: PasswordRule.PasswordRules)

  /** The `ValidateListener` reference: none, one supplied by the application,
      or a confirm-password validator. */
  datatype ListenerRef = NoListener | AppListener | ConfirmListener

  /** One listener callback. The message of `onError` may be null: a field
      made required with a null message reports a null error. */
  datatype Event = OnSuccess | OnError(message: Option<string>)

  /** The configuration flags of a `Validator`. */
  datatype Config = Config(
    stopTypingValidate: bool,
    loseFocusValidate: bool,
    showError: bool,
    required: bool,
    requiredErrorText: Option<string>,
    listener: ListenerRef)

  /** A validator with its field: the field's text and parent chain, the error
      display, whether this validator is registered as the field's text
      watcher and focus listener, the configuration and the rule. */
  datatype Validator = Validator(
    text: string,
    ancestors: seq<D.Ancestor>,
    display: D.Display,
    textWatcher: bool,
    focusListener: bool,
    config: Config,
    rule: Rule)

  /** A text field before a validator is bound to it. */
  datatype Field = Field(text: string, fieldError: Option<string>, layoutError: Option<string>, ancestors: seq<D.Ancestor>)

  /** What `validate(text)` returns, the validator after it, and the callbacks it fired. */
  datatype Outcome = Outcome(passed: bool, after: Validator, events: seq<Event>)

  /** The validator after a UI event, and the callbacks it fired. */
  datatype Step = Step(after: Validator, events: seq<Event>)

  /** The field initialisers of `Validator`. */
  const DefaultConfig := Config(false, true, true, false, None, NoListener)

  /** The registrations agree with the trigger flags. */
  predicate Synced(v: Validator)
  {
    v.textWatcher == v.config.stopTypingValidate && v.focusListener == v.config.loseFocusValidate
  }

  /** The invariant every operation keeps: registrations follow the flags and
      only the active display target shows an error. */
  predicate Valid(v: Validator)
  {
    Synced(v) && D.SingleTarget(v.display)
  }

  /** Two validators that differ at most in what they display. */
  predicate SameButDisplay(a: Validator, b: Validator)
  {
    b == a.(display := b.display)
  }

  /** A validator bound to `f`, with the default configuration and registered
      as focus listener, as `loseFocusValidate = true` announces. */
  function New(f: Field, rule: Rule): (v: Validator)
    ensures v.config == DefaultConfig && v.rule == rule
    ensures v.text == f.text && v.ancestors == f.ancestors
    ensures v.display == D.Display(f.fieldError, f.layoutError, false)
    ensures Synced(v)
    ensures IsEmpty(f.layoutError) ==> Valid(v)
  {
    Validator(f.text, f.ancestors, D.Display(f.fieldError, f.layoutError, false), false, true, DefaultConfig, rule)
  }

  /** The constructor as written: the focus listener is never registered,
      although `loseFocusValidate` starts out true. */
  function NewAsWritten(f: Field, rule: Rule): (v: Validator)
    ensures v.config == DefaultConfig && v.config.loseFocusValidate
    ensures !v.focusListener
    ensures v == New(f, rule).(focusListener := false)
    ensures !Synced(v)
  {
    Validator(f.text, f.ancestors, D.Display(f.fieldError, f.layoutError, false), false, false, DefaultConfig, rule)
  }

  /** `onValidate(text, context)`, dispatched on the rule. */
  function OnValidate(v: Validator, text: string, env: Env): Option<string>
  {
    match v.rule
    case Email(e) => EmailRule.OnValidate(e, text, env)
    case Phone(e) => PhoneRule.OnValidate(e, text, env)
    case Password(p) => PasswordRule.OnValidate(p, v.config.required, text, env)
  }

  /** The callbacks a listener reference receives for one event. */
  function Notify(l: ListenerRef, e: Event): (r: seq<Event>)
    ensures l.NoListener? ==> r == []
    ensures !l.NoListener? ==> r == [e]
  {
    if l.NoListener? then [] else [e]
  }

  /** The display after showing `e`, when errors are shown at all. */
  function ShowIfEnabled(v: Validator, e: Option<string>): D.Display
  {
    if v.config.showError then D.SetError(v.display, e) else v.display
  }

  /** `validate(String)`. */
  function Validate(v: Validator, text: string, env: Env): (o: Outcome)
    // only the display can change, and only when errors are shown
    ensures SameButDisplay(v, o.after)
    ensures !v.config.showError ==> o.after.display == v.display
    ensures o.after.display.layoutMode == v.display.layoutMode
    ensures D.Hidden(o.after.display) == D.Hidden(v.display)
    // a required field with empty text fails before the rule is consulted
    ensures v.config.required && |text| == 0 ==>
      && !o.passed
      && o.events == Notify(v.config.listener, OnError(v.config.requiredErrorText))
      && (v.config.showError ==> D.Shown(o.after.display) == v.config.requiredErrorText)
    // otherwise the rule decides, and its result is what is shown
    ensures !(v.config.required && |text| == 0) ==>
      && (o.passed <==> OnValidate(v, text, env).None?)
      && (v.config.showError ==> D.Shown(o.after.display) == OnValidate(v, text, env))
      && (!o.passed ==> o.events == Notify(v.config.listener, OnError(OnValidate(v, text, env))))
    // exactly one callback per call when a listener is set, and it agrees with the verdict
    ensures |o.events| == if v.config.listener.NoListener? then 0 else 1
    ensures forall e :: e in o.events ==> (e.OnSuccess? <==> o.passed)
  {
    if v.config.required && |text| == 0 then
      Outcome(false, v.(display := ShowIfEnabled(v, v.config.requiredErrorText)),
              Notify(v.config.listener, OnError(v.config.requiredErrorText)))
    else
      var error := OnValidate(v, text, env);
      var after := v.(display := ShowIfEnabled(v, error));
      if error.Some? then Outcome(false, after, Notify(v.config.listener, OnError(error)))
      else Outcome(true, after, Notify(v.config.listener, OnSuccess))
  }

  /** The callbacks and validator of a `validate` call, as a UI step. */
  function StepOf(o: Outcome): Step
  {
    Step(o.after, o.events)
  }

  /** Validating the same text twice gives the same verdict, the same display
      and the same callbacks: the second call finds nothing to change. */
  lemma ValidateIdempotent(v: Validator, text: string, env: Env)
    ensures var o1 := Validate(v, text, env);
            var o2 := Validate(o1.after, text, env);
            o2.passed == o1.passed && o2.after == o1.after && o2.events == o1.events
  {
    var o1 := Validate(v, text, env);
    assert o1.after.config == v.config && o1.after.rule == v.rule;
    if v.config.showError {
      assert D.SetError(o1.after.display, D.Shown(o1.after.display)) == o1.after.display;
    }
  }

  /** Required and empty: the outcome is the same whatever the rule. */
  lemma RequiredEmptyIgnoresRule(v: Validator, rule: Rule, env: Env)
    requires v.config.required
    ensures var o := Validate(v, "", env);
            var o' := Validate(v.(rule := rule), "", env);
            o'.passed == o.passed && o'.events == o.events && o'.after.display == o.after.display
  {
  }

  /** The verdict and the callbacks depend on neither the display nor the
      `showError` flag. */
  lemma VerdictIgnoresDisplay(v: Validator, d: D.Display, show: bool, text: string, env: Env)
    ensures var o := Validate(v, text, env);
            var o' := Validate(v.(display := d, config := v.config.(showError := show)), text, env);
            o'.passed == o.passed && o'.events == o.events
  {
  }

  /** `setError`: the active target shows `e`, whatever `showError` says. */
  function SetError(v: Validator, e: Option<string>): (r: Validator)
    ensures SameButDisplay(v, r)
    ensures D.Shown(r.display) == e
    ensures D.Hidden(r.display) == D.Hidden(v.display) && r.display.layoutMode == v.display.layoutMode
  {
    v.(display := D.SetError(v.display, e))
  }

  /** `setShowError`: turning it off clears the active target at once; no
      other flag and no other slot changes. */
  function SetShowError(v: Validator, show: bool): (r: Validator)
    ensures r.config == v.config.(showError := show)
    ensures r == v.(config := r.config, display := r.display)
    ensures show ==> r.display == v.display
    ensures !show ==> D.Shown(r.display) == None
    ensures D.Hidden(r.display) == D.Hidden(v.display) && r.display.layoutMode == v.display.layoutMode
  {
    var v' := v.(config := v.config.(showError := show));
    if show then v' else v'.(display := D.SetError(v.display, None))
  }

  /** With errors hidden, validating leaves the cleared display cleared, and
      the verdict is the one the validator gave with errors shown. */
  lemma HiddenErrorsStayCleared(v: Validator, text: string, env: Env)
    ensures var h := SetShowError(v, false);
            var o := Validate(h, text, env);
            D.Shown(o.after.display) == None && o.passed == Validate(v, text, env).passed
  {
    VerdictIgnoresDisplay(v, SetShowError(v, false).display, false, text, env);
  }

  /** `setRequired(boolean, String)`. */
  function SetRequired(v: Validator, required: bool, message: Option<string>): (r: Validator)
    ensures r.config == v.config.(required := required, requiredErrorText := message)
    ensures r == v.(config := r.config)
  {
    v.(config := v.config.(required := required, requiredErrorText := message))
  }

  /** `setRequired(boolean)`: the localized "required field" message. */
  function SetRequiredDefault(v: Validator, required: bool, env: Env): (r: Validator)
    ensures r.config.required == required
    ensures r.config.requiredErrorText == Some(env.getString(RequiredField, []))
    ensures r == v.(config := r.config)
  {
    SetRequired(v, required, Some(env.getString(RequiredField, [])))
  }

  /** `setStopTypingValidate`: the flag and the text-watcher registration together. */
  function SetStopTypingValidate(v: Validator, on: bool): (r: Validator)
    ensures r.config == v.config.(stopTypingValidate := on)
    ensures r.textWatcher == on
    ensures r == v.(config := r.config, textWatcher := on)
  {
    v.(config := v.config.(stopTypingValidate := on), textWatcher := on)
  }

  /** `setLoseFocusValidate`: the flag and the focus-listener registration together. */
  function SetLoseFocusValidate(v: Validator, on: bool): (r: Validator)
    ensures r.config == v.config.(loseFocusValidate := on)
    ensures r.focusListener == on
    ensures r == v.(config := r.config, focusListener := on)
  {
    v.(config := v.config.(loseFocusValidate := on), focusListener := on)
  }

  /** `setValidateListener`. */
  function SetValidateListener(v: Validator, l: ListenerRef): (r: Validator)
    ensures r.config == v.config.(listener := l)
    ensures r == v.(config := r.config)
  {
    v.(config := v.config.(listener := l))
  }

  /** `setTextInputLayoutValidate`: throws when turning it on for a field with
      no `TextInputLayout` ancestor, leaving the validator as it was; otherwise
      switches the target, carrying a non-empty shown error across. */
  function SetTextInputLayoutValidate(v: Validator, on: bool): (c: D.Completion<Validator>)
    ensures c.Abrupt? <==> on && forall k :: 0 <= k < |v.ancestors| ==> v.ancestors[k] != D.InputLayout
    ensures c.Abrupt? ==> c.state == v && c.fault == D.NoInputLayout
    ensures c.Normal? ==> SameButDisplay(v, c.state) && c.state.display.layoutMode == on
  {
    match D.SetLayoutMode(v.display, v.ancestors, on)
    case Abrupt(_, fault) => D.Abrupt(v, fault)
    case Normal(d) => D.Normal(v.(display := d))
  }

  /** Switching the target of a valid validator carries a non-empty shown
      error across and never leaves one on the inactive target. */
  lemma LayoutSwitchKeepsShownError(v: Validator, on: bool)
    requires Valid(v)
    requires SetTextInputLayoutValidate(v, on).Normal?
    ensures var w := SetTextInputLayoutValidate(v, on).state;
      && Valid(w)
      && (!IsEmpty(D.Shown(v.display)) ==> D.Shown(w.display) == D.Shown(v.display))
      && (IsEmpty(D.Shown(v.display)) ==> IsEmpty(D.Shown(w.display)))
  {
    D.SwitchTransfersShownError(v.display, v.ancestors, on);
  }

  /** `afterTextChanged`: non-empty text, or a required field, is validated;
      empty text on an optional field only clears the error, with no rule and
      no callback. */
  function AfterTextChanged(v: Validator, env: Env): (s: Step)
    ensures |v.text| > 0 || v.config.required ==> s == StepOf(Validate(v, v.text, env))
    ensures |v.text| == 0 && !v.config.required ==>
      s.events == [] && s.after == SetError(v, None) && D.Shown(s.after.display) == None
  {
    if |v.text| > 0 then StepOf(Validate(v, v.text, env))
    else if v.config.required then StepOf(Validate(v, v.text, env))
    else Step(SetError(v, None), [])
  }

  /** `onFocusChange`: losing focus validates, gaining it does nothing. */
  function OnFocusChange(v: Validator, hasFocus: bool, env: Env): (s: Step)
    ensures hasFocus ==> s == Step(v, [])
    ensures !hasFocus ==> s == StepOf(Validate(v, v.text, env))
  {
    if !hasFocus then StepOf(Validate(v, v.text, env)) else Step(v, [])
  }

  /** The user edits the field to `newText`; the watcher runs if registered. */
  function TextChanged(v: Validator, newText: string, env: Env): (s: Step)
    ensures s.after.text == newText
    ensures SameButDisplay(v.(text := newText), s.after)
  {
    var v' := v.(text := newText);
    if v.textWatcher then AfterTextChanged(v', env) else Step(v', [])
  }

  /** The field gains or loses focus; the focus listener runs if registered. */
  function FocusChanged(v: Validator, hasFocus: bool, env: Env): (s: Step)
    ensures SameButDisplay(v, s.after)
  {
    if v.focusListener then OnFocusChange(v, hasFocus, env) else Step(v, [])
  }

  /** The keystroke trigger in terms of the configuration: with the trigger off
      an edit only changes the text; with it on, non-empty text or a required
      field is validated, and empty optional text clears the error. */
  lemma KeystrokeTrigger(v: Validator, newText: string, env: Env)
    requires v.textWatcher == v.config.stopTypingValidate
    ensures var s := TextChanged(v, newText, env);
      && (!v.config.stopTypingValidate ==> s == Step(v.(text := newText), []))
      && (v.config.stopTypingValidate && (|newText| > 0 || v.config.required) ==>
            s == StepOf(Validate(v.(text := newText), newText, env)))
      && (v.config.stopTypingValidate && |newText| == 0 && !v.config.required ==>
            s.events == [] && D.Shown(s.after.display) == None)
  {
  }

  /** The focus trigger in terms of the configuration: losing focus validates
      exactly when `loseFocusValidate` is set; gaining focus never does. */
  lemma FocusTrigger(v: Validator, hasFocus: bool, env: Env)
    requires Synced(v)
    ensures var s := FocusChanged(v, hasFocus, env);
      && (v.config.loseFocusValidate && !hasFocus ==> s == StepOf(Validate(v, v.text, env)))
      && (!v.config.loseFocusValidate || hasFocus ==> s == Step(v, []))
  {
  }

  /** A validator made with the corrected constructor validates when its field
      loses focus. */
  lemma NewValidatesOnFocusLoss(f: Field, rule: Rule, env: Env)
    ensures FocusChanged(New(f, rule), false, env) == StepOf(Validate(New(f, rule), f.text, env))
  {
    FocusTrigger(New(f, rule), false, env);
  }

  /** Counterexample: the constructor as written reports `loseFocusValidate`
      as on, yet a required, empty field that loses focus is not validated:
      no error appears, although `validate` would show the required message. */
  lemma FreshValidatorIgnoresFocusLoss(env: Env)
    ensures var f := Field("", None, None, []);
            var v := SetRequired(NewAsWritten(f, Email(None)), true, Some("Required"));
            && v.config.loseFocusValidate
            && FocusChanged(v, false, env) == Step(v, [])
            && D.Shown(v.display) == None
            && D.Shown(Validate(v, v.text, env).after.display) == Some("Required")
  {
  }

  /** `validate` keeps the invariant `Valid`, whatever text it is given. */
  lemma ValidateKeepsValid(v: Validator, text: string, env: Env)
    requires Valid(v)
    ensures Valid(Validate(v, text, env).after)
  {
  }

  /** Every setter keeps the invariant `Valid`: the trigger setters move flag
      and registration together, and the display setters write only the
      active target. */
  lemma SettersKeepValid(v: Validator, e: Option<string>, b: bool, l: ListenerRef, env: Env)
    requires Valid(v)
    ensures Valid(SetError(v, e)) && Valid(SetShowError(v, b))
    ensures Valid(SetRequired(v, b, e)) && Valid(SetRequiredDefault(v, b, env))
    ensures Valid(SetValidateListener(v, l))
    ensures Valid(SetStopTypingValidate(v, b)) && Valid(SetLoseFocusValidate(v, b))
  {
  }

  /** Edits and focus changes keep the invariant `Valid`. */
  lemma TriggersKeepValid(v: Validator, text: string, hasFocus: bool, env: Env)
    requires Valid(v)
    ensures Valid(TextChanged(v, text, env).after)
    ensures Valid(FocusChanged(v, hasFocus, env).after)
  {
    var v' := v.(text := text);
    assert Valid(v');
    assert Valid(AfterTextChanged(v', env).after);
  }

  /** An optional e-mail or phone field with empty text passes and, when
      errors are shown, clears the displayed error. */
  lemma OptionalEmptyFieldPasses(v: Validator, env: Env)
    requires !v.config.required && (v.rule.Email? || v.rule.Phone?)
    ensures Validate(v, "", env).passed
    ensures v.config.showError ==> D.Shown(Validate(v, "", env).after.display) == None
  {
  }

  /** An e-mail field passes exactly empty optional text and e-mail addresses. */
  lemma EmailVerdict(v: Validator, text: string, env: Env)
    requires v.rule.Email?
    ensures Validate(v, text, env).passed <==>
      (|text| == 0 && !v.config.required) || (|text| > 0 && env.isEmailAddress(text))
  {
  }

  /** A phone field passes empty optional text, any single character, and
      longer text shaped like a phone number. */
  lemma PhoneVerdict(v: Validator, text: string, env: Env)
    requires v.rule.Phone?
    ensures Validate(v, text, env).passed <==>
      || (|text| == 0 && !v.config.required)
      || |text| == 1
      || (|text| > 1 && env.isPhone(text))
  {
  }

  /** A password field passes exactly the text its rules accept, unless it is
      required and the text is empty; the min-length floor does not apply to
      a required field. */
  lemma PasswordVerdict(v: Validator, text: string, env: Env)
    requires v.rule.Password? && PasswordRule.WellFormed(v.rule.password)
    ensures var p := v.rule.password;
      Validate(v, text, env).passed <==>
      && !(v.config.required && |text| == 0)
      && (v.config.required || |text| >= p.minLength)
      && (p.upper.pattern.Some? ==> DotStar(text) && Contains(Upper, text))
      && (p.lower.pattern.Some? ==> DotStar(text) && Contains(Lower, text))
      && (p.digit.pattern.Some? ==> DotStar(text) && Contains(Digit, text))
      && (p.special.pattern.Some? ==> DotStar(text) && Contains(Special, text))
  {
    PasswordRule.AcceptedPasswords(v.rule.password, v.config.required, text, env);
  }

  /** The validator the builder of `PasswordValidator.clone(textView)` has
      made on `f` when it reaches `setTextInputLayoutValidate`: a fresh
      password validator given this validator's trigger flags, `showError`
      and `required` with the localized default message. */
  function CloneBase(v: Validator, f: Field, env: Env): (w: Validator)
    ensures w.rule == Password(PasswordRule.Fresh)
    ensures w.text == f.text && w.ancestors == f.ancestors
    ensures w.config == v.config.(requiredErrorText := Some(env.getString(RequiredField, [])), listener := NoListener)
    ensures Synced(w) && !w.display.layoutMode
    ensures !v.config.showError ==> w.display.fieldError == None
  {
    var w := New(f, Password(PasswordRule.Fresh));
    var w := SetLoseFocusValidate(w, v.config.loseFocusValidate);
    var w := SetStopTypingValidate(w, v.config.stopTypingValidate);
    var w := SetShowError(w, v.config.showError);
    SetRequiredDefault(w, v.config.required, env)
  }

  /** `PasswordValidator.clone(textView)`: a fresh validator on `f` built
      through the builder with this validator's flags, then given its ten rule
      fields. The required message is the localized default, not a custom one.
      The clone throws when layout mode is on and `f` has no layout; the
      half-built validator is then left on `f`, registered as its text watcher
      and focus listener as the copied flags say, still validating it. */
  function Clone(v: Validator, f: Field, env: Env): (c: D.Completion<Validator>)
    requires v.rule.Password?
    ensures c.Abrupt? <==> v.display.layoutMode && forall k :: 0 <= k < |f.ancestors| ==> f.ancestors[k] != D.InputLayout
    ensures c.Abrupt? ==>
      && c.fault == D.NoInputLayout
      && c.state.rule == Password(PasswordRule.Fresh)
      && c.state.config == v.config.(requiredErrorText := Some(env.getString(RequiredField, [])), listener := NoListener)
      && Synced(c.state)
      && (!v.config.showError ==> c.state.display.fieldError == None)
    ensures c.Normal? ==>
      && c.state.rule == v.rule
      && c.state.text == f.text && c.state.ancestors == f.ancestors
      && c.state.config == v.config.(requiredErrorText := Some(env.getString(RequiredField, [])))
      && c.state.display.layoutMode == v.display.layoutMode
      && Synced(c.state)
  {
    match SetTextInputLayoutValidate(CloneBase(v, f, env), v.display.layoutMode)
    case Abrupt(w, fault) => D.Abrupt(w, fault)
    case Normal(w) =>
      var w := SetValidateListener(w, v.config.listener);
      D.Normal(w.(rule := v.rule))
  }

  /** A clone that throws still validates its field on focus loss when the
      original did: with `required` copied, an empty field that loses focus
      shows the required message. */
  lemma FailedCloneStillValidates(v: Validator, f: Field, env: Env)
    requires v.rule.Password?
    requires Clone(v, f, env).Abrupt? && v.config.loseFocusValidate
    ensures var w := Clone(v, f, env).state;
      FocusChanged(w, false, env) == StepOf(Validate(w, f.text, env))
    ensures var w := Clone(v, f, env).state;
      v.config.required && |f.text| == 0 && v.config.showError ==>
        D.Shown(FocusChanged(w, false, env).after.display) == Some(env.getString(RequiredField, []))
  {
    FocusTrigger(Clone(v, f, env).state, false, env);
  }

  /** A clone of a field whose layout shows no error is valid, whether it
      returns or throws: registrations follow the copied flags, and only the
      active target may show an error. */
  lemma CloneIsValid(v: Validator, f: Field, env: Env)
    requires v.rule.Password?
    requires IsEmpty(f.layoutError)
    ensures Valid(Clone(v, f, env).state)
  {
    var w0 := New(f, Password(PasswordRule.Fresh));
    var w1 := SetLoseFocusValidate(w0, v.config.loseFocusValidate);
    var w2 := SetStopTypingValidate(w1, v.config.stopTypingValidate);
    var w3 := SetShowError(w2, v.config.showError);
    var w4 := SetRequiredDefault(w3, v.config.required, env);
    assert w4 == CloneBase(v, f, env);
    SettersKeepValid(w0, None, v.config.loseFocusValidate, v.config.listener, env);
    SettersKeepValid(w1, None, v.config.stopTypingValidate, v.config.listener, env);
    SettersKeepValid(w2, None, v.config.showError, v.config.listener, env);
    SettersKeepValid(w3, None, v.config.required, v.config.listener, env);
    if SetTextInputLayoutValidate(w4, v.display.layoutMode).Normal? {
      LayoutSwitchKeepsShownError(w4, v.display.layoutMode);
      SettersKeepValid(SetTextInputLayoutValidate(w4, v.display.layoutMode).state, None, false, v.config.listener, env);
    }
  }

  /** A clone judges every text as the original does and fires the same
      callbacks, except that a required, empty clone reports the default
      required message. */
  lemma CloneJudgesAlike(v: Validator, f: Field, text: string, env: Env)
    requires v.rule.Password?
    requires Clone(v, f, env).Normal?
    ensures Validate(Clone(v, f, env).state, text, env).passed == Validate(v, text, env).passed
    ensures !(v.config.required && |text| == 0) ==>
      Validate(Clone(v, f, env).state, text, env).events == Validate(v, text, env).events
  {
  }
}
