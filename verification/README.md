# Input validator: a Dafny model of the validation protocol

This project models the core of a small Android input-validation library. A
`Validator` is bound to one text field and checks the field's text. Three rule
strategies plug into it: e-mail, phone number and password. A
`ConfirmPasswordValidator` joins two password validators and adds an equality
check.

The Android parts are replaced by plain values:

- A validator is an immutable datatype. It holds the field's text, the field's
  parent chain, the error display, the trigger registrations, the
  configuration and the rule. Every operation returns the validator after it.
- The error display is two nullable error slots and a mode flag. One slot
  belongs to the field and one to the enclosing `TextInputLayout`; the flag
  picks the active one.
- Listener callbacks are an emitted trace of `OnSuccess` / `OnError(msg)`
  events. The confirm-password validator consumes the trace of its two
  validators.
- Localized strings (`Context.getString`), `Patterns.EMAIL_ADDRESS` and
  `Patterns.PHONE` are function-valued fields of an `Env` value. They are left
  uninterpreted: every property holds for every choice of them.
- Java `null` is `Option.None`. A call that throws returns a `Completion`:
  normal or abrupt, with the state the object is left in.

Modules, one per source component:

| file | module | models |
|---|---|---|
| wrappers.dfy | `Wrappers` | nullable values |
| text.dfy | `Text` | `TextUtils.isEmpty`, the password character classes, `.*[C].*` under `matches()` |
| platform.dfy | `Platform` | string resources, message lookup, e-mail and phone shape checks |
| error_display.dfy | `ErrorDisplay` | field/layout error slots, ancestor search, display-target switch |
| email_rule.dfy | `EmailRule` | `EmailValidator.onValidate` |
| phone_rule.dfy | `PhoneRule` | `PhoneNumberValidator.onValidate` |
| password_rule.dfy | `PasswordRule` | `PasswordValidator` rule fields, setters, `onValidate` |
| validator.dfy | `Validators` | `Validator` state machine, triggers, `PasswordValidator.clone` |
| confirm_password.dfy | `ConfirmPassword` | `ConfirmPasswordValidator` |

`validate()` is `Validators.Validate(v, v.text, env)`: it validates the field's
current text.

Where the library's documented intent and its code differ, the model follows
the code:

- Only the zero-length string is empty for the required check. Blank text is
  not empty.
- `clone` resets the required message to the localized default. A custom
  required message is not copied.
- `ConfirmPasswordValidator.validate()` does not clear anything itself when
  the texts match. The clearing comes from `onSuccess` (for non-empty texts)
  and from each inner validator's own display of its result.
- The password min-length check is skipped for a required field, as the code
  does.

The two exceptions are the findings below. The rest of the model uses the
corrected behaviour, and the code as written is modelled next to it.

## Model

| member | source | states |
|---|---|---|
| `Text.MatchesIff` | library/src/main/java/com/nextgeneration/PasswordValidator.java:38-76 | a pattern `.*[C].*` under `matches()` accepts exactly the text that holds a character of the class and no line terminator anywhere |
| `ErrorDisplay.SetError` | library/src/main/java/com/nextgeneration/Validator.java:228-234 | the active target shows the given error, whatever `showError` says; the inactive slot and the mode do not change |
| `ErrorDisplay.FindInputLayout` | library/src/main/java/com/nextgeneration/Validator.java:139-142 | the walk up the parents finds the first `TextInputLayout`; it finds none exactly when no parent is one |
| `ErrorDisplay.MoveToLayout` | library/src/main/java/com/nextgeneration/Validator.java:146-150 | entering layout mode moves a non-empty field error to the layout and clears the field; an empty one leaves both slots as they were |
| `ErrorDisplay.MoveToField` | library/src/main/java/com/nextgeneration/Validator.java:151-157 | leaving layout mode moves a non-empty layout error back to the field and clears the layout; otherwise both slots stay |
| `ErrorDisplay.SetLayoutMode` | library/src/main/java/com/nextgeneration/Validator.java:136-158 | corrected switch: it throws exactly when enabling with no layout ancestor, and then leaves the display unchanged; otherwise the mode becomes the requested one |
| `ErrorDisplay.SwitchTransfersShownError` | library/src/main/java/com/nextgeneration/Validator.java:147-155 | a switch keeps only the active target showing an error, and a non-empty shown error is still shown after it |
| `ErrorDisplay.LayoutRoundTrip` | library/src/main/java/com/nextgeneration/Validator.java:136-158 | enabling and then disabling layout mode hands a field error back to the field unchanged |
| `ErrorDisplay.SetLayoutModeAsWritten` | library/src/main/java/com/nextgeneration/Validator.java:136-158 | as written, the flag is assigned before the search: a failed enable throws with layout mode on and no layout held |
| `ErrorDisplay.SetErrorAsWritten` | library/src/main/java/com/nextgeneration/Validator.java:228-234 | as written, `setError` throws exactly when layout mode is on and no layout is held |
| `ErrorDisplay.AsWrittenAgreesWhenFound` | library/src/main/java/com/nextgeneration/Validator.java:136-158 | when a layout ancestor exists, the code as written and the corrected switch give the same display |
| `ErrorDisplay.FailedEnableBreaksSetError` | library/src/main/java/com/nextgeneration/Validator.java:137-146 | counterexample: after a failed enable the flag stays on, and the next `setError` throws `NullPointerException` |
| `EmailRule.OnValidate` | library/src/main/java/com/nextgeneration/EmailValidator.java:31-39 | empty text passes; otherwise there is an error exactly when the text is not an e-mail address; the message is the configured one, else the localized default |
| `PhoneRule.OnValidate` | library/src/main/java/com/nextgeneration/PhoneNumberValidator.java:30-38 | text of length 0 or 1 passes; otherwise there is an error exactly when the text is not a phone number; the message is the configured one, else the localized default |
| `PasswordRule.SetMinLength` | library/src/main/java/com/nextgeneration/PasswordValidator.java:29-31 | only the threshold changes; a configured message stays |
| `PasswordRule.SetMinLengthWithError` | library/src/main/java/com/nextgeneration/PasswordValidator.java:33-36 | threshold and message change together; nothing else changes |
| `PasswordRule.Require` | library/src/main/java/com/nextgeneration/PasswordValidator.java:38-46 | a message enables the check with its own class; null clears pattern and message together |
| `PasswordRule.SetHasUpperChar` | library/src/main/java/com/nextgeneration/PasswordValidator.java:38-46 | the upper-case check is on exactly when a message is given, carries that message, and no other field changes |
| `PasswordRule.SetHasLowerChar` | library/src/main/java/com/nextgeneration/PasswordValidator.java:48-56 | the same for the lower-case check |
| `PasswordRule.SetHasDigit` | library/src/main/java/com/nextgeneration/PasswordValidator.java:58-66 | the same for the digit check |
| `PasswordRule.SetHasSpecialChar` | library/src/main/java/com/nextgeneration/PasswordValidator.java:68-76 | the same for the special-character check |
| `PasswordRule.SettersKeepWellFormed` | library/src/main/java/com/nextgeneration/PasswordValidator.java:14-76 | fresh rules are well formed (each check on exactly when it has a message, with its own class) and every setter keeps them so |
| `PasswordRule.OnValidate` | library/src/main/java/com/nextgeneration/PasswordValidator.java:99-132 | no error exactly when no check fails; a field that is too short and not required reports the min-length message before anything else |
| `PasswordRule.FirstFailure` | library/src/main/java/com/nextgeneration/PasswordValidator.java:100-131 | reference reading of the rule: no error exactly when every check passes, else the message of a check that fails after only passing ones |
| `PasswordRule.FirstFailureReportsFirst` | library/src/main/java/com/nextgeneration/PasswordValidator.java:100-131 | whichever check fails first, its message is the one reported |
| `PasswordRule.OnValidateIsFirstFailure` | library/src/main/java/com/nextgeneration/PasswordValidator.java:100-131 | `onValidate` equals the short-circuit evaluation of the checks in the order min-length, upper, lower, digit, special |
| `PasswordRule.FirstFailingCheckReported` | library/src/main/java/com/nextgeneration/PasswordValidator.java:100-131 | the first failing check in that order names the error, whatever the later checks say |
| `PasswordRule.UpperReportedBeforeDigit` | library/src/main/java/com/nextgeneration/PasswordValidator.java:107-124 | text with neither an upper-case letter nor a digit reports the upper-case error |
| `PasswordRule.AcceptedPasswords` | library/src/main/java/com/nextgeneration/PasswordValidator.java:100-131 | accepted text is long enough unless the field is required; for each enabled check it holds a character of the class and no line terminator |
| `PasswordRule.FreshRulesAcceptAll` | library/src/main/java/com/nextgeneration/PasswordValidator.java:14-23 | with the default threshold 0 and no check enabled, the min-length check never fires and every text passes |
| `PasswordRule.ClassErrorsAreConfigured` | library/src/main/java/com/nextgeneration/PasswordValidator.java:107-130 | for well-formed rules, a character-class failure always reports the configured message; the localized default is unreachable |
| `Validators.New` | library/src/main/java/com/nextgeneration/Validator.java:20-32 | corrected constructor: default flags, the field's text and errors, and a focus-listener registration that matches `loseFocusValidate`; the invariant holds from the start when the layout shows no error |
| `Validators.NewAsWritten` | library/src/main/java/com/nextgeneration/Validator.java:23-32 | the constructor as written: `loseFocusValidate` is true but no focus listener is registered, so registrations and flags disagree from the start |
| `Validators.Validate` | library/src/main/java/com/nextgeneration/Validator.java:192-218 | required and empty fails with the required message before any rule; otherwise it passes exactly when the rule reports nothing; with `showError` the active target shows the result, without it the display is untouched; exactly one callback when a listener is set, agreeing with the verdict |
| `Validators.ValidateIdempotent` | library/src/main/java/com/nextgeneration/Validator.java:192-218 | validating the same text twice gives the same verdict, display and callbacks |
| `Validators.RequiredEmptyIgnoresRule` | library/src/main/java/com/nextgeneration/Validator.java:193-201 | for a required field and empty text, the outcome is the same whatever the rule |
| `Validators.VerdictIgnoresDisplay` | library/src/main/java/com/nextgeneration/Validator.java:192-218 | the verdict and the callbacks depend on neither the display nor `showError` |
| `Validators.SetError` | library/src/main/java/com/nextgeneration/Validator.java:228-234 | the active target shows the error whatever `showError` says; nothing but the display changes |
| `Validators.SetShowError` | library/src/main/java/com/nextgeneration/Validator.java:92-101 | turning it off clears the active target and changes no other flag or slot; turning it on changes nothing else |
| `Validators.HiddenErrorsStayCleared` | library/src/main/java/com/nextgeneration/Validator.java:92-101 | after turning `showError` off, validating leaves the display clear, and the verdict is the same as before |
| `Validators.SetRequired` | library/src/main/java/com/nextgeneration/Validator.java:122-125 | sets the required flag and message; nothing else changes |
| `Validators.SetRequiredDefault` | library/src/main/java/com/nextgeneration/Validator.java:112-114 | sets the required flag with the localized required-field message |
| `Validators.SetStopTypingValidate` | library/src/main/java/com/nextgeneration/Validator.java:56-63 | the flag and the text-watcher registration change together |
| `Validators.SetLoseFocusValidate` | library/src/main/java/com/nextgeneration/Validator.java:74-81 | the flag and the focus-listener registration change together |
| `Validators.SetValidateListener` | library/src/main/java/com/nextgeneration/Validator.java:43-45 | replaces the listener; nothing else changes |
| `Validators.SetTextInputLayoutValidate` | library/src/main/java/com/nextgeneration/Validator.java:136-158 | enabling with no layout ancestor throws and leaves the validator unchanged; otherwise only the display changes and the mode is the requested one |
| `Validators.LayoutSwitchKeepsShownError` | library/src/main/java/com/nextgeneration/Validator.java:147-155 | switching keeps the validator invariant and carries a non-empty shown error to the new target |
| `Validators.AfterTextChanged` | library/src/main/java/com/nextgeneration/Validator.java:167-176 | non-empty text or a required field is validated; empty optional text clears the error with no rule and no callback |
| `Validators.OnFocusChange` | library/src/main/java/com/nextgeneration/Validator.java:160-165 | losing focus validates; gaining focus changes nothing |
| `Validators.TextChanged` | library/src/main/java/com/nextgeneration/Validator.java:167-176 | an edit sets the field's text; apart from the display nothing else changes |
| `Validators.FocusChanged` | library/src/main/java/com/nextgeneration/Validator.java:160-165 | a focus change alters at most the display |
| `Validators.KeystrokeTrigger` | library/src/main/java/com/nextgeneration/Validator.java:167-176 | for a validator whose watcher registration follows its flag (focus registration aside): with the keystroke trigger off an edit only changes the text; on, non-empty or required text is validated, and empty optional text only clears the error |
| `Validators.FocusTrigger` | library/src/main/java/com/nextgeneration/Validator.java:160-165 | losing focus validates exactly when `loseFocusValidate` is set; gaining focus never does |
| `Validators.NewValidatesOnFocusLoss` | library/src/main/java/com/nextgeneration/Validator.java:23-32 | a validator from the corrected constructor validates when its field loses focus |
| `Validators.FreshValidatorIgnoresFocusLoss` | library/src/main/java/com/nextgeneration/Validator.java:23-32 | counterexample: as written, a required empty field reports `loseFocusValidate` on, yet losing focus shows no error |
| `Validators.ValidateKeepsValid` | library/src/main/java/com/nextgeneration/Validator.java:192-218 | `validate` keeps registrations equal to the trigger flags and only the active target showing an error, whatever the text |
| `Validators.SettersKeepValid` | library/src/main/java/com/nextgeneration/Validator.java:43-125 | every setter (`setError`, `setShowError`, both `setRequired`, `setValidateListener` with any listener, both trigger setters) keeps the invariant |
| `Validators.TriggersKeepValid` | library/src/main/java/com/nextgeneration/Validator.java:160-176 | an edit or a focus change, with whatever validation it triggers, keeps the invariant |
| `Validators.OptionalEmptyFieldPasses` | library/src/main/java/com/nextgeneration/Validator.java:192-218 | an optional e-mail or phone field with empty text passes, and clears the shown error when errors are shown |
| `Validators.EmailVerdict` | library/src/main/java/com/nextgeneration/EmailValidator.java:30-39 | an e-mail field passes exactly empty optional text and e-mail addresses |
| `Validators.PhoneVerdict` | library/src/main/java/com/nextgeneration/PhoneNumberValidator.java:29-38 | a phone field passes empty optional text, any single character, and longer phone numbers |
| `Validators.PasswordVerdict` | library/src/main/java/com/nextgeneration/PasswordValidator.java:99-132 | a password field passes exactly the text its rules accept, unless it is required and the text is empty; no length floor for a required field |
| `Validators.CloneBase` | library/src/main/java/com/nextgeneration/PasswordValidator.java:79-83 | the builder's state before the layout switch: a fresh password validator on the new field, with the copied trigger flags registered, `showError` and `required` copied, the default required message, no listener, and the field cleared when errors are hidden |
| `Validators.Clone` | library/src/main/java/com/nextgeneration/PasswordValidator.java:78-98 | the clone has the same rule fields, flags and listener, the new field's text and parents, and the default required message; it throws exactly when layout mode is on and the new field has no layout, leaving the half-built validator registered on the new field |
| `Validators.FailedCloneStillValidates` | library/src/main/java/com/nextgeneration/PasswordValidator.java:79-84 | after a clone throws, the half-built validator still validates its field on focus loss when the original did, and a required, empty field then shows the required message |
| `Validators.CloneIsValid` | library/src/main/java/com/nextgeneration/PasswordValidator.java:78-98 | the clone of a field whose layout shows no error keeps the invariant, whether it returns or throws: its registrations follow the copied flags and only its active target may show an error |
| `Validators.CloneJudgesAlike` | library/src/main/java/com/nextgeneration/PasswordValidator.java:78-98 | a clone gives every text the same verdict as the original, with the same callbacks except for the required message |
| `ConfirmPassword.New` | library/src/main/java/com/nextgeneration/ConfirmPasswordValidator.java:15-20 | both validators get the confirm validator as listener, replacing any previous one; nothing else changes |
| `ConfirmPassword.SetMismatchPasswordError` | library/src/main/java/com/nextgeneration/ConfirmPasswordValidator.java:33-35 | sets the mismatch message only |
| `ConfirmPassword.MismatchMessage` | library/src/main/java/com/nextgeneration/ConfirmPasswordValidator.java:37-43 | the configured message unless it is null or empty, else the localized default |
| `ConfirmPassword.SetError` | library/src/main/java/com/nextgeneration/ConfirmPasswordValidator.java:45-48 | both fields show the same error, whatever their `showError` flags say |
| `ConfirmPassword.SetErrorMismatch` | library/src/main/java/com/nextgeneration/ConfirmPasswordValidator.java:37-48 | both fields show the mismatch message |
| `ConfirmPassword.OnSuccess` | library/src/main/java/com/nextgeneration/ConfirmPasswordValidator.java:50-61 | with both texts non-empty it shows the mismatch on both if they differ and clears both if they match; with either empty nothing changes |
| `ConfirmPassword.OnError` | library/src/main/java/com/nextgeneration/ConfirmPasswordValidator.java:63-66 | has no effect |
| `ConfirmPassword.Route` | library/src/main/java/com/nextgeneration/ConfirmPasswordValidator.java:50-66 | the callback of an inner validator reaches `onSuccess` / `onError` only when this validator is its listener |
| `ConfirmPassword.ValidateOne` | library/src/main/java/com/nextgeneration/ConfirmPasswordValidator.java:23 | one inner `validate()` with its callback delivered: its verdict is the inner verdict, and equal non-empty texts end up clear on both fields |
| `ConfirmPassword.Validate` | library/src/main/java/com/nextgeneration/ConfirmPasswordValidator.java:22-31 | passes exactly when both validators pass and the texts are equal; when the first fails the second is not run; when both pass but the texts differ, both fields show the mismatch message |
| `ConfirmPassword.MatchClearsBoth` | library/src/main/java/com/nextgeneration/ConfirmPasswordValidator.java:22-31 | both pass on equal non-empty texts: `validate()` passes and both fields are clear |
| `ConfirmPassword.TextChanged` | library/src/main/java/com/nextgeneration/ConfirmPasswordValidator.java:50-61 | an edit of one field sets that field's text; apart from what the two fields display, nothing else changes |
| `ConfirmPassword.FocusChanged` | library/src/main/java/com/nextgeneration/ConfirmPasswordValidator.java:50-66 | a focus change alters at most what the fields display |
| `ConfirmPassword.TypingRechecksEquality` | library/src/main/java/com/nextgeneration/ConfirmPasswordValidator.java:50-61 | with its text watcher registered, typing an accepted, non-empty confirmation shows the mismatch on both fields when it differs from the password and clears both when it matches, with no explicit `validate()` |
| `ConfirmPassword.TypingPasswordRechecksEquality` | library/src/main/java/com/nextgeneration/ConfirmPasswordValidator.java:50-61 | with its text watcher registered, typing an accepted, non-empty password while the confirmation is non-empty shows the mismatch on both fields when they differ and clears both when they match |
| `ConfirmPassword.ValidateKeepsValid` | library/src/main/java/com/nextgeneration/ConfirmPasswordValidator.java:22-61 | `validate()` and `onSuccess` keep both inner validators' invariant |

## Left out

- `Validator.Builder`: it only forwards to the setters. `Validators.Clone` spells out the builder calls it makes.
- `SampleActivity` and its checkbox wiring: Android UI code with no logic of its own.
- Getters (`isRequired`, `getText`, `getErrorMessage`, ...): they are field reads of the datatypes.
- `EmailValidator.setErrorMessage` and `PhoneNumberValidator.setErrorMessage`: plain field assignments, modelled as updates of the `Rule` value.
- `beforeTextChanged` and `onTextChanged`: empty bodies.
- Registering a text watcher twice: `setStopTypingValidate(true)` called twice adds the watcher twice, so each keystroke would validate twice. The model keeps one boolean registration.
- `setOnFocusChangeListener(null)` also drops focus listeners other than the validator. Other listeners are not modelled.
- The framework's own clearing on an edit: Android's `TextView` removes the field's error when the user edits it, unless a watcher sets one during that edit. The model leaves the field slot alone on an edit that runs no watcher.
- Widget internals of `TextView.setError` and `TextInputLayout.setError` (icons, popups, hiding an empty error): the slots store the value as given.
- Only the first `TextInputLayout` in the parent chain has an error slot. Layouts further up are never reached by the code.
- Localization: `Context.getString` is an uninterpreted function of resource key and format arguments.
- `Patterns.EMAIL_ADDRESS` and `Patterns.PHONE` are uninterpreted predicates. Their regular expressions are Android-internal.
- String length: text is a sequence of Unicode scalar values. Java's `length()` counts UTF-16 code units, so a character outside the Basic Multilingual Plane counts 2 in Java and 1 here. This affects the phone length guard and the password minimum length.
- Callbacks to an application listener are returned as an event trace. Nothing consumes them here.
- `Validators.Clone`: does not state the clone's displayed errors beyond the mode flag. These follow from the builder calls in its body: `setShowError(false)` clears the new field, and the layout switch moves a non-empty field error.
- `Validators.TextChanged`: its own contract only says what an edit leaves alone. The trigger rule in terms of the flags is `Validators.KeystrokeTrigger`.
- `Validators.FocusChanged`: likewise. The trigger rule is `Validators.FocusTrigger`.
- `ConfirmPassword.TextChanged`: its own contract frames the edit. The reactive equality check it performs is stated by `ConfirmPassword.TypingRechecksEquality` and `ConfirmPassword.TypingPasswordRechecksEquality`.
- Listener identity: `ConfirmListener` is a tag, not a reference. By convention it means the confirm-password validator of the pair that holds the validator. In Java, a second `ConfirmPasswordValidator` built on the same two validators takes over their callbacks, and the first one no longer hears them. That takeover is not modelled.
- `validate(null)`: the text argument is a string, never null. In Java a required field given null fails with the required message (`Validator.java:193`). An optional one throws `NullPointerException` at `length()` in the rule (`EmailValidator.java:32`, `PhoneNumberValidator.java:31`, `PasswordValidator.java:101`).

## Findings

| source | as written | input that shows it | evidently intended | confidence | as-written member | corrected member |
|---|---|---|---|---|---|---|
| library/src/main/java/com/nextgeneration/Validator.java:23-32 | `loseFocusValidate` is initialised to true, but the constructor never registers the validator as the field's focus listener. Only a later `setLoseFocusValidate(true)` does. | A fresh validator, made required, on a field with empty text that loses focus: `isLoseFocusValidate()` is true, yet no validation runs and no error appears. | A new validator validates on focus loss, as its flag says. `clone` already gets this by calling `setLoseFocusValidate`. | medium, not executed | `Validators.FreshValidatorIgnoresFocusLoss` | `Validators.NewValidatesOnFocusLoss` |
| library/src/main/java/com/nextgeneration/Validator.java:136-146 | `textInputLayoutValidate` is assigned before the ancestor search. When the search fails it throws, and the flag stays true while `textInputLayout` stays null. | Enable layout mode on a field whose only parent is not a `TextInputLayout`, catch the exception, then call `validate()` with `showError` on: `setError` dereferences null. | A failed enable leaves the previous display target in force. | medium, not executed | `ErrorDisplay.FailedEnableBreaksSetError` | `Validators.SetTextInputLayoutValidate` |
