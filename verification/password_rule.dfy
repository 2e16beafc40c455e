/** The rule of `PasswordValidator`: a minimum length and four optional
    character-class checks, tried in a fixed order, the first failing one
    naming the error. */
module PasswordRule {
  import opened Wrappers
  import opened Text
  import opened Platform

  /** One optional character-class check: the compiled `.*[C].*` pattern (null
      when the check is off) and its configured message. */
  datatype ClassCheck = ClassCheck(pattern: Option<CharClass>, error: Option<string>)

  /** The ten rule fields of a `PasswordValidator`. */
  datatype PasswordRules = PasswordRules(
    minLength: int,
    minLengthError: Option<string>,
    upper: ClassCheck,
    lower: ClassCheck,
    digit: ClassCheck,
    special: ClassCheck)

  /** A check that was never enabled. */
  const Off := ClassCheck(None, None)

  /** The rules of a freshly constructed `PasswordValidator`. */
  const Fresh := PasswordRules(0, None, Off, Off, Off, Off)

  /** `setMinLength(int)`: the threshold changes, a configured message stays. */
  function SetMinLength(p: PasswordRules, minLength: int): (r: PasswordRules)
    ensures r.minLength == minLength
    ensures r.(minLength := p.minLength) == p
  {
    p.(minLength := minLength)
  }

  /** `setMinLength(int, String)`: threshold and message together; a null
      message drops a configured one. */
  function SetMinLengthWithError(p: PasswordRules, minLength: int, error: Option<string>): (r: PasswordRules)
    ensures r.minLength == minLength && r.minLengthError == error
    ensures r.(minLength := p.minLength, minLengthError := p.minLengthError) == p
  {
    p.(minLength := minLength, minLengthError := error)
  }

  /** The body shared by the four `setHasX(msg)` setters: a message enables the
      check with its fixed pattern, null disables pattern and message alike. */
  function Require(cls: CharClass, msg: Option<string>): (c: ClassCheck)
    ensures c.error == msg
    ensures c.pattern.Some? <==> msg.Some?
    ensures c.pattern.Some? ==> c.pattern.value == cls
  {
    if msg.Some? then ClassCheck(Some(cls), msg) else Off
  }

  /** `setHasUpperChar`. */
  function SetHasUpperChar(p: PasswordRules, msg: Option<string>): (r: PasswordRules)
    ensures r.upper.error == msg && (r.upper.pattern.Some? <==> msg.Some?)
    ensures r.(upper := p.upper) == p
  {
    p.(upper := Require(Upper, msg))
  }

  /** `setHasLowerChar`. */
  function SetHasLowerChar(p: PasswordRules, msg: Option<string>): (r: PasswordRules)
    ensures r.lower.error == msg && (r.lower.pattern.Some? <==> msg.Some?)
    ensures r.(lower := p.lower) == p
  {
    p.(lower := Require(Lower, msg))
  }

  /** `setHasDigit`. */
  function SetHasDigit(p: PasswordRules, msg: Option<string>): (r: PasswordRules)
    ensures r.digit.error == msg && (r.digit.pattern.Some? <==> msg.Some?)
    ensures r.(digit := p.digit) == p
  {
    p.(digit := Require(Digit, msg))
  }

  /** `setHasSpecialChar`. */
  function SetHasSpecialChar(p: PasswordRules, msg: Option<string>): (r: PasswordRules)
    ensures r.special.error == msg && (r.special.pattern.Some? <==> msg.Some?)
    ensures r.(special := p.special) == p
  {
    p.(special := Require(Special, msg))
  }

  /** A check is on exactly when it has a message, and then uses its own class. */
  predicate WellFormedCheck(c: ClassCheck, cls: CharClass)
  {
    (c.pattern.Some? <==> c.error.Some?) && (c.pattern.Some? ==> c.pattern.value == cls)
  }

  /** The setters' invariant over all four checks. */
  predicate WellFormed(p: PasswordRules)
  {
    && WellFormedCheck(p.upper, Upper)
    && WellFormedCheck(p.lower, Lower)
    && WellFormedCheck(p.digit, Digit)
    && WellFormedCheck(p.special, Special)
  }

  /** Fresh rules are well formed and every setter keeps them so. */
  lemma SettersKeepWellFormed(p: PasswordRules, n: int, e: Option<string>, msg: Option<string>)
    requires WellFormed(p)
    ensures WellFormed(Fresh)
    ensures WellFormed(SetMinLength(p, n)) && WellFormed(SetMinLengthWithError(p, n, e))
    ensures WellFormed(SetHasUpperChar(p, msg)) && WellFormed(SetHasLowerChar(p, msg))
    ensures WellFormed(SetHasDigit(p, msg)) && WellFormed(SetHasSpecialChar(p, msg))
  {
  }

  /** The min-length check fires only for a field that is not required. */
  predicate TooShort(p: PasswordRules, required: bool, text: string)
  {
    !required && |text| < p.minLength
  }

  /** The min-length message, with the threshold interpolated in the default. */
  function TooShortMessage(p: PasswordRules, env: Env): string
  {
    p.minLengthError.GetOr(env.getString(PasswordTooShort, [p.minLength]))
  }

  /** An enabled check whose pattern does not match. */
  predicate ClassFails(c: ClassCheck, text: string)
  {
    c.pattern.Some? && !Matches(c.pattern.value, text)
  }

  /** The configured message of a check, or the localized default. */
  function ClassMessage(c: ClassCheck, key: MessageKey, env: Env): string
  {
    c.error.GetOr(env.getString(key, []))
  }

  /** `PasswordValidator.onValidate`, `required` being `isRequired()`. */
  function OnValidate(p: PasswordRules, required: bool, text: string, env: Env): (r: Option<string>)
    ensures r.None? <==>
      && !TooShort(p, required, text)
      && !ClassFails(p.upper, text) && !ClassFails(p.lower, text)
      && !ClassFails(p.digit, text) && !ClassFails(p.special, text)
    ensures TooShort(p, required, text) ==> r == Some(TooShortMessage(p, env))
  {
    if TooShort(p, required, text) then Some(TooShortMessage(p, env))
    else if ClassFails(p.upper, text) then Some(ClassMessage(p.upper, PasswordNeedsUpper, env))
    else if ClassFails(p.lower, text) then Some(ClassMessage(p.lower, PasswordNeedsLower, env))
    else if ClassFails(p.digit, text) then Some(ClassMessage(p.digit, PasswordNeedsDigit, env))
    else if ClassFails(p.special, text) then Some(ClassMessage(p.special, PasswordNeedsSpecial, env))
    else None
  }

  // A reference reading of the rule: an ordered list of checks, the first
  // failing one reported.

  /** One check applied to one text: whether it fails and what it reports. */
  datatype Check = Check(fails: bool, message: string)

  /** The checks in their fixed order: min-length, upper, lower, digit, special. */
  function Checks(p: PasswordRules, required: bool, text: string, env: Env): (cs: seq<Check>)
    ensures |cs| == 5
  {
    [ Check(TooShort(p, required, text), TooShortMessage(p, env)),
      Check(ClassFails(p.upper, text), ClassMessage(p.upper, PasswordNeedsUpper, env)),
      Check(ClassFails(p.lower, text), ClassMessage(p.lower, PasswordNeedsLower, env)),
      Check(ClassFails(p.digit, text), ClassMessage(p.digit, PasswordNeedsDigit, env)),
      Check(ClassFails(p.special, text), ClassMessage(p.special, PasswordNeedsSpecial, env)) ]
  }

  /** Check `k` fails and every check before it passes. */
  predicate FirstFailingAt(cs: seq<Check>, k: int)
  {
    0 <= k < |cs| && cs[k].fails && forall j :: 0 <= j < k ==> !cs[j].fails
  }

  /** Short-circuit evaluation of a list of checks. */
  function FirstFailure(cs: seq<Check>): (r: Option<string>)
    ensures r.None? <==> forall k :: 0 <= k < |cs| ==> !cs[k].fails
    ensures r.Some? ==> exists k :: FirstFailingAt(cs, k) && r.value == cs[k].message
  {
    if |cs| == 0 then None
    else if cs[0].fails then Some(cs[0].message)
    else FirstFailure(cs[1..])
  }

  /** Whatever check fails first, its message is the one reported. */
  lemma {:induction false} FirstFailureReportsFirst(cs: seq<Check>, k: int)
    requires FirstFailingAt(cs, k)
    ensures FirstFailure(cs) == Some(cs[k].message)
  {
    if k > 0 {
      assert !cs[0].fails;
      assert FirstFailingAt(cs[1..], k - 1) by {
        forall j | 0 <= j < k - 1
          ensures !cs[1..][j].fails
        {
          assert cs[1..][j] == cs[j + 1];
        }
      }
      FirstFailureReportsFirst(cs[1..], k - 1);
    }
  }

  /** `onValidate` is the short-circuit evaluation of the ordered checks. */
  lemma OnValidateIsFirstFailure(p: PasswordRules, required: bool, text: string, env: Env)
    ensures OnValidate(p, required, text, env) == FirstFailure(Checks(p, required, text, env))
  {
    var cs := Checks(p, required, text, env);
    var s1, s2, s3, s4 := cs[1..], cs[2..], cs[3..], cs[4..];
    assert s1[1..] == s2 && s2[1..] == s3 && s3[1..] == s4 && s4[1..] == [];
    assert FirstFailure(s4) == if s4[0].fails then Some(s4[0].message) else None;
    assert FirstFailure(s3) == if s3[0].fails then Some(s3[0].message) else FirstFailure(s4);
    assert FirstFailure(s2) == if s2[0].fails then Some(s2[0].message) else FirstFailure(s3);
    assert FirstFailure(s1) == if s1[0].fails then Some(s1[0].message) else FirstFailure(s2);
  }

  /** The message of the first failing check in the fixed order is reported,
      whatever the later checks say. */
  lemma FirstFailingCheckReported(p: PasswordRules, required: bool, text: string, env: Env, k: int)
    requires FirstFailingAt(Checks(p, required, text, env), k)
    ensures OnValidate(p, required, text, env) == Some(Checks(p, required, text, env)[k].message)
  {
    OnValidateIsFirstFailure(p, required, text, env);
    FirstFailureReportsFirst(Checks(p, required, text, env), k);
  }

  /** Text with neither an upper-case letter nor a digit reports the upper-case
      error, never the digit error. */
  lemma UpperReportedBeforeDigit(p: PasswordRules, required: bool, text: string, env: Env)
    requires p.upper.pattern == Some(Upper) && p.digit.pattern == Some(Digit)
    requires !TooShort(p, required, text)
    requires !Contains(Upper, text) && !Contains(Digit, text)
    ensures OnValidate(p, required, text, env) == Some(ClassMessage(p.upper, PasswordNeedsUpper, env))
  {
    MatchesIff(Upper, text);
    FirstFailingCheckReported(p, required, text, env, 1);
  }

  /** The text a rule set accepts, in terms of characters: long enough unless
      required, and for each enabled check a character of its class and no
      line terminator anywhere. */
  lemma AcceptedPasswords(p: PasswordRules, required: bool, text: string, env: Env)
    requires WellFormed(p)
    ensures OnValidate(p, required, text, env).None? <==>
      && (required || |text| >= p.minLength)
      && (p.upper.pattern.Some? ==> DotStar(text) && Contains(Upper, text))
      && (p.lower.pattern.Some? ==> DotStar(text) && Contains(Lower, text))
      && (p.digit.pattern.Some? ==> DotStar(text) && Contains(Digit, text))
      && (p.special.pattern.Some? ==> DotStar(text) && Contains(Special, text))
  {
    MatchesIff(Upper, text);
    MatchesIff(Lower, text);
    MatchesIff(Digit, text);
    MatchesIff(Special, text);
  }

  /** With the default threshold of zero and no check enabled, every text
      passes; in particular the min-length check never fires. */
  lemma FreshRulesAcceptAll(required: bool, text: string, env: Env)
    ensures !TooShort(Fresh, required, text)
    ensures OnValidate(Fresh, required, text, env) == None
  {
  }

  /** For well-formed rules the localized default of a character-class check
      is unreachable: a class failure always reports the configured message. */
  lemma ClassErrorsAreConfigured(p: PasswordRules, required: bool, text: string, env: Env)
    requires WellFormed(p)
    requires !TooShort(p, required, text)
    requires OnValidate(p, required, text, env).Some?
    ensures OnValidate(p, required, text, env) in {p.upper.error, p.lower.error, p.digit.error, p.special.error}
  {
  }
}
