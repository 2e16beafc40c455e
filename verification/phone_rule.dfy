/** The rule of `PhoneNumberValidator`: text of at most one character is
    accepted whatever it holds, anything longer must have the shape of a
    phone number. */
module PhoneRule {
  import opened Wrappers
  import opened Platform

  /** `PhoneNumberValidator.onValidate`: an error exactly when the text is
      longer than one character and not a phone number; the message is the
      configured one when it is set, the localized default otherwise. */
  function OnValidate(errorMessage: Option<string>, text: string, env: Env): (r: Option<string>)
    ensures |text| <= 1 ==> r == None
    ensures r.None? <==> |text| <= 1 || env.isPhone(text)
    ensures r.Some? && errorMessage.Some? ==> r.value == errorMessage.value
    ensures r.Some? && errorMessage.None? ==> r.value == env.getString(PhoneInvalid, [])
  {
    if |text| > 1 && !env.isPhone(text) then
      Some(errorMessage.GetOr(env.getString(PhoneInvalid, [])))
    else
      None
  }
}
