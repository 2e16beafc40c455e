/** The rule of `EmailValidator`: empty text is accepted, anything else must
    have the shape of an e-mail address. */
module EmailRule {
  import opened Wrappers
  import opened Platform

  /** `EmailValidator.onValidate`: an error exactly when the text is
      non-empty and not an e-mail address; the message is the configured one
      when it is set, the localized default otherwise. */
  function OnValidate(errorMessage: Option<string>, text: string, env: Env): (r: Option<string>)
    ensures |text| == 0 ==> r == None
    ensures r.None? <==> |text| == 0 || env.isEmailAddress(text)
    ensures r.Some? && errorMessage.Some? ==> r.value == errorMessage.value
    ensures r.Some? && errorMessage.None? ==> r.value == env.getString(EmailInvalid, [])
  {
    if |text| > 0 && !env.isEmailAddress(text) then
      Some(errorMessage.GetOr(env.getString(EmailInvalid, [])))
    else
      None
  }
}
