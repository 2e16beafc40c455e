/** What the validators take from the Android platform, as plain values: the
    localized message lookup and the two shape checks of `android.util.Patterns`.
    None of them is interpreted; every property proved holds for every choice. */
module Platform {

  /** The string resources the library reads (`R.string.av_*`). */
  datatype MessageKey =
    | RequiredField
    | EmailInvalid
    | PhoneInvalid
    | PasswordTooShort
    | PasswordNeedsUpper
    | PasswordNeedsLower
    | PasswordNeedsDigit
    | PasswordNeedsSpecial
    | PasswordsDoNotMatch

  /** `getString` is `Context.getString(resId, formatArgs...)`; `isEmailAddress`
      is `Patterns.EMAIL_ADDRESS.matcher(s).matches()`; `isPhone` is
      `Patterns.PHONE.matcher(s).matches()`. */
  datatype Env = Env(
    getString: (MessageKey, seq<int>) -> string,
    isEmailAddress: string -> bool,
    isPhone: string -> bool)
}
