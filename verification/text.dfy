/** Strings as the validators see them: nullable emptiness, the four character
    classes of the password rules, and the meaning of a Java pattern of the
    shape `.*[C].*` under `Matcher.matches()`. */
module Text {
  import opened Wrappers

  /** `TextUtils.isEmpty`: a null reference or a string of length zero.
      A string of blanks is not empty. */
  predicate IsEmpty(s: Option<string>)
  {
    s.None? || |s.value| == 0
  }

  /** The character classes the password rules search for. */
  datatype CharClass = Upper | Lower | Digit | Special

  /** `[A-Z]`, `[a-z]`, `\d` (ASCII digits without the UNICODE_CHARACTER_CLASS
      flag) and `[~!]`. */
  predicate InClass(cls: CharClass, c: char)
  {
    match cls
    case Upper => 'A' <= c <= 'Z'
    case Lower => 'a' <= c <= 'z'
    case Digit => '0' <= c <= '9'
    case Special => c == '~' || c == '!'
  }

  /** The characters Java's `.` refuses to match when the DOTALL and
      UNIX_LINES flags are off. */
  predicate IsLineTerminator(c: char)
  {
    c == '\n' || c == '\r' || c == '\U{0085}' || c == '\U{2028}' || c == '\U{2029}'
  }

  /** `.*` matches the whole of `u`. */
  predicate DotStar(u: string)
  {
    forall k :: 0 <= k < |u| ==> !IsLineTerminator(u[k])
  }

  /** `Pattern.compile(".*[C].*").matcher(s).matches()`: the whole of `s`
      splits as a `.*` part, one character of the class, and a `.*` part. */
  predicate Matches(cls: CharClass, s: string)
  {
    exists i :: 0 <= i < |s| && InClass(cls, s[i]) && DotStar(s[..i]) && DotStar(s[i + 1..])
  }

  /** Some character of `s` is in the class. */
  predicate Contains(cls: CharClass, s: string)
  {
    exists i :: 0 <= i < |s| && InClass(cls, s[i])
  }

  /** No character of a class is a line terminator. */
  lemma ClassCharIsNotTerminator(cls: CharClass, c: char)
    requires InClass(cls, c)
    ensures !IsLineTerminator(c)
  {
  }

  /** The pattern matches exactly the strings that hold a character of the
      class and no line terminator anywhere: a line terminator, even far from
      the class character, makes `matches()` fail. */
  lemma {:induction false} MatchesIff(cls: CharClass, s: string)
    ensures Matches(cls, s) <==> DotStar(s) && Contains(cls, s)
  {
    if Matches(cls, s) {
      var i :| 0 <= i < |s| && InClass(cls, s[i]) && DotStar(s[..i]) && DotStar(s[i + 1..]);
      ClassCharIsNotTerminator(cls, s[i]);
      forall k | 0 <= k < |s|
        ensures !IsLineTerminator(s[k])
      {
        if k < i {
          assert s[k] == s[..i][k];
        } else if k > i {
          assert s[k] == s[i + 1..][k - i - 1];
        }
      }
    }
    if DotStar(s) && Contains(cls, s) {
      var i :| 0 <= i < |s| && InClass(cls, s[i]);
      assert DotStar(s[..i]) by {
        forall k | 0 <= k < i
          ensures !IsLineTerminator(s[..i][k])
        {
          assert s[..i][k] == s[k];
        }
      }
      var rest := s[i + 1..];
      assert DotStar(rest) by {
        forall k | 0 <= k < |rest|
          ensures !IsLineTerminator(rest[k])
        {
          assert rest[k] == s[i + 1 + k];
        }
      }
    }
  }
}
