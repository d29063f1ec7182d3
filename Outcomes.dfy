/** Verdicts returned by the password validators.
    A Python validator either returns normally (`Pass`), raises one
    `ValidationError` carrying a fixed code (`Fail`), or, for the two
    run-length validators on the empty password, raises `IndexError`
    from `password[0]` (`IndexError`). */
module Outcomes {

  datatype Option<+T> = None | Some(value: T)

  /** The `code=` argument of every `ValidationError` the validators raise. */
  datatype Code =
    | PasswordTooSimilar
    | PasswordNumberShort
    | PasswordLowerCaseShort
    | PasswordUpperCaseShort
    | PasswordSpecialCaseShort
    | PasswordDifferentShort
    | PasswordMaximumRepeating

  datatype Outcome = Pass | Fail(code: Code) | IndexError

  /** The code as the string the source passes to `ValidationError`. */
  function CodeName(c: Code): (name: string)
    ensures |name| > 9 && name[..9] == "password_"
  {
    match c
    case PasswordTooSimilar => "password_too_similar"
    case PasswordNumberShort => "password_number_short"
    case PasswordLowerCaseShort => "password_lower_case_short"
    case PasswordUpperCaseShort => "password_upper_case_short"
    case PasswordSpecialCaseShort => "password_special_case_short"
    case PasswordDifferentShort => "password_different_short"
    case PasswordMaximumRepeating => "password_maximum_repeating"
  }

  /** Different codes are reported under different names, so a caller can
      tell every rejection apart by its code string. */
  lemma CodeNamesDistinct(c: Code, d: Code)
    requires c != d
    ensures CodeName(c) != CodeName(d)
  {
  }
}
