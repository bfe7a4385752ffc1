/**
 * The registration form (client/src/pages/RegisterPage.jsx): four text
 * fields, an error banner, and `handleRegister`, which runs its checks in a
 * fixed order and stops at the first that fails.
 */
module RegisterPage {
  import opened Wrappers
  import opened FormMessages
  import opened EmailPattern

  /** Every field holds a non-empty string (a JavaScript string is falsy only when empty). */
  predicate AllFilled(fullName: string, email: string, password: string, confirmPassword: string) {
    fullName != "" && email != "" && password != "" && confirmPassword != ""
  }

  /**
   * The error `handleRegister` leaves in the banner, or None when the form is
   * accepted. The contract states the order of the checks against the
   * documented e-mail shape rather than the pattern itself.
   */
  function RegisterError(fullName: string, email: string, password: string, confirmPassword: string): (r: Option<string>)
    ensures r == Some(AllFieldsRequired) <==> !AllFilled(fullName, email, password, confirmPassword)
    ensures r == Some(InvalidEmail) <==>
      AllFilled(fullName, email, password, confirmPassword) && !HasEmailShape(email)
    ensures r == Some(PasswordTooShort) <==>
      AllFilled(fullName, email, password, confirmPassword) && HasEmailShape(email)
      && |password| < MinPasswordLength
    ensures r == Some(PasswordsDiffer) <==>
      AllFilled(fullName, email, password, confirmPassword) && HasEmailShape(email)
      && |password| >= MinPasswordLength && password != confirmPassword
    ensures r == None <==>
      AllFilled(fullName, email, password, confirmPassword) && HasEmailShape(email)
      && |password| >= MinPasswordLength && password == confirmPassword
  {
    EmailRegexShape(email);
    if !AllFilled(fullName, email, password, confirmPassword) then Some(AllFieldsRequired)
    else if !MatchesEmailRegex(email) then Some(InvalidEmail)
    else if |password| < MinPasswordLength then Some(PasswordTooShort)
    else if password != confirmPassword then Some(PasswordsDiffer)
    else None
  }

  /** The component's state: the four controlled inputs and the error banner (`null` is None). */
  class RegisterForm {
    var fullName: string
    var email: string
    var password: string
    var confirmPassword: string
    var error: Option<string>

    /** `useState("")` for every field and `useState(null)` for the error. */
    constructor ()
      ensures fullName == "" && email == "" && password == "" && confirmPassword == ""
      ensures error == None
    {
      fullName, email, password, confirmPassword := "", "", "", "";
      error := None;
    }

    /**
     * `handleRegister`: on a failed check only the error changes and every
     * field keeps what the user typed; on success the error is cleared and
     * all four fields are reset to the empty string.
     */
    method HandleRegister()
      modifies this
      ensures error == RegisterError(old(fullName), old(email), old(password), old(confirmPassword))
      ensures error.Some? ==>
        fullName == old(fullName) && email == old(email)
        && password == old(password) && confirmPassword == old(confirmPassword)
      ensures error.None? ==> fullName == "" && email == "" && password == "" && confirmPassword == ""
    {
      if fullName == "" || email == "" || password == "" || confirmPassword == "" {
        error := Some(AllFieldsRequired);
        return;
      }
      if !MatchesEmailRegex(email) {
        error := Some(InvalidEmail);
        return;
      }
      if |password| < MinPasswordLength {
        error := Some(PasswordTooShort);
        return;
      }
      if password != confirmPassword {
        error := Some(PasswordsDiffer);
        return;
      }
      error := None;
      fullName := "";
      email := "";
      password := "";
      confirmPassword := "";
    }
  }

  /**
   * A full name made only of whitespace is not empty, so it passes the
   * emptiness check: with well-formed other fields the form is accepted.
   */
  lemma WhitespaceFullNameAccepted(fullName: string, email: string, password: string)
    requires |fullName| > 0 && forall k | 0 <= k < |fullName| :: IsSpace(fullName[k])
    requires HasEmailShape(email) && |password| >= MinPasswordLength
    ensures RegisterError(fullName, email, password, password) == None
  {
  }

  /** Confirmation is checked last: a mismatch is reported only for a password that is long enough. */
  lemma ShortPasswordHidesMismatch(fullName: string, email: string, password: string, confirmPassword: string)
    requires AllFilled(fullName, email, password, confirmPassword) && HasEmailShape(email)
    requires |password| < MinPasswordLength && password != confirmPassword
    ensures RegisterError(fullName, email, password, confirmPassword) == Some(PasswordTooShort)
  {
  }

}
