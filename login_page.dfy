/**
 * The login form (client/src/pages/LoginPage.jsx): e-mail and password
 * fields, an error banner, and `handleLogin`, the same ordered checks as
 * registration without the confirmation step.
 */
module LoginPage {
  import opened Wrappers
  import opened FormMessages
  import opened EmailPattern
  import RegisterPage

  /** The error `handleLogin` leaves in the banner, or None when the form is accepted. */
  function LoginError(email: string, password: string): (r: Option<string>)
    ensures r == Some(AllFieldsRequired) <==> email == "" || password == ""
    ensures r == Some(InvalidEmail) <==> email != "" && password != "" && !HasEmailShape(email)
    ensures r == Some(PasswordTooShort) <==>
      email != "" && password != "" && HasEmailShape(email) && |password| < MinPasswordLength
    ensures r == None <==>
      email != "" && password != "" && HasEmailShape(email) && |password| >= MinPasswordLength
  {
    EmailRegexShape(email);
    if email == "" || password == "" then Some(AllFieldsRequired)
    else if !MatchesEmailRegex(email) then Some(InvalidEmail)
    else if |password| < MinPasswordLength then Some(PasswordTooShort)
    else None
  }

  /** The component's state: the two controlled inputs and the error banner. */
  class LoginForm {
    var email: string
    var password: string
    var error: Option<string>

    constructor ()
      ensures email == "" && password == "" && error == None
    {
      email, password := "", "";
      error := None;
    }

    /**
     * `handleLogin`: on a failed check both fields keep their values; on
     * success the error is cleared and both fields are reset.
     */
    method HandleLogin()
      modifies this
      ensures error == LoginError(old(email), old(password))
      ensures error.Some? ==> email == old(email) && password == old(password)
      ensures error.None? ==> email == "" && password == ""
    {
      if email == "" || password == "" {
        error := Some(AllFieldsRequired);
        return;
      }
      if !MatchesEmailRegex(email) {
        error := Some(InvalidEmail);
        return;
      }
      if |password| < MinPasswordLength {
        error := Some(PasswordTooShort);
        return;
      }
      error := None;
      email := "";
      password := "";
    }
  }

  /**
   * The login form never asks for confirmation: its verdict on (email,
   * password) is the registration form's verdict with a non-empty name and
   * the password repeated as confirmation.
   */
  lemma LoginMatchesRegistration(fullName: string, email: string, password: string)
    requires fullName != ""
    ensures LoginError(email, password) == RegisterPage.RegisterError(fullName, email, password, password)
  {
  }

}
