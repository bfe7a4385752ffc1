/** The error texts and the length bound that both client forms show and use. */
module FormMessages {

  const AllFieldsRequired := "All fields are required."
  const InvalidEmail := "Please enter a valid email address."
  const PasswordTooShort := "Password must be at least 6 characters long."
  const PasswordsDiffer := "Passwords do not match."

  /** `password.length < 6` rejects; the forms count characters of the string. */
  const MinPasswordLength := 6

}
