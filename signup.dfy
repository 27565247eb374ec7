/**
 * The signup form's submit handler: two checks in a fixed order, then the
 * registration call, whose result decides between navigating to the vault
 * and showing the server's message.
 */
module Signup {
  import opened Common

  const PASSWORDS_DIFFER := "Passwords do not match"
  const TOO_SHORT := "Password must be at least 6 characters"
  const MIN_PASSWORD_LENGTH := 6
  const AFTER_SIGNUP := "/password-manager"

  /**
   * The error the checks report, if any: a mismatch is reported before a
   * short password is.
   */
  function Validate(password: string, confirmPassword: string): (error: Option<string>)
    ensures error.None? <==> password == confirmPassword && |password| >= MIN_PASSWORD_LENGTH
    ensures password != confirmPassword ==> error == Some(PASSWORDS_DIFFER)
    ensures password == confirmPassword && |password| < MIN_PASSWORD_LENGTH ==> error == Some(TOO_SHORT)
  {
    if password != confirmPassword then Some(PASSWORDS_DIFFER)
    else if |password| < MIN_PASSWORD_LENGTH then Some(TOO_SHORT)
    else None
  }

  /** A short password typed differently twice is reported as a mismatch, not as too short. */
  lemma MismatchReportedFirst(password: string, confirmPassword: string)
    requires password != confirmPassword && |password| < MIN_PASSWORD_LENGTH
    ensures Validate(password, confirmPassword) == Some(PASSWORDS_DIFFER)
  {
  }

  /** What `register` resolves to. */
  datatype RegisterResult = RegisterResult(success: bool, message: string)

  /** The arguments of one `register` call. */
  datatype Registration = Registration(username: string, email: string, password: string)

  class SignupPage {
    var username: string
    var email: string
    var password: string
    var confirmPassword: string
    var error: string
    var loading: bool
    /** Where the page has navigated to, if anywhere. */
    var location: Option<string>
    /** The `register` calls made so far. */
    var registrations: seq<Registration>

    constructor()
      ensures username == "" && email == "" && password == "" && confirmPassword == ""
      ensures error == "" && !loading && location.None? && registrations == []
    {
      username, email, password, confirmPassword := "", "", "", "";
      error := "";
      loading := false;
      location := None;
      registrations := [];
    }

    /**
     * `handleSubmit`: the error is cleared, the checks run in order, and only
     * input that passes them is registered; `result` is what that call
     * resolves to.
     */
    method HandleSubmit(result: RegisterResult)
      modifies this
      ensures var invalid := Validate(password, confirmPassword);
        && (invalid.Some? ==>
              && error == invalid.value && registrations == old(registrations)
              && location == old(location) && loading == old(loading))
        && (invalid.None? ==>
              && registrations == old(registrations) + [Registration(username, email, password)]
              && !loading
              && (result.success ==> location == Some(AFTER_SIGNUP) && error == "")
              && (!result.success ==> location == old(location) && error == result.message))
      ensures username == old(username) && email == old(email)
      ensures password == old(password) && confirmPassword == old(confirmPassword)
    {
      error := "";
      if password != confirmPassword {
        error := PASSWORDS_DIFFER;
        return;
      }
      if |password| < MIN_PASSWORD_LENGTH {
        error := TOO_SHORT;
        return;
      }
      loading := true;
      registrations := registrations + [Registration(username, email, password)];
      if result.success {
        location := Some(AFTER_SIGNUP);
      } else {
        error := result.message;
      }
      loading := false;
    }
  }
}
