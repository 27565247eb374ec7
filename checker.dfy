/**
 * The password strength and breach checker page: typing a password
 * recomputes its entropy and strength at once and schedules the breach
 * check, which runs later from a timer.
 */
module Checker {
  import opened Common
  import opened Hex
  import opened Strength
  import opened Breach

  /** The checker page's state. `leak` holds `inputLeakedStatus` and `inputIsChecking`. */
  class CheckerPage {
    var inputPassword: string
    var inputEntropy: real
    var inputStrength: string
    const leak: BreachCheck

    constructor()
      ensures inputPassword == "" && inputEntropy == 0.0 && inputStrength == "Weak"
      ensures fresh(leak) && leak.status == NoStatus && !leak.isChecking && leak.queries == []
    {
      inputPassword := "";
      inputEntropy := 0.0;
      inputStrength := "Weak";
      leak := new BreachCheck();
    }

    /**
     * `handleInputPasswordChange`: the new text, its entropy and its strength
     * are set synchronously; the breach indicator is left alone, and the
     * password the timer will check is returned.
     */
    method HandleInputPasswordChange(pwd: string, bits: Measure) returns (scheduled: string)
      modifies this
      ensures inputPassword == pwd && scheduled == pwd
      ensures inputEntropy == Entropy(pwd, bits)
      ensures inputStrength == StrengthLevel(inputEntropy)
      ensures pwd == "" ==> inputEntropy == 0.0 && inputStrength == "Weak"
      ensures unchanged(leak)
    {
      inputPassword := pwd;
      var entropyValue := Entropy(pwd, bits);
      inputEntropy := entropyValue;
      var strengthLevel := StrengthLevel(entropyValue);
      inputStrength := strengthLevel;
      scheduled := pwd;
    }

    /** The timer firing: `checkPasswordBreach` on the password it was scheduled with. */
    method TimerFires(scheduled: string, sha1: string -> Option<seq<Byte>>, fetchRange: string -> Option<Reply>)
      modifies leak
      ensures leak.status == CheckStatus(scheduled, sha1, fetchRange)
      ensures leak.queries == old(leak.queries) + CheckQueries(scheduled, sha1)
      ensures scheduled != "" ==> !leak.isChecking
    {
      leak.CheckPasswordBreach(scheduled, sha1, fetchRange);
    }
  }
}
