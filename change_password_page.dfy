/** The state of the change-password page, frontend/src/pages/ChangePassword.jsx:
    the three form fields, the error and success messages and the
    requirement checklist, with the handlers that update them. The call to
    the server is not made here: `HandleSubmit` returns the request it would
    send, and `HandleReply` takes what the call produced. */
module ChangePasswordPage {
  import opened JsValues
  import PasswordPolicy

  const PolicyMessage: string :=
    "Password must be at least 8 characters and include uppercase, lowercase, number, and special character."
  const SameAsOldMessage: string := "New password must be different from old password."
  const MismatchMessage: string := "New password and confirm password do not match."
  const SuccessMessage: string := "Password changed successfully."
  const FailureFallback: string := "Failed to change password"
  const NetworkFallback: string := "Network error. Please try again."

  /** The checklist shown under the new-password field (`match` is a Dafny
      keyword, so that flag is called `matched`). */
  datatype Validations = Validations(
    length: bool, upper: bool, lower: bool, number: bool, special: bool,
    different: bool, matched: bool)
  {
    predicate PolicyRulesMet()
    {
      length && upper && lower && number && special
    }
  }

  const NothingValidated := Validations(false, false, false, false, false, false, false)

  /** `updateValidation(oldPwd, newPwd, confirmPwd)`, each flag taken as the
      truthiness it is rendered with. The five rule flags agree with the
      policy expression: it accepts a password only when they all hold, and
      when they all hold it accepts every password without a line
      terminator. `different` and `matched` need both of their strings
      non-empty. */
  function UpdateValidation(oldPwd: string, newPwd: string, confirmPwd: string): (v: Validations)
    ensures v.length <==> |newPwd| >= PasswordPolicy.MinLength
    ensures v.upper <==> PasswordPolicy.Contains(newPwd, PasswordPolicy.Upper)
    ensures v.lower <==> PasswordPolicy.Contains(newPwd, PasswordPolicy.Lower)
    ensures v.number <==> PasswordPolicy.Contains(newPwd, PasswordPolicy.Digit)
    ensures v.special <==> PasswordPolicy.Contains(newPwd, PasswordPolicy.Special)
    ensures PasswordPolicy.Accepts(newPwd) ==> v.PolicyRulesMet()
    ensures v.PolicyRulesMet() && PasswordPolicy.HasNoLineTerminator(newPwd) ==> PasswordPolicy.Accepts(newPwd)
    ensures v.different ==> newPwd != "" && oldPwd != "" && newPwd != oldPwd
    ensures v.matched ==> newPwd != "" && confirmPwd != "" && newPwd == confirmPwd
    ensures newPwd != "" ==> (v.different <==> oldPwd != "" && oldPwd != newPwd)
    ensures newPwd != "" ==> (v.matched <==> confirmPwd == newPwd)
  {
    PasswordPolicy.AcceptsMeaning(newPwd);
    Validations(
      |newPwd| >= PasswordPolicy.MinLength,
      PasswordPolicy.Contains(newPwd, PasswordPolicy.Upper),
      PasswordPolicy.Contains(newPwd, PasswordPolicy.Lower),
      PasswordPolicy.Contains(newPwd, PasswordPolicy.Digit),
      PasswordPolicy.Contains(newPwd, PasswordPolicy.Special),
      newPwd != "" && oldPwd != "" && newPwd != oldPwd,
      newPwd != "" && confirmPwd != "" && newPwd == confirmPwd)
  }

  /** The client-side gate of `handleSubmit`: the policy, then new differs
      from old, then new equals confirm; the first failure gives the error
      shown, and None means the request is sent. */
  function SubmitCheck(oldPwd: string, newPwd: string, confirmPwd: string): (error: Option<string>)
    ensures error.None? <==> PasswordPolicy.Accepts(newPwd) && newPwd != oldPwd && newPwd == confirmPwd
    ensures !PasswordPolicy.Accepts(newPwd) ==> error == Some(PolicyMessage)
    ensures PasswordPolicy.Accepts(newPwd) && newPwd == oldPwd ==> error == Some(SameAsOldMessage)
    ensures PasswordPolicy.Accepts(newPwd) && newPwd != oldPwd && newPwd != confirmPwd ==> error == Some(MismatchMessage)
  {
    if !PasswordPolicy.Accepts(newPwd) then Some(PolicyMessage)
    else if newPwd == oldPwd then Some(SameAsOldMessage)
    else if newPwd != confirmPwd then Some(MismatchMessage)
    else None
  }

  /** A checklist that is all green on a new password without line
      terminators means the submit gate lets the form through; conversely a
      form that passes the gate with a non-empty old field shows an
      all-green checklist. */
  lemma ChecklistAgreesWithSubmit(oldPwd: string, newPwd: string, confirmPwd: string)
    ensures var v := UpdateValidation(oldPwd, newPwd, confirmPwd);
            v.PolicyRulesMet() && v.different && v.matched && PasswordPolicy.HasNoLineTerminator(newPwd) ==>
              SubmitCheck(oldPwd, newPwd, confirmPwd).None?
    ensures var v := UpdateValidation(oldPwd, newPwd, confirmPwd);
            SubmitCheck(oldPwd, newPwd, confirmPwd).None? && oldPwd != "" ==>
              v.PolicyRulesMet() && v.different && v.matched
  {
  }

  /** The input a change event comes from (its `name` attribute). */
  datatype Field = OldPassword | NewPassword | ConfirmPassword

  /** The body `handleSubmit` posts. */
  datatype ChangeRequest = ChangeRequest(businessEmail: Option<string>, oldPassword: string, newPassword: string)

  /** What `await userAPI.changePassword(payload)` produced: a response
      (possibly null or undefined), or a thrown error with its `message`. */
  datatype ApiResponse = ApiResponse(success: bool, error: Option<string>)
  datatype ApiOutcome = Resolved(response: Option<ApiResponse>) | Threw(message: Option<string>)

  class PageState {
    var oldPassword: string
    var newPassword: string
    var confirmPassword: string
    var error: string
    var message: string
    var validations: Validations

    constructor ()
      ensures oldPassword == "" && newPassword == "" && confirmPassword == ""
      ensures error == "" && message == "" && validations == NothingValidated
    {
      oldPassword, newPassword, confirmPassword := "", "", "";
      error, message := "", "";
      validations := NothingValidated;
    }

    /** `handleChange`: store the edited field, recompute the checklist from
        the updated form, clear both messages. */
    method HandleChange(field: Field, value: string)
      modifies this
      ensures oldPassword == (if field == OldPassword then value else old(oldPassword))
      ensures newPassword == (if field == NewPassword then value else old(newPassword))
      ensures confirmPassword == (if field == ConfirmPassword then value else old(confirmPassword))
      ensures validations == UpdateValidation(oldPassword, newPassword, confirmPassword)
      ensures error == "" && message == ""
    {
      match field {
        case OldPassword => oldPassword := value;
        case NewPassword => newPassword := value;
        case ConfirmPassword => confirmPassword := value;
      }
      validations := UpdateValidation(oldPassword, newPassword, confirmPassword);
      error := "";
      message := "";
    }

    /** `handleSubmit` up to the call: clear both messages, run the three
      checks in order; on the first failure show its message and send
      nothing, otherwise return the request to send. The form is not
      changed. */
    method HandleSubmit(businessEmail: Option<string>) returns (request: Option<ChangeRequest>)
      modifies this`error, this`message
      ensures message == ""
      ensures SubmitCheck(oldPassword, newPassword, confirmPassword).Some? ==>
                request.None? && error == SubmitCheck(oldPassword, newPassword, confirmPassword).value
      ensures SubmitCheck(oldPassword, newPassword, confirmPassword).None? ==>
                request == Some(ChangeRequest(businessEmail, oldPassword, newPassword)) && error == ""
    {
      error := "";
      message := "";
      if !PasswordPolicy.Accepts(newPassword) {
        error := PolicyMessage;
        return None;
      }
      if newPassword == oldPassword {
        error := SameAsOldMessage;
        return None;
      }
      if newPassword != confirmPassword {
        error := MismatchMessage;
        return None;
      }
      request := Some(ChangeRequest(businessEmail, oldPassword, newPassword));
    }

    /** The rest of `handleSubmit`: on a successful response show the success
      message and empty all three fields; on any other response show its
      error, or the fallback when it has none; on a thrown error show its
      message, or the network fallback. The checklist is not recomputed. */
    method HandleReply(outcome: ApiOutcome)
      modifies this
      ensures validations == old(validations)
      ensures outcome.Resolved? && outcome.response.Some? && outcome.response.value.success ==>
                && oldPassword == "" && newPassword == "" && confirmPassword == ""
                && message == SuccessMessage && error == old(error)
      ensures !(outcome.Resolved? && outcome.response.Some? && outcome.response.value.success) ==>
                && oldPassword == old(oldPassword) && newPassword == old(newPassword)
                && confirmPassword == old(confirmPassword) && message == old(message)
      ensures outcome.Resolved? && outcome.response.Some? && !outcome.response.value.success ==>
                error == (if Truthy(outcome.response.value.error) then outcome.response.value.error.value else FailureFallback)
      ensures outcome.Resolved? && outcome.response.None? ==> error == FailureFallback
      ensures outcome.Threw? ==> error == (if Truthy(outcome.message) then outcome.message.value else NetworkFallback)
    {
      match outcome
      case Resolved(response) =>
        if response.Some? && response.value.success {
          message := SuccessMessage;
          oldPassword, newPassword, confirmPassword := "", "", "";
        } else if response.Some? && Truthy(response.value.error) {
          error := response.value.error.value;
        } else {
          error := FailureFallback;
        }
      case Threw(m) =>
        error := if Truthy(m) then m.value else NetworkFallback;
    }
  }
}
