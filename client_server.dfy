/** How the change-password page and the `/change-password` handler fit
    together: both test the one policy expression, so the server never
    rejects, on policy or sameness grounds, a request the page lets through. */
module ClientServer {
  import opened JsValues
  import Users
  import ChangePasswordPage

  /** A request that passed the page's gate is never rejected by the server
      for its policy or for equalling the old password; it gets past the
      server's first three checks whenever the email and old password are
      non-empty. */
  lemma SubmittedRequestPassesServerPolicy(hash: Users.Hasher, rows: map<string, Users.Vendor>,
                                           email: Option<string>, oldPwd: string, newPwd: string, confirmPwd: string)
    requires ChangePasswordPage.SubmitCheck(oldPwd, newPwd, confirmPwd).None?
    ensures var d := Users.ChangeDecision(hash, rows, email, Some(oldPwd), Some(newPwd));
            && d != Users.ChangeRejected(Users.PolicyViolation)
            && d != Users.ChangeRejected(Users.SameAsOld)
            && (Truthy(email) && oldPwd != "" ==> d.Changed? || d.error.Order() >= Users.ChangeError.VendorNotFound.Order())
  {
  }

  /** The whole flow: a request the page sends for an existing active row
      whose current password is the old one changes the password, and the
      new password then logs in. */
  lemma SubmittedChangeLogsIn(hash: Users.Hasher, rows: map<string, Users.Vendor>,
                              email: string, oldPwd: string, newPwd: string, confirmPwd: string, newSalt: string)
    requires ChangePasswordPage.SubmitCheck(oldPwd, newPwd, confirmPwd).None?
    requires email != "" && oldPwd != "" && newSalt != ""
    requires email in rows && rows[email].isActive && Users.PasswordMatches(hash, rows[email], oldPwd)
    ensures Users.ChangeDecision(hash, rows, Some(email), Some(oldPwd), Some(newPwd)) == Users.Changed
    ensures Users.LoginDecision(hash, Users.TableAfterChange(hash, rows, Some(email), Some(oldPwd), Some(newPwd), newSalt),
                                Some(email), Some(newPwd)).LoggedIn?
  {
  }
}
