/** The vendor credential logic of backend/routes/users.js: the `/login`
    decision sequence, the `/change-password` check sequence and the update
    of the Vendor row it ends with.

    The Vendor table is a map from BusinessEmail to the row's credential
    columns; `hashPassword` (PBKDF2 with SHA-512) is an arbitrary function
    `hash` fixed for the table, and `generateSalt` is SaltHex.GenerateSalt
    applied to the bytes the random source produced. */
module Users {
  import opened JsValues
  import PasswordPolicy
  import SaltHex

  /** `hashPassword(password, salt)`; nothing is assumed about it. */
  type Hasher = (string, string) -> string

  /** One Vendor row: `Password` holds a salted hash, or the plaintext on a
      legacy row; `Salt` is missing, null or empty on a legacy row;
      `isActive` is the truthiness of `Is_Active`; `columns` are the row's
      remaining columns (company name, phone, ...), keyed by column name. */
  datatype Vendor = Vendor(
    password: Option<string>,
    salt: Option<string>,
    isActive: bool,
    columns: map<string, string>)

  /** The fields the login response destructures away. */
  const SecretColumns: set<string> := {"Password", "password", "Salt", "salt"}

  /** The row as the successful login returns it: the `...vendorData` rest
      object, without any secret field. */
  function PublicData(v: Vendor): (data: map<string, string>)
    ensures data.Keys !! SecretColumns
    ensures forall c :: c in v.columns && c !in SecretColumns ==> c in data && data[c] == v.columns[c]
    ensures data.Keys <= v.columns.Keys
  {
    v.columns - SecretColumns
  }

  /** `isMatch` (login) and `oldMatches` (change-password): on a row with a
      truthy salt the stored value must equal the hash of the supplied
      password under that salt; otherwise it must equal the supplied password
      itself. A row whose password column is null never matches. */
  function PasswordMatches(hash: Hasher, v: Vendor, supplied: string): (m: bool)
    ensures m ==> v.password.Some?
    ensures Truthy(v.salt) ==> (m <==> v.password == Some(hash(supplied, v.salt.value)))
    ensures !Truthy(v.salt) ==> (m <==> v.password == Some(supplied))
  {
    if Truthy(v.salt) then v.password == Some(hash(supplied, v.salt.value))
    else v.password == Some(supplied)
  }

  // ---------------------------------------------------------------- login

  datatype LoginError = MissingCredentials | VendorNotFound | AccountInactive | PasswordMismatch
  {
    /** The HTTP status: 400 for missing input, 401 for every other failure. */
    function Status(): (s: int)
      ensures s == 400 || s == 401
      ensures s == 400 <==> this == MissingCredentials
    {
      if MissingCredentials? then 400 else 401
    }

    /** The `error` text of the response. */
    function Message(): (m: string)
      ensures m != ""
    {
      match this
      case MissingCredentials => "BusinessEmail and password are required"
      case VendorNotFound => "Invalid credentials - vendor not found"
      case AccountInactive => "Account is not active"
      case PasswordMismatch => "Invalid credentials - password mismatch"
    }
  }

  /** No two login failures share a message, so a caller can tell an
      unknown email from a wrong password. */
  lemma LoginMessagesDistinct(e1: LoginError, e2: LoginError)
    requires e1 != e2
    ensures e1.Message() != e2.Message()
  {
  }

  datatype LoginResult = LoggedIn(data: map<string, string>) | LoginRejected(error: LoginError)

  /** The outcome of `POST /login` with the given body fields against the
      given table. */
  function LoginDecision(hash: Hasher, rows: map<string, Vendor>, email: Option<string>, password: Option<string>): (r: LoginResult)
    ensures r.LoggedIn? <==>
            && Truthy(email) && Truthy(password) && email.value in rows
            && rows[email.value].isActive
            && PasswordMatches(hash, rows[email.value], password.value)
    ensures r.LoggedIn? ==> r.data.Keys !! SecretColumns
  {
    if !Truthy(email) || !Truthy(password) then LoginRejected(MissingCredentials)
    else if email.value !in rows then LoginRejected(LoginError.VendorNotFound)
    else if !rows[email.value].isActive then LoginRejected(LoginError.AccountInactive)
    else if !PasswordMatches(hash, rows[email.value], password.value) then LoginRejected(PasswordMismatch)
    else LoggedIn(PublicData(rows[email.value]))
  }

  /** A missing or empty email or password is rejected with 400 whatever the
      table holds and whatever the hash function is. */
  lemma LoginRequiresBothInputs(hash: Hasher, rows: map<string, Vendor>, email: Option<string>, password: Option<string>)
    requires !Truthy(email) || !Truthy(password)
    ensures LoginDecision(hash, rows, email, password) == LoginRejected(MissingCredentials)
    ensures LoginDecision(hash, rows, email, password).error.Status() == 400
  {
  }

  /** An email with no row is rejected with 401 "vendor not found". */
  lemma LoginUnknownVendor(hash: Hasher, rows: map<string, Vendor>, email: Option<string>, password: Option<string>)
    requires Truthy(email) && Truthy(password) && email.value !in rows
    ensures LoginDecision(hash, rows, email, password) == LoginRejected(LoginError.VendorNotFound)
    ensures LoginDecision(hash, rows, email, password).error.Status() == 401
  {
  }

  /** An inactive row is rejected whatever password is supplied: the result
      is the same for every password and every hash function, so no
      comparison takes part in it. */
  lemma LoginInactiveRejected(hash: Hasher, otherHash: Hasher, rows: map<string, Vendor>,
                              email: Option<string>, password: Option<string>, otherPassword: Option<string>)
    requires Truthy(email) && Truthy(password) && Truthy(otherPassword)
    requires email.value in rows && !rows[email.value].isActive
    ensures LoginDecision(hash, rows, email, password) == LoginRejected(LoginError.AccountInactive)
    ensures LoginDecision(hash, rows, email, password) == LoginDecision(otherHash, rows, email, otherPassword)
  {
  }

  /** On an active row with a truthy salt, login succeeds exactly when the
      stored password equals the hash of the supplied one under that salt. */
  lemma LoginSalted(hash: Hasher, rows: map<string, Vendor>, email: Option<string>, password: Option<string>)
    requires Truthy(email) && Truthy(password) && email.value in rows
    requires rows[email.value].isActive && Truthy(rows[email.value].salt)
    ensures LoginDecision(hash, rows, email, password).LoggedIn? <==>
            rows[email.value].password == Some(hash(password.value, rows[email.value].salt.value))
    ensures !LoginDecision(hash, rows, email, password).LoggedIn? ==>
            LoginDecision(hash, rows, email, password) == LoginRejected(PasswordMismatch)
  {
  }

  /** On an active legacy row (salt null, missing or empty), login succeeds
      exactly when the stored password equals the supplied one verbatim. */
  lemma LoginLegacy(hash: Hasher, rows: map<string, Vendor>, email: Option<string>, password: Option<string>)
    requires Truthy(email) && Truthy(password) && email.value in rows
    requires rows[email.value].isActive && !Truthy(rows[email.value].salt)
    ensures LoginDecision(hash, rows, email, password).LoggedIn? <==>
            rows[email.value].password == Some(password.value)
    ensures !LoginDecision(hash, rows, email, password).LoggedIn? ==>
            LoginDecision(hash, rows, email, password) == LoginRejected(PasswordMismatch)
  {
  }

  /** A successful login returns the row's public columns and none of the
      fields Password, password, Salt or salt. */
  lemma LoginResponseHasNoSecrets(hash: Hasher, rows: map<string, Vendor>, email: Option<string>, password: Option<string>)
    requires LoginDecision(hash, rows, email, password).LoggedIn?
    ensures Truthy(email) && email.value in rows
    ensures LoginDecision(hash, rows, email, password).data.Keys !! SecretColumns
    ensures LoginDecision(hash, rows, email, password).data == rows[email.value].columns - SecretColumns
  {
  }

  // -------------------------------------------------------- change password

  datatype ChangeError =
    | MissingFields | PolicyViolation | SameAsOld | VendorNotFound | AccountInactive | OldPasswordIncorrect
  {
    /** The HTTP status: 400 for the checks on the request itself, 404 for a
        missing row, 401 for an inactive row or a wrong old password. */
    function Status(): (s: int)
      ensures s == 400 <==> Order() < 3
      ensures s == 404 <==> VendorNotFound?
      ensures s == 401 <==> AccountInactive? || OldPasswordIncorrect?
    {
      match this
      case MissingFields => 400
      case PolicyViolation => 400
      case SameAsOld => 400
      case VendorNotFound => 404
      case AccountInactive => 401
      case OldPasswordIncorrect => 401
    }

    /** The `error` text of the response. */
    function Message(): (m: string)
      ensures m != ""
    {
      match this
      case MissingFields => "BusinessEmail, oldPassword, and newPassword are required"
      case PolicyViolation => "Password must be at least 8 characters and include uppercase, lowercase, number, and special character"
      case SameAsOld => "New password must be different from old password"
      case VendorNotFound => "Vendor not found"
      case AccountInactive => "Account is not active"
      case OldPasswordIncorrect => "Old password is incorrect"
    }

    /** The position of the check that raises this error in the handler. */
    function Order(): nat
    {
      match this
      case MissingFields => 0
      case PolicyViolation => 1
      case SameAsOld => 2
      case VendorNotFound => 3
      case AccountInactive => 4
      case OldPasswordIncorrect => 5
    }
  }

  datatype ChangeResult = Changed | ChangeRejected(error: ChangeError)

  /** The outcome of `POST /change-password` with the given body fields. */
  function ChangeDecision(hash: Hasher, rows: map<string, Vendor>,
                          email: Option<string>, oldPassword: Option<string>, newPassword: Option<string>): (r: ChangeResult)
    ensures r.Changed? <==>
            && Truthy(email) && Truthy(oldPassword) && Truthy(newPassword)
            && PasswordPolicy.Accepts(newPassword.value) && newPassword.value != oldPassword.value
            && email.value in rows && rows[email.value].isActive
            && PasswordMatches(hash, rows[email.value], oldPassword.value)
  {
    if !Truthy(email) || !Truthy(oldPassword) || !Truthy(newPassword) then ChangeRejected(MissingFields)
    else if !PasswordPolicy.Accepts(newPassword.value) then ChangeRejected(PolicyViolation)
    else if newPassword.value == oldPassword.value then ChangeRejected(SameAsOld)
    else if email.value !in rows then ChangeRejected(ChangeError.VendorNotFound)
    else if !rows[email.value].isActive then ChangeRejected(ChangeError.AccountInactive)
    else if !PasswordMatches(hash, rows[email.value], oldPassword.value) then ChangeRejected(OldPasswordIncorrect)
    else Changed
  }

  /** The row after the UPDATE of Password and Salt: it keeps its active
      flag and other columns, and with a non-empty salt it is on the salted
      path and authenticates the new password. */
  function Rehashed(hash: Hasher, v: Vendor, newPassword: string, newSalt: string): (w: Vendor)
    ensures w.isActive == v.isActive && w.columns == v.columns
    ensures w.salt == Some(newSalt)
    ensures newSalt != "" ==> Truthy(w.salt) && PasswordMatches(hash, w, newPassword)
  {
    v.(password := Some(hash(newPassword, newSalt)), salt := Some(newSalt))
  }

  /** The table after `POST /change-password`, the salt being the one
      `generateSalt` returned: only a successful change writes. */
  function TableAfterChange(hash: Hasher, rows: map<string, Vendor>, email: Option<string>,
                            oldPassword: Option<string>, newPassword: Option<string>, newSalt: string): (after: map<string, Vendor>)
    ensures after.Keys == rows.Keys
    ensures ChangeDecision(hash, rows, email, oldPassword, newPassword).ChangeRejected? ==> after == rows
    ensures ChangeDecision(hash, rows, email, oldPassword, newPassword).Changed? ==>
              after[email.value].password == Some(hash(newPassword.value, newSalt))
  {
    if ChangeDecision(hash, rows, email, oldPassword, newPassword).Changed?
    then rows[email.value := Rehashed(hash, rows[email.value], newPassword.value, newSalt)]
    else rows
  }

  /** The old-password check of change-password on a salted row: the
      request fails with "Old password is incorrect" exactly when the stored
      password is not the hash of the submitted old password under the row's
      salt. */
  lemma ChangeOldPasswordSalted(hash: Hasher, rows: map<string, Vendor>,
                                email: Option<string>, oldPassword: Option<string>, newPassword: Option<string>)
    requires Truthy(email) && Truthy(oldPassword) && Truthy(newPassword)
    requires PasswordPolicy.Accepts(newPassword.value) && newPassword.value != oldPassword.value
    requires email.value in rows && rows[email.value].isActive && Truthy(rows[email.value].salt)
    ensures ChangeDecision(hash, rows, email, oldPassword, newPassword) == ChangeRejected(OldPasswordIncorrect) <==>
            rows[email.value].password != Some(hash(oldPassword.value, rows[email.value].salt.value))
    ensures ChangeDecision(hash, rows, email, oldPassword, newPassword) == Changed <==>
            rows[email.value].password == Some(hash(oldPassword.value, rows[email.value].salt.value))
  {
  }

  /** The old-password check on a legacy row (salt null, missing or empty):
      it passes exactly when the stored password is the submitted old one
      verbatim. */
  lemma ChangeOldPasswordLegacy(hash: Hasher, rows: map<string, Vendor>,
                                email: Option<string>, oldPassword: Option<string>, newPassword: Option<string>)
    requires Truthy(email) && Truthy(oldPassword) && Truthy(newPassword)
    requires PasswordPolicy.Accepts(newPassword.value) && newPassword.value != oldPassword.value
    requires email.value in rows && rows[email.value].isActive && !Truthy(rows[email.value].salt)
    ensures ChangeDecision(hash, rows, email, oldPassword, newPassword) == ChangeRejected(OldPasswordIncorrect) <==>
            rows[email.value].password != Some(oldPassword.value)
    ensures ChangeDecision(hash, rows, email, oldPassword, newPassword) == Changed <==>
            rows[email.value].password == Some(oldPassword.value)
  {
  }

  /** Each check of the handler on its own, as a condition that passes or
      fails; a check about a row passes vacuously when there is no row to
      ask about. */
  predicate CheckPasses(k: ChangeError, hash: Hasher, rows: map<string, Vendor>,
                        email: Option<string>, oldPassword: Option<string>, newPassword: Option<string>)
  {
    match k
    case MissingFields => Truthy(email) && Truthy(oldPassword) && Truthy(newPassword)
    case PolicyViolation => newPassword.Some? ==> PasswordPolicy.Accepts(newPassword.value)
    case SameAsOld => newPassword.Some? && oldPassword.Some? ==> newPassword.value != oldPassword.value
    case VendorNotFound => email.Some? ==> email.value in rows
    case AccountInactive => email.Some? && email.value in rows ==> rows[email.value].isActive
    case OldPasswordIncorrect =>
      email.Some? && email.value in rows && oldPassword.Some? ==>
        PasswordMatches(hash, rows[email.value], oldPassword.value)
  }

  /** The checks run in the order missing fields, policy, same as old, vendor
      lookup, active, old password, and the first one that fails decides the
      response; the change goes through exactly when all of them pass. */
  lemma {:induction false} ChangeFirstFailureWins(hash: Hasher, rows: map<string, Vendor>,
                                                  email: Option<string>, oldPassword: Option<string>,
                                                  newPassword: Option<string>, k: ChangeError)
    ensures ChangeDecision(hash, rows, email, oldPassword, newPassword) == ChangeRejected(k) <==>
            && !CheckPasses(k, hash, rows, email, oldPassword, newPassword)
            && forall j: ChangeError :: j.Order() < k.Order() ==> CheckPasses(j, hash, rows, email, oldPassword, newPassword)
    ensures ChangeDecision(hash, rows, email, oldPassword, newPassword) == Changed <==>
            forall j: ChangeError :: CheckPasses(j, hash, rows, email, oldPassword, newPassword)
  {
    var d := ChangeDecision(hash, rows, email, oldPassword, newPassword);
    var passes := (j: ChangeError) => CheckPasses(j, hash, rows, email, oldPassword, newPassword);
    assert passes(MissingFields) ==> d != ChangeRejected(MissingFields);
    if d == Changed {
      forall j: ChangeError ensures passes(j) {
      }
    }
    if d.ChangeRejected? {
      var e := d.error;
      assert !passes(e);
      forall j: ChangeError | j.Order() < e.Order() ensures passes(j) {
      }
    }
  }

  /** A new password equal to the submitted old one is rejected before the
      table is read: the result is the same for every table and every hash
      function, including a table with no row for the email. */
  lemma SameAsOldWithoutLookup(hash: Hasher, otherHash: Hasher, rows: map<string, Vendor>, otherRows: map<string, Vendor>,
                               email: Option<string>, oldPassword: Option<string>, newPassword: Option<string>,
                               newSalt: string)
    requires Truthy(email) && Truthy(oldPassword) && Truthy(newPassword)
    requires PasswordPolicy.Accepts(newPassword.value) && newPassword.value == oldPassword.value
    ensures ChangeDecision(hash, rows, email, oldPassword, newPassword) == ChangeRejected(SameAsOld)
    ensures ChangeDecision(otherHash, otherRows, email, oldPassword, newPassword) == ChangeRejected(SameAsOld)
    ensures TableAfterChange(hash, rows, email, oldPassword, newPassword, newSalt) == rows
  {
  }

  /** After a successful change the row is on the salted path with the new
      salt, keeps its active flag and other columns, and logging in with the
      new password succeeds and returns the same public data as before. */
  lemma ChangeThenLogin(hash: Hasher, rows: map<string, Vendor>, email: Option<string>,
                        oldPassword: Option<string>, newPassword: Option<string>, newSalt: string)
    requires ChangeDecision(hash, rows, email, oldPassword, newPassword) == Changed
    requires newSalt != ""
    ensures Truthy(email) && email.value in rows
    ensures var after := TableAfterChange(hash, rows, email, oldPassword, newPassword, newSalt);
            && email.value in after
            && after[email.value].salt == Some(newSalt)
            && after[email.value].password == Some(hash(newPassword.value, newSalt))
            && Truthy(after[email.value].salt)
            && LoginDecision(hash, after, email, newPassword) == LoggedIn(PublicData(rows[email.value]))
  {
  }

  /** A change writes at most the requester's row, and in it only Password
      and Salt; a rejected change writes nothing. */
  lemma ChangeWritesOnlyCredentials(hash: Hasher, rows: map<string, Vendor>, email: Option<string>,
                                    oldPassword: Option<string>, newPassword: Option<string>, newSalt: string)
    ensures var after := TableAfterChange(hash, rows, email, oldPassword, newPassword, newSalt);
            && after.Keys == rows.Keys
            && (forall e :: e in rows && (email.None? || e != email.value) ==> after[e] == rows[e])
            && (forall e :: e in rows ==> after[e].isActive == rows[e].isActive && after[e].columns == rows[e].columns)
            && (ChangeDecision(hash, rows, email, oldPassword, newPassword).ChangeRejected? ==> after == rows)
  {
  }

  /** The Vendor table, read by `/login` and written by `/change-password`. */
  class VendorTable {
    const hash: Hasher
    var rows: map<string, Vendor>

    constructor (hash: Hasher, rows: map<string, Vendor>)
      ensures this.hash == hash && this.rows == rows
    {
      this.hash := hash;
      this.rows := rows;
    }

    /** `POST /login`. */
    method Login(email: Option<string>, password: Option<string>) returns (r: LoginResult)
      ensures r == LoginDecision(hash, rows, email, password)
      ensures r.LoggedIn? ==> r.data.Keys !! SecretColumns
    {
      if !Truthy(email) || !Truthy(password) {
        return LoginRejected(MissingCredentials);
      }
      var businessEmail := email.value;
      if businessEmail !in rows {
        return LoginRejected(LoginError.VendorNotFound);
      }
      var vendor := rows[businessEmail];
      if !vendor.isActive {
        return LoginRejected(LoginError.AccountInactive);
      }
      var isMatch := false;
      if Truthy(vendor.salt) {
        var hashedInput := hash(password.value, vendor.salt.value);
        isMatch := vendor.password == Some(hashedInput);
      } else {
        isMatch := vendor.password == Some(password.value);
      }
      if !isMatch {
        return LoginRejected(PasswordMismatch);
      }
      r := LoggedIn(vendor.columns - SecretColumns);
    }

    /** `POST /change-password`; `randomBytes` is what `crypto.randomBytes(16)`
        returns if the handler gets as far as generating a salt. */
    method ChangePassword(email: Option<string>, oldPassword: Option<string>, newPassword: Option<string>,
                          randomBytes: seq<SaltHex.Byte>) returns (r: ChangeResult)
      requires |randomBytes| == SaltHex.SaltByteCount
      modifies this`rows
      ensures r == ChangeDecision(hash, old(rows), email, oldPassword, newPassword)
      ensures rows == TableAfterChange(hash, old(rows), email, oldPassword, newPassword, SaltHex.GenerateSalt(randomBytes))
      ensures r.ChangeRejected? ==> rows == old(rows)
      ensures r.Changed? ==> LoginDecision(hash, rows, email, newPassword).LoggedIn?
    {
      if !Truthy(email) || !Truthy(oldPassword) || !Truthy(newPassword) {
        return ChangeRejected(MissingFields);
      }
      if !PasswordPolicy.Accepts(newPassword.value) {
        return ChangeRejected(PolicyViolation);
      }
      if newPassword.value == oldPassword.value {
        return ChangeRejected(SameAsOld);
      }
      var businessEmail := email.value;
      if businessEmail !in rows {
        return ChangeRejected(ChangeError.VendorNotFound);
      }
      var vendor := rows[businessEmail];
      if !vendor.isActive {
        return ChangeRejected(ChangeError.AccountInactive);
      }
      var oldMatches := false;
      if Truthy(vendor.salt) {
        oldMatches := vendor.password == Some(hash(oldPassword.value, vendor.salt.value));
      } else {
        oldMatches := vendor.password == Some(oldPassword.value);
      }
      if !oldMatches {
        return ChangeRejected(OldPasswordIncorrect);
      }
      var newSalt := SaltHex.GenerateSalt(randomBytes);
      var newHash := hash(newPassword.value, newSalt);
      rows := rows[businessEmail := vendor.(password := Some(newHash), salt := Some(newSalt))];
      r := Changed;
    }
  }
}
