# Vendor credentials: login, change password and the password policy

A Dafny model of the credential logic of the VOS vendor portal:

- the `/login` handler of `backend/routes/users.js`, which rejects missing input, an unknown
  BusinessEmail, an inactive account and a wrong password, in that order, and on success returns
  the Vendor row without its secret fields;
- the `/change-password` handler of the same file. It checks missing fields, the password policy,
  a new password equal to the submitted old one, the vendor lookup, the active flag and the old
  password, in that order. If all pass, it overwrites the row's Password and Salt with a hash of
  the new password under a fresh salt;
- the change-password page `frontend/src/pages/ChangePassword.jsx`, with its policy expression,
  its requirement checklist, its three-step submit gate and its handling of the server's reply.

Both the server and the page test the same regular expression,
`^(?=.*[a-z])(?=.*[A-Z])(?=.*\d)(?=.*[@$!%*?&]).{8,}$`. The model defines it once, in
`PasswordPolicy.Accepts`, and both sides use that one predicate. So the client policy and the
server policy accept the same strings by construction. `Accepts` follows the matcher: four
lookaheads, each scanning over `.` for a character of its class, then `.{8,}$`. Here `.` is any
character except `\n`, `\r`, U+2028 and U+2029. `PasswordPolicy.AcceptsMeaning` states what it
accepts rule by rule.

Values are modelled as follows:

- Absent request fields and NULL columns are `JsValues.Option`. JavaScript's truthiness test is
  `JsValues.Truthy`: null, undefined and `""` are falsy.
- The Vendor table is a map from BusinessEmail to a `Users.Vendor`, which holds Password, Salt,
  the active flag and the remaining columns. It lives in the class `Users.VendorTable`, whose
  `ChangePassword` method updates the map in place.
- `hashPassword` is an arbitrary function `hash` fixed for the table. Nothing is assumed about it.
- `generateSalt` is `SaltHex.GenerateSalt`: the hex rendering of the 16 bytes the random source
  produced. The bytes are a parameter.
- The page is the class `ChangePasswordPage.PageState`. Its fields are the form, the two messages
  and the checklist. `HandleSubmit` returns the request it would post instead of calling the
  server. `HandleReply` takes what that call produced.

Some behaviour of the code is worth stating on its own:

- The change-password handler checks the policy and the same-as-old rule before it looks the
  vendor up and before the active check.
- Login reports success or a failure kind and nothing else; it does not say which comparison rule
  was used.
- Secrets are compared with plain string equality.
- An unknown email gets its own message: 401 "Invalid credentials - vendor not found" at login
  and 404 "Vendor not found" at change-password. So whether an account exists can be observed.
- After a successful change the page empties the three fields but does not recompute the
  checklist. `PageState.HandleReply` keeps `validations` unchanged, as the code does.

## Model

| member | source | states |
|---|---|---|
| `PasswordPolicy.LookaheadFindsMeaning` | frontend/src/pages/ChangePassword.jsx:8 | a lookahead `(?=.*[k])` succeeds iff some character of class k is preceded only by non-line-terminators |
| `PasswordPolicy.DotsToEndMeaning` | frontend/src/pages/ChangePassword.jsx:8 | `.{n,}$` matches iff the string has at least n characters and no line terminator |
| `PasswordPolicy.AcceptsMeaning` | frontend/src/pages/ChangePassword.jsx:8 | the policy expression accepts a password iff it has at least 8 characters, no line terminator, a lower-case letter, an upper-case letter, a digit and one of `@$!%*?&` |
| `JsValues.Truthy` | backend/routes/users.js:25 | null, undefined and the empty string are falsy and every other string is truthy, as in the `!BusinessEmail` and `if (vendorSalt)` tests |
| `PasswordPolicy.Accepts` | backend/routes/users.js:164 | `policyRegex.test`, the one expression both server and page test: an accepted password has at least 8 characters, no line terminator and a character of each of the four classes |
| `SaltHex.HexEncode` | backend/routes/users.js:11 | `toString('hex')` yields two lower-case hex digits per byte |
| `SaltHex.HexEncodeInjective` | backend/routes/users.js:11 | two byte strings with the same hex rendering are equal |
| `SaltHex.GenerateSalt` | backend/routes/users.js:10-12 | a salt is 32 lower-case hex characters, so it is never empty and a row carrying it is on the salted path |
| `SaltHex.DistinctBytesGiveDistinctSalts` | backend/routes/users.js:10-12 | different random bytes give different salts |
| `Users.PasswordMatches` | backend/routes/users.js:80-87 | a supplied password matches iff the stored password is non-null and equals its hash under the row's salt when the salt is truthy, or the supplied value itself when the salt is null or empty (the same rule is used at lines 197-202) |
| `Users.PublicData` | backend/routes/users.js:100 | the returned row has none of Password, password, Salt, salt and keeps every other column with its value |
| `Users.LoginError.Status` | backend/routes/users.js:25-95 | login failures answer 400 for missing input and 401 for every other failure |
| `Users.LoginError.Message` | backend/routes/users.js:25-95 | each login failure carries its non-empty error text |
| `Users.LoginMessagesDistinct` | backend/routes/users.js:46-95 | no two login failures share a message, so an unknown email, an inactive account and a wrong password are told apart |
| `Users.LoginDecision` | backend/routes/users.js:19-126 | login succeeds iff both inputs are truthy, the row exists, is active and the password matches it; a success carries no secret field |
| `Users.LoginRequiresBothInputs` | backend/routes/users.js:25-31 | an empty or missing email or password gets 400, whatever the table holds |
| `Users.LoginUnknownVendor` | backend/routes/users.js:46-52 | an email with no row gets 401 "vendor not found" |
| `Users.LoginInactiveRejected` | backend/routes/users.js:66-73 | an inactive row gets "Account is not active" with the same result for every password and hash, so no comparison decides it |
| `Users.LoginSalted` | backend/routes/users.js:80-95 | on an active salted row login succeeds iff the stored password is the hash of the supplied one under the row's salt, and fails otherwise with "password mismatch" |
| `Users.LoginLegacy` | backend/routes/users.js:84-95 | on an active row whose salt is null or empty, login succeeds iff the stored password equals the supplied one verbatim |
| `Users.LoginResponseHasNoSecrets` | backend/routes/users.js:100-118 | a successful login returns the row's columns minus the four secret fields |
| `Users.VendorTable.Login` | backend/routes/users.js:19-126 | the step-by-step handler returns exactly the login decision, and its data never holds a secret field |
| `Users.ChangeError.Status` | backend/routes/users.js:156-206 | change-password failures answer 400 for the three request checks, 404 for a missing row and 401 for an inactive row or a wrong old password |
| `Users.ChangeError.Message` | backend/routes/users.js:156-206 | each change-password failure carries its non-empty error text |
| `Users.ChangeDecision` | backend/routes/users.js:152-206 | a change goes through iff all fields are truthy, the policy accepts the new password, it differs from the old one, the row exists and is active, and the old password matches the row |
| `Users.ChangeOldPasswordSalted` | backend/routes/users.js:193-206 | on a salted row that reaches the last check, "Old password is incorrect" is returned iff the stored password is not the hash of the old one under the row's salt |
| `Users.ChangeOldPasswordLegacy` | backend/routes/users.js:197-206 | on a row whose salt is null or empty, the last check passes iff the stored password is the submitted old one verbatim |
| `Users.Rehashed` | backend/routes/users.js:209-216 | the updated row keeps its active flag and columns, holds the new salt, and with a non-empty salt authenticates the new password by the salted path |
| `Users.TableAfterChange` | backend/routes/users.js:209-218 | the table keeps its keys, is unchanged after a rejection, and after success holds the hash of the new password for the requester |
| `Users.ChangeFirstFailureWins` | backend/routes/users.js:156-206 | the checks run in the order missing, policy, same-as-old, vendor (404), active, old password; the result is the first failing check, and the change goes through iff all six pass |
| `Users.SameAsOldWithoutLookup` | backend/routes/users.js:171-181 | a new password equal to the old one is rejected with the same result for every table and every hash, and nothing is written |
| `Users.ChangeThenLogin` | backend/routes/users.js:209-218 | after a successful change the row holds the new salt and the hash of the new password under it, and logging in with the new password succeeds by the salted path with the same public data |
| `Users.ChangeWritesOnlyCredentials` | backend/routes/users.js:213-216 | a change writes only the requester's Password and Salt, keeps the active flag and the other columns, and a rejected change writes nothing |
| `Users.VendorTable.ChangePassword` | backend/routes/users.js:152-223 | the step-by-step handler returns the change decision, leaves the table as `TableAfterChange` says (unchanged on every failure), and after success the new password logs in |
| `ChangePasswordPage.UpdateValidation` | frontend/src/pages/ChangePassword.jsx:41-51 | `length` holds iff the new password has at least 8 characters, and `upper`, `lower`, `number` and `special` each iff it contains a character of that class; the five together hold when the policy accepts, and for a password without line terminators only when it accepts; `different` holds iff both passwords are non-empty and unequal, `matched` iff new and confirm are non-empty and equal |
| `ChangePasswordPage.SubmitCheck` | frontend/src/pages/ChangePassword.jsx:67-76 | the gate passes iff the policy accepts, new differs from old and new equals confirm; the first failing check, in that order, gives the message |
| `ChangePasswordPage.ChecklistAgreesWithSubmit` | frontend/src/pages/ChangePassword.jsx:41-76 | an all-green checklist on a password without line terminators passes the gate, and a form that passes the gate with a non-empty old password shows an all-green checklist |
| `ChangePasswordPage.PageState.constructor` | frontend/src/pages/ChangePassword.jsx:17-33 | the page starts with empty fields and messages and every flag false |
| `ChangePasswordPage.PageState.HandleChange` | frontend/src/pages/ChangePassword.jsx:53-60 | an edit stores the field, recomputes the checklist from the updated form and clears both messages |
| `ChangePasswordPage.PageState.HandleSubmit` | frontend/src/pages/ChangePassword.jsx:62-84 | submit clears the messages; a failing gate shows its message and sends nothing; otherwise it sends the email, old and new password, and the form stays as it was |
| `ChangePasswordPage.PageState.HandleReply` | frontend/src/pages/ChangePassword.jsx:86-95 | a success reply shows the success message and empties all three fields; any other reply or thrown error shows its message or the fallback and changes no field |
| `ClientServer.SubmittedRequestPassesServerPolicy` | backend/routes/users.js:163-176 | a request the page lets through is never rejected by the server for policy or sameness |
| `ClientServer.SubmittedChangeLogsIn` | backend/routes/users.js:152-218 | a request the page sends for an active row whose password is the old one changes the password, and the new password then logs in |

## Left out

- PBKDF2 with SHA-512 and `crypto.randomBytes` (backend/routes/users.js:10-16) are foreign crypto calls. The hash is an arbitrary function and the random bytes are a parameter, so determinism holds trivially. Collision resistance and salt uniqueness are not stated.
- Database queries, Express routing, the HTTP plumbing and the 500 responses of the `catch` blocks are not modelled. Results are modelled as error kinds with their status codes and messages.
- The lookup is an exact map lookup by BusinessEmail. The SQL `WHERE` comparison may be case- or trailing-space-insensitive, depending on the collation. Several rows with one email, of which the code takes the first, are not modelled either.
- `/vendors` (backend/routes/users.js:128-149) is a plain table read.
- Logging is not modelled: neither `debugLog` (backend/routes/users.js:7 and throughout) nor the `console.error` calls. Outside production, line 55 logs the whole Vendor row, Password and Salt included. So "no secret field" is a property of the HTTP response only.
- Users.VendorTable.ChangePassword: the handler is modelled as one atomic step. In the code the SELECT (backend/routes/users.js:179) and the UPDATE (backend/routes/users.js:213) are awaited separately, and other requests may run in between. Two changes with the same correct old password can both succeed, with the last UPDATE winning, and a row deleted between the two queries still gets a success reply. So "after success the new password logs in" holds only when no other request touches the row between the lookup and the UPDATE. The same goes for `Users.ChangeThenLogin` and `ClientServer.SubmittedChangeLogsIn`.
- The renaming of response fields (backend/routes/users.js:103-112) is not modelled, nor the `Is_Active || is_active` and `Password ?? password` casing fallbacks. The row has one canonical shape, and `isActive` is the truthiness of the active column.
- Request fields that are neither strings nor absent (numbers, objects in the JSON body) are not modelled.
- Strings are sequences of characters. A character outside the Basic Multilingual Plane counts once here, but JavaScript's `.length` and `.` see it as two UTF-16 code units.
- The page's JSX rendering, the redirect in `useEffect`, the `loading` flag and the `userAPI` service are not modelled. backend/scripts/set-default-passwords.js and frontend/src/components/Sidebar.jsx are not part of this model.
- Constant-time comparison and hiding whether an account exists are not properties of this code, so they are not stated.
