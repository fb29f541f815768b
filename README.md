# ATTENDIFY core, modelled in Dafny

ATTENDIFY is a QR-code attendance system. A professor opens an attendance
session on the mobile client, which shows a signed, timestamped QR code while
a countdown runs, and students scan it. Accounts are kept by a Django REST
backend with JWT authentication. This project models and proves properties of
the parts of it that make decisions:

- **Countdown** (`countdown.dfy`): the `useCountdown` hook as a class with the
  two state cells `timeLeft` and `isActive` and the operations `start`, `stop`,
  `addTime` and `setTime`. The one-second interval callback is an explicit
  `Tick`. The pure function `Ticked` specifies one tick and `Ticks` specifies
  `n` of them; the lemmas give the closed form of a running countdown.
- **CountdownContext** (`countdown_context.dfy`): the provider as a class that
  wraps a `Countdown` and adds the `sessionId` cell.
- **Helpers** (`helpers.dfy`):
  - `formatTime`, with JavaScript's truncating `%`, `toString` and `padStart`
    written out;
  - `validateEmail`, as a deterministic automaton proved equal to a
    positional description of the regular expression;
  - `camelCaseToSnakeCase`, with `trim`, the ECMAScript white-space class and
    ASCII lower-casing.
- **Qr** (`qr.dfy`): the QR payload, which is generated, validated, and
  serialized to and parsed from JSON. The clock, the HMAC-SHA256 and the JSON
  codec are parameters.
- **Users** (`users.dfy`): roles, the user row, an ideal password credential,
  and the user table as a sequence in primary-key order. The unique
  constraints (username, email, non-null matricule) and sequential ids are an
  invariant of the table.
- **Permissions** (`permissions.dfy`): `IsAdmin` and `IsProfessor` over the
  three things `request.user` can be.
- **Serializers** (`serializers.dfy`): registration, profile update and
  password change validation. Modelled in detail:
  - DRF's order: every field-level check runs and errors are collected, then
    the object-level `validate` runs;
  - the `create` defaults and `normalize_email`.
- **AuthViews** (`auth_views.dfy`): the endpoints.
  - Login, profile, listing, logout's decision and token refresh are
    functions of the table and the blacklist.
  - Registration, logout, password change and profile update are methods of
    the class `Backend`, whose fields are the table and the refresh-token
    blacklist.

`Wrappers` (`wrappers.dfy`) holds `Option` and `Result`.

The model follows the code, including these behaviours a reader may not
expect:

- `IsAdmin`/`IsProfessor` do not refuse Django's `AnonymousUser`. The test
  `request.user and request.user.role == ...` (`backend/users/permissions.py`,
  lines 7-8 and 15-16) finds `AnonymousUser` truthy and then reads a `role`
  it does not have, which raises `AttributeError` (`Permissions.IsAdminExactly`).
  Only a missing user is refused.
- Some registrations pass the serializer and then break a database unique
  constraint. Nothing in `RegisterView.create` catches that, so the answer is a
  500, not a 400:
  - a blank matricule when another row already has one. DRF skips the
    validators of a blank value, so the `UniqueValidator` of
    `backend/users/serializers.py:36-41` never sees it
    (`AuthViews.BlankMatriculeTwice`);
  - an email that differs from a stored one only in the case of its domain.
    The uniqueness check at `backend/users/serializers.py:21-24` compares
    exactly, and `create_user` lowercases the domain afterwards
    (`AuthViews.EmailDomainCaseClash`, `Serializers.ValidatedRowConflicts`).
- The custom message of `validate_role` (`backend/users/serializers.py:57-61`)
  is never produced. The model field's choice check rejects a bad role first,
  and both are keyed `role`.
- A user built without a role gets `ADMIN` (`backend/users/models.py:11`,
  `Users.BareUser`). A registration without a role gets `PROFESSOR`
  (`backend/users/serializers.py:71`, `Serializers.RegisteredRow`).
- The listing needs only authentication. `IsAdmin` is imported by
  `backend/users/urls.py` but applied to no view.

## Model

| member | source | states |
|---|---|---|
| Countdown.Countdown.constructor | frontend/attendify-mobile/src/hooks/useCountdown.ts:13-14 | the countdown starts at 0 seconds and inactive |
| Countdown.Countdown.Start | frontend/attendify-mobile/src/hooks/useCountdown.ts:17-20 | `start(d)` sets `timeLeft` to exactly `d` and makes it active |
| Countdown.Countdown.Stop | frontend/attendify-mobile/src/hooks/useCountdown.ts:22-27 | `stop()` makes it inactive and keeps `timeLeft` |
| Countdown.Countdown.AddTime | frontend/attendify-mobile/src/hooks/useCountdown.ts:29-31 | adds `minutes * 60` seconds; `isActive` unchanged |
| Countdown.Countdown.SetTime | frontend/attendify-mobile/src/hooks/useCountdown.ts:33-35 | sets `minutes * 60` seconds whatever was left; `isActive` unchanged |
| Countdown.Countdown.Tick | frontend/attendify-mobile/src/hooks/useCountdown.ts:37-52 | one elapsed second moves the state to `Ticked` of the old state |
| Countdown.Ticked | frontend/attendify-mobile/src/hooks/useCountdown.ts:37-52 | the state after one second; its three cases are `Countdown.TickedCases` and its iteration is `Countdown.TicksFromStart` |
| Countdown.TickedCases | frontend/attendify-mobile/src/hooks/useCountdown.ts:38-46 | without a running interval nothing changes; with more than one second left it loses exactly one and stays active; otherwise it becomes 0 and inactive |
| Countdown.TicksWhenStopped | frontend/attendify-mobile/src/hooks/useCountdown.ts:48-51 | once inactive or at 0, any number of seconds leaves the state as it is |
| Countdown.TicksFromStart | frontend/attendify-mobile/src/hooks/useCountdown.ts:37-47 | started at `t > 0`, after `n` seconds it shows `t - n` and is active while `n < t`, and shows 0 and is inactive from then on |
| Countdown.TicksStayInRange | frontend/attendify-mobile/src/hooks/useCountdown.ts:41-45 | ticks never take a non-negative `timeLeft` below 0 nor above its start |
| CountdownContext.Provider.constructor | frontend/attendify-mobile/src/contexts/CountdownContext.tsx:30-31 | a fresh countdown in its initial state and no session |
| CountdownContext.Provider.StartCountdown | frontend/attendify-mobile/src/contexts/CountdownContext.tsx:33-36 | remembers the session id and starts the countdown with `timeLeft = d`, active |
| CountdownContext.Provider.StopCountdown | frontend/attendify-mobile/src/contexts/CountdownContext.tsx:38-41 | stops the countdown (keeping `timeLeft`) and resets the session to null |
| CountdownContext.Provider.AddTime | frontend/attendify-mobile/src/contexts/CountdownContext.tsx:49 | only `timeLeft` changes, by `minutes * 60`; the session is untouched |
| CountdownContext.Provider.SetTime | frontend/attendify-mobile/src/contexts/CountdownContext.tsx:50 | only `timeLeft` changes, to `minutes * 60`; the session is untouched |
| CountdownContext.Provider.SetSessionId | frontend/attendify-mobile/src/contexts/CountdownContext.tsx:51 | only the session changes; `timeLeft` and `isActive` are untouched |
| CountdownContext.Provider.Tick | frontend/attendify-mobile/src/contexts/CountdownContext.tsx:30 | a second elapsing in the provider's hook ticks the countdown and leaves the session alone |
| Helpers.JsRem | frontend/attendify-mobile/src/utils/helpers.ts:5 | JavaScript's `%` by a positive divisor: congruent to `a` modulo `b`, in `[0, b)` for non-negative `a` and in `(-b, 0]` for negative `a`, which fixes the value |
| Helpers.FormatTime | frontend/attendify-mobile/src/utils/helpers.ts:3-7 | `formatTime(seconds)`; `Helpers.FormatTimeFields` and `Helpers.FormatTimeRoundTrip` state that it shows the minutes and the two-digit seconds and can be read back |
| Helpers.FormatTimeFields | frontend/attendify-mobile/src/utils/helpers.ts:3-7 | for `s >= 0` the text is digits, ':', two digits; the part before ':' reads as `s div 60` and the part after as `s mod 60` |
| Helpers.FormatTimeSecondsField | frontend/attendify-mobile/src/utils/helpers.ts:5-6 | the seconds field is two digits reading 00..59 |
| Helpers.FormatTimeRoundTrip | frontend/attendify-mobile/src/utils/helpers.ts:3-7 | reading the minutes and seconds back gives `minutes * 60 + seconds == s` |
| Helpers.FormatTimeLength | frontend/attendify-mobile/src/utils/helpers.ts:6 | the text is exactly 5 characters long if and only if `s < 6000` |
| Helpers.IntToStringRoundTrip | frontend/attendify-mobile/src/utils/helpers.ts:6 | the decimal rendering of an integer reads back as that integer |
| Helpers.EmailRunExpected | frontend/attendify-mobile/src/utils/helpers.ts:14 | the automaton's state after any prefix is fixed by where that prefix's '@', white space and usable '.' are |
| Helpers.ValidateEmail | frontend/attendify-mobile/src/utils/helpers.ts:13-16 | the regular-expression test, run as an automaton; `Helpers.ValidateEmailCorrect` proves it equal to the positional description of the pattern |
| Helpers.ValidateEmailCorrect | frontend/attendify-mobile/src/utils/helpers.ts:13-16 | `validateEmail(e)` holds if and only if `e` has one '@' after a non-empty part, a '.' after it with at least one character on each side, and no other '@' and no white space |
| Helpers.ValidEmailParts | frontend/attendify-mobile/src/utils/helpers.ts:13-16 | an accepted address has its first '@' past position 0, no other '@', no white space and a usable '.' after the '@' |
| Helpers.SpaceBeforeCapitals | frontend/attendify-mobile/src/utils/helpers.ts:23 | the result is never shorter, does not start with a capital, and has a space right before every capital |
| Helpers.SpaceBeforeCapitalsUndone | frontend/attendify-mobile/src/utils/helpers.ts:23 | dropping each space that stands right before a capital gives the input back, so the replacement only inserts those spaces |
| Helpers.SpaceBeforeNoCapitals | frontend/attendify-mobile/src/utils/helpers.ts:23 | the replacement leaves a string without capitals unchanged |
| Helpers.TrimProperties | frontend/attendify-mobile/src/utils/helpers.ts:23 | `trim` returns a contiguous part of its input with no white space at either end, everything cut off on either side is white space, and a trimmed string is returned unchanged |
| Helpers.Trim | frontend/attendify-mobile/src/utils/helpers.ts:23 | `trim`; `Helpers.TrimProperties` states it cuts exactly the white space at both ends |
| Helpers.LowerAscii | frontend/attendify-mobile/src/utils/helpers.ts:23 | a lowered character is never a capital, is white space exactly when the input is, and non-capitals are kept |
| Helpers.ToLowerAscii | frontend/attendify-mobile/src/utils/helpers.ts:23 | `toLowerCase` on ASCII letters: keeps the length, and every character is lowered as `Helpers.LowerAscii` states |
| Helpers.CamelCaseOutputShape | frontend/attendify-mobile/src/utils/helpers.ts:22-24 | the result has no ASCII capital and no white space at either end |
| Helpers.CamelCaseToSnakeCase | frontend/attendify-mobile/src/utils/helpers.ts:22-24 | `camelCaseToSnakeCase`; `Helpers.CamelCaseOutputShape` and `Helpers.CamelCaseFixedPoint` state its output shape and its fixed points |
| Helpers.CamelCaseFixedPoint | frontend/attendify-mobile/src/utils/helpers.ts:22-24 | a string without capitals or surrounding white space is returned unchanged |
| Qr.GenerateQrData | frontend/attendify-mobile/src/utils/qrHelpers.ts:11-16 | the payload carries the given session id, the clock reading and the HMAC of the signed message for that pair |
| Qr.ValidateQrData | frontend/attendify-mobile/src/utils/qrHelpers.ts:18-23 | hash recomputed and compared, then the 24-hour freshness test; `Qr.GeneratedValidUntilExpiry`, `Qr.ExpiredRejected` and `Qr.ForgedHashRejected` state when it holds |
| Qr.GeneratedValidUntilExpiry | frontend/attendify-mobile/src/utils/qrHelpers.ts:11-23 | a payload generated at `t` validates at `now` if and only if `now - t < 86400000` |
| Qr.ExpiredRejected | frontend/attendify-mobile/src/utils/qrHelpers.ts:22 | any payload at least 24 hours old is rejected whatever its hash |
| Qr.ForgedHashRejected | frontend/attendify-mobile/src/utils/qrHelpers.ts:18-22 | a hash other than the recomputed HMAC is rejected |
| Qr.FutureTimestampAccepted | frontend/attendify-mobile/src/utils/qrHelpers.ts:22 | a correctly signed payload with a timestamp in the future passes |
| Qr.SignedMessageInjective | frontend/attendify-mobile/src/utils/qrHelpers.ts:13 | distinct (session id, timestamp) pairs give distinct signed messages |
| Qr.TransplantNeedsCollision | frontend/attendify-mobile/src/utils/qrHelpers.ts:18-23 | putting a generated hash on another session or time validates only through an HMAC collision between two different messages |
| Qr.ParseQrDataAccepts | frontend/attendify-mobile/src/utils/qrHelpers.ts:25-35 | a value comes back exactly when JSON parsing succeeds and `sessionId`, `timestamp` and `hash` are all truthy, and it is the parsed value itself |
| Qr.ParseQrData | frontend/attendify-mobile/src/utils/qrHelpers.ts:25-35 | `JSON.parse` in a `try`, then the truthiness guard; `Qr.ParseQrDataAccepts` states exactly when it returns a value |
| Qr.FalsyFieldsRejected | frontend/attendify-mobile/src/utils/qrHelpers.ts:28 | an empty session id or hash, or a zero timestamp, makes parsing return null |
| Qr.StringifyParseRoundTrip | frontend/attendify-mobile/src/utils/qrHelpers.ts:25-39 | with a codec that reads back what it writes, a payload with non-empty fields and a non-zero timestamp survives stringify and parse, and reads back as itself |
| Qr.StringifyQrData | frontend/attendify-mobile/src/utils/qrHelpers.ts:37-39 | `JSON.stringify` of the payload; `Qr.StringifyParseRoundTrip` states that parsing undoes it |
| Qr.ScanGeneratedCode | frontend/attendify-mobile/src/utils/qrHelpers.ts:11-39 | generate, stringify, parse, validate: the scanned code is accepted if and only if less than 24 hours have passed |
| Users.ParseRole | backend/users/models.py:7-9 | a role value is accepted exactly when it is `ADMIN` or `PROFESSOR`, and then it is the stored form of the role |
| Users.RoleValueRoundTrip | backend/users/models.py:7-9 | every role is stored as one of the two values and reads back as itself |
| Users.BareUser | backend/users/models.py:11-13 | a user built without a role gets `ADMIN`, no matricule and empty names |
| Users.Str | backend/users/models.py:16-17 | `__str__`; `Users.StrIdentifiesUser` states it tells the rows of a table apart |
| Users.StrIdentifiesUser | backend/users/models.py:16-17 | in a valid table no two rows have the same string form (the username) |
| Users.FindByUsername | backend/users/auth_views.py:61 | the lookup finds a row with that username exactly when one exists |
| Users.ValidStore | backend/users/models.py:12-13 | the table invariant: sequential ids and no two rows sharing a username, an email or a non-null matricule; `Users.AppendKeepsValid`, `Users.ReplaceKeepsValid` and `AuthViews.Backend.Register` keep it |
| Users.AppendKeepsValid | backend/users/models.py:12-13 | inserting a row with the next id that breaks no unique constraint keeps the table valid |
| Users.ReplaceKeepsValid | backend/users/models.py:12-13 | rewriting a row, keeping its id, without clashing with another row keeps the table valid |
| Permissions.IsAdminExactly | backend/users/permissions.py:7-8 | `IsAdmin` grants exactly to a stored user with role `ADMIN`, and fails with `AttributeError` exactly for the anonymous user |
| Permissions.IsProfessorExactly | backend/users/permissions.py:15-16 | `IsProfessor` grants exactly to a stored user with role `PROFESSOR`, and fails with `AttributeError` exactly for the anonymous user |
| Permissions.RolesExclusive | backend/users/permissions.py:7-16 | no request is granted both; a stored user is granted exactly one |
| Permissions.NoUserRefused | backend/users/permissions.py:7-16 | with no user both refuse without reading a role |
| Permissions.IsAdmin | backend/users/permissions.py:7-8 | `IsAdmin.has_permission`; `Permissions.IsAdminExactly` states to whom it grants |
| Permissions.IsProfessor | backend/users/permissions.py:15-16 | `IsProfessor.has_permission`; `Permissions.IsProfessorExactly` states to whom it grants |
| Serializers.ValidateRegistration | backend/users/serializers.py:21-55 | success exactly when no field check fails and the passwords are equal; a mismatch alone is keyed `password`; the validated data are the submitted values |
| Serializers.MismatchRejected | backend/users/serializers.py:51-55 | differing `password`/`password2` always fail, keyed `password` once the fields pass, however strong the passwords |
| Serializers.InvalidRoleRejected | backend/users/serializers.py:57-61 | a role other than `ADMIN`/`PROFESSOR` fails, keyed `role` |
| Serializers.DuplicateEmailRejected | backend/users/serializers.py:21-24 | an email some row has fails, keyed `email` |
| Serializers.DuplicateMatriculeRejected | backend/users/serializers.py:36-41 | a non-blank matricule some row has fails, keyed `matricule` |
| Serializers.MissingMatriculeAccepted | backend/users/serializers.py:36-41 | an absent or null matricule never fails |
| Serializers.RegisteredRow | backend/users/serializers.py:63-75 | the created row has the submitted username, normalized email and matricule, the submitted role or `PROFESSOR`, the names or `""`, is active, and checks only the submitted password |
| Serializers.NewUser | backend/users/serializers.py:63-75 | the row `create` builds; `Serializers.RegisteredRow` states its columns and defaults |
| Serializers.Password2NotStored | backend/users/serializers.py:65 | the created row does not depend on `password2` |
| Serializers.NormalizeEmailProperties | backend/users/serializers.py:66-68 | normalization keeps the length and the part up to the last '@', and normalizing twice changes nothing more |
| Serializers.NormalizeEmail | backend/users/serializers.py:66-74 | `normalize_email` as `create_user` applies it: the domain after the last '@' lower-cased; `Serializers.NormalizeEmailProperties` states what it keeps |
| Serializers.ValidatedRowConflicts | backend/users/serializers.py:63-75 | a validated row breaks a unique constraint only through a blank matricule or an email that matches a stored one after normalization |
| Serializers.ValidateProfileUpdate | backend/users/serializers.py:9-15 | success exactly when no field check fails; the sent fields are applied, absent ones kept, and id, password, active flag and join date never change |
| Serializers.FullUpdateNeedsRequiredFields | backend/users/serializers.py:14 | a full (PUT) update without username or email fails |
| Serializers.EmptyPatchKeepsRow | backend/users/auth_views.py:138-143 | a partial update sending nothing returns the row unchanged |
| Serializers.ValidatePasswordChange | backend/users/serializers.py:89-120 | success exactly when the field checks pass (old password correct, new one strong) and the new passwords agree; a mismatch alone is keyed `new_password` |
| Serializers.WrongOldPasswordRejected | backend/users/serializers.py:115-120 | an old password the credential does not check fails, keyed `old_password` |
| Serializers.NewPasswordMismatchRejected | backend/users/serializers.py:109-113 | differing new passwords fail, keyed `new_password` once the fields pass |
| AuthViews.Represent | backend/users/serializers.py:12-15 | the representation keeps id, username and email and shows the role as its stored value |
| AuthViews.Authenticate | backend/users/auth_views.py:98 | a request authenticates as an existing active row whose id its access token carries |
| AuthViews.LoginMissingFields | backend/users/auth_views.py:53-54 | a missing or blank username or password gives 400 keyed by the failing fields |
| AuthViews.LoginUnknownUser | backend/users/auth_views.py:87-90 | an unknown username gives 401 "Invalid username or password" |
| AuthViews.LoginInactiveUser | backend/users/auth_views.py:60-66 | a disabled account gives 403 whatever the password, the correct one included |
| AuthViews.LoginWrongPassword | backend/users/auth_views.py:83-90 | a wrong password for an active account gives the same 401 response as an unknown username |
| AuthViews.LoginSuccess | backend/users/auth_views.py:69-82 | an active account with its password gives 200, its representation, and a token pair issued for its id |
| AuthViews.LoginSucceedsExactly | backend/users/auth_views.py:52-90 | login answers 200 if and only if a stored active account has that username and password, and the tokens are issued for that account |
| AuthViews.Login | backend/users/auth_views.py:52-90 | `LoginView.post`; `AuthViews.LoginSucceedsExactly` and the `Login...` lemmas state its answers |
| AuthViews.LogoutRevokesOnSuccess | backend/users/auth_views.py:100-116 | logout answers 200 exactly for an authenticated caller with a valid, not yet blacklisted refresh token, and then revokes exactly that token; otherwise it revokes nothing |
| AuthViews.LogoutWithoutToken | backend/users/auth_views.py:102-112 | without `refresh_token` the answer is 400 "Refresh token is required" and nothing is revoked |
| AuthViews.LogoutTwice | backend/users/auth_views.py:113-116 | logging the same token out again gives 400 "Invalid token or token already blacklisted" |
| AuthViews.LogoutIgnoresOwner | backend/users/auth_views.py:100-108 | the outcome is the same for every authenticated caller: the token's owner is never compared with the caller |
| AuthViews.LogoutResponse | backend/users/auth_views.py:100-116 | `LogoutView.post`'s answer; `AuthViews.LogoutRevokesOnSuccess`, `AuthViews.LogoutWithoutToken` and `AuthViews.LogoutTwice` state its cases |
| AuthViews.RevocationIsPermanent | backend/users/urls.py:28 | a refresh token that logout accepted was honoured before and is refused with 401 for every later blacklist |
| AuthViews.RefreshResponse | backend/users/urls.py:28 | the refresh endpoint: 400 without a token, 401 for an undecodable or blacklisted one, else a new access token; `AuthViews.RevocationIsPermanent` ties it to logout |
| AuthViews.ProfileIsOwnRow | backend/users/auth_views.py:128-136 | the profile is the caller's own active row; no token gives 401 |
| AuthViews.GetProfile | backend/users/auth_views.py:131-136 | `retrieve`; `AuthViews.ProfileIsOwnRow` states it shows the caller's own row |
| AuthViews.ListUsersComplete | backend/users/auth_views.py:173-188 | any authenticated user, whatever the role, gets every row in table order and `count` equal to the number of rows |
| AuthViews.ListUsersNeedsAuthentication | backend/users/auth_views.py:180 | a caller whose token names no active row gets 401 |
| AuthViews.ListUsers | backend/users/auth_views.py:173-188 | `UserListView.list`; `AuthViews.ListUsersComplete` and `AuthViews.ListUsersNeedsAuthentication` state both of its answers |
| AuthViews.Backend.CreateUser | backend/users/serializers.py:63-75 | inserts the created row unless it breaks a unique constraint; otherwise the table is unchanged |
| AuthViews.Backend.Register | backend/users/auth_views.py:26-41 | 400 with the validation errors; 500 on a constraint violation; otherwise exactly one row added and 201 with its representation and tokens for its id; the table stays valid |
| AuthViews.Backend.Logout | backend/users/auth_views.py:100-116 | the response is `LogoutResponse`, the blacklist grows by `LogoutRevokes`, and the table is unchanged |
| AuthViews.Backend.ChangePassword | backend/users/auth_views.py:159-170 | 401 without authentication, 400 with the validation errors, otherwise only the caller's credential is replaced by the new password; the blacklist is unchanged |
| AuthViews.Backend.UpdateProfile | backend/users/auth_views.py:138-148 | 401, 400, or 500 leave the table unchanged; otherwise only the caller's row is replaced by the validated update and returned |
| AuthViews.OnlyNewPasswordLogsIn | backend/users/auth_views.py:159-170 | after the change, login with a password succeeds if and only if it is the new one |
| AuthViews.RegisteredUserCanLogIn | backend/users/auth_views.py:26-82 | a just-registered user logs in with the submitted username and password and gets tokens for the new id |
| AuthViews.RegisteredUserProfile | backend/users/auth_views.py:26-41 | the access token issued at registration, carrying the new id, shows the row registration stored |
| AuthViews.BlankMatriculeTwice | backend/users/serializers.py:36-41 | a second blank matricule passes validation and then breaks the unique constraint |
| AuthViews.EmailDomainCaseClash | backend/users/serializers.py:21-24 | an email matching a stored one only after domain lower-casing passes validation and then breaks the unique constraint |

## Left out

- Timing: `setInterval`, React's batching and effect scheduling. One elapsed second is the explicit `Tick`. The throw in `useCountdownContext` outside a provider is context plumbing and is not modelled.
- Numbers: durations, minutes and seconds are unbounded integers. Fractional JavaScript numbers, `NaN` and the exponent notation `toString` uses from 1e21 on are not modelled.
- `generateRandomId` depends on `Math.random`, and `showAlert` is a UI side effect; neither is modelled.
- Helpers.LowerAscii: lower-cases ASCII capitals only, while `toLowerCase` also maps non-ASCII capitals. Such a capital is not matched by `[A-Z]` and would survive in the model's output.
- Helpers.IsJsWhitespace: covers the ECMAScript white-space and line-terminator code points listed in the file. The `\s` class follows the Unicode `Zs` category of the engine's Unicode version.
- `Date.now()`, `CryptoJS.HmacSHA256`, `JSON.parse` and `JSON.stringify` are parameters. The QR payload is modelled with integer numbers only.
- Qr.FromJson: reads a parsed object back only when its three properties have the intended types. The source hands any truthy values to `validateQrData`, for example a string timestamp; such values are not followed through validation.
- The screens, services, constants and app shell are not part of this model.
- Django internals are parameters or ideal:
  - password hashing is an ideal credential that checks exactly the password it was made from;
  - `validate_password`, the email address validator and the username character validator are parameters.
- Field processing by DRF and Django: whitespace trimming of text fields, the `max_length` limits and `normalize_username`'s Unicode normalization are not modelled. Field values are taken as they arrive after trimming.
- Serializers.NormalizeEmail: lowercases ASCII letters only, where Python's `lower()` maps every Unicode capital. It also omits the `strip()` of `normalize_email`, since values arrive trimmed.
- JWT handling belongs to simplejwt. Signing, expiry, the access token's claims, refresh-token rotation and last-login updates are outside the model. A request's access token appears as the user id it carries. A refresh token string is decoded by a parameter, which yields its user id and identifier.
- Request bodies are objects whose fields are absent, null or strings. Non-object bodies and non-string values are not modelled. In the source DRF's text fields would read a number as its decimal string, and logout would treat a falsy `refresh_token` such as `0` or `false` as missing.
- AuthViews.ListUsers, AuthViews.ListUsersComplete: the listing's order is not specified by the source. Its query `User.objects.all()` has no `order_by` and the user model no default ordering, so the database may return the rows in any order. The model fixes the table's primary-key order, and `ListUsersComplete` proves that order.
- Database concurrency and duplicate-key races are out of scope. The table is changed one request at a time.
- Users.ValidStore: ids are exactly 1, 2, 3, ... in table order. This assumes that an insert that fails consumes no id. In PostgreSQL a rolled-back insert, such as the 500 of a constraint violation, still advances the sequence, and the next row's id skips a value. No property of the model depends on the ids being consecutive rather than increasing.
- AuthViews.Login, AuthViews.Backend.Register: the request's own `Authorization` header is not modelled. DRF authenticates every request before the view runs, even under `AllowAny`. An invalid or expired bearer token therefore gets a 401 from `JWTAuthentication` before login or registration is reached, and the mobile client attaches its stored token to every request. The model's `Login` and `Register` describe requests that carry no token or a valid one.
- `backend/users/tests.py` is evidence for the properties, not modelled code.
