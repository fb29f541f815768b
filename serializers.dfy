/**
 * The request validation of the registration, profile and password-change
 * serializers, and the row that registration creates.
 *
 * Field-level checks (required, not null, not blank, the delegated
 * validators, the uniqueness validators, the role choices) run on every
 * field and their errors are collected together; the object-level
 * `validate` (the password match) runs only when no field failed.
 */
module Serializers {
  import opened Wrappers
  import opened Users
  import Helpers

  /** The request fields that errors are keyed by (`Refresh` is the token-refresh endpoint's field). */
  datatype Field =
    | Username | Email | Password | Password2 | Matricule | RoleField
    | FirstName | LastName | OldPassword | NewPassword | NewPassword2 | Refresh

  /** A submitted field: missing from the body, JSON `null`, or a string. */
  datatype Input = Absent | Null | Value(s: string)

  /**
   * The checks the serializers delegate to framework code: Django's
   * `validate_password`, the email address validator, and the username
   * character validator of the user model.
   */
  datatype Validators = Validators(
    strongPassword: string -> bool,
    wellFormedEmail: string -> bool,
    wellFormedUsername: string -> bool)

  /** A required text field that passes: present, not null, not blank. */
  predicate Given(x: Input) { x.Value? && x.s != "" }

  /**
   * The matricule field: optional, nullable and blank-allowed. A blank
   * value skips the field's validators, so only a non-blank value is
   * checked against the other rows (all but `skip`).
   */
  predicate MatriculeAccepted(users: seq<User>, x: Input, skip: nat)
  {
    match x
    case Absent => true
    case Null => true
    case Value(s) => s == "" || !MatriculeTaken(users, s, skip)
  }

  /** The role field: optional (the column has a default), but when sent it must be one of the choices. */
  predicate RoleAccepted(x: Input)
  {
    x.Absent? || (x.Value? && ParseRole(x.s).Some?)
  }

  /** What an optional, nullable field contributes to the validated data. */
  function Optional(x: Input): Option<string>
  {
    if x.Value? then Some(x.s) else None
  }

  // ---------------------------------------------------------------------
  // Registration
  // ---------------------------------------------------------------------

  datatype RegistrationRequest = RegistrationRequest(
    username: Input, email: Input, password: Input, password2: Input,
    matricule: Input, role: Input, firstName: Input, lastName: Input)

  /** The validated data; `None` marks a key absent from it. */
  datatype Registration = Registration(
    username: string, email: string, password: string, password2: string,
    matricule: Option<string>, role: Option<Role>,
    firstName: Option<string>, lastName: Option<string>)

  /** The field-level errors of a registration request against the current table. */
  function RegistrationFieldErrors(users: seq<User>, req: RegistrationRequest, v: Validators): set<Field>
  {
    (if Given(req.username) && v.wellFormedUsername(req.username.s) && !UsernameTaken(users, req.username.s, |users|)
     then {} else {Username})
    + (if Given(req.email) && v.wellFormedEmail(req.email.s) && !EmailTaken(users, req.email.s, |users|)
       then {} else {Email})
    + (if Given(req.password) && v.strongPassword(req.password.s) then {} else {Password})
    + (if Given(req.password2) then {} else {Password2})
    + (if MatriculeAccepted(users, req.matricule, |users|) then {} else {Matricule})
    + (if RoleAccepted(req.role) then {} else {RoleField})
    + (if req.firstName.Null? then {FirstName} else {})
    + (if req.lastName.Null? then {LastName} else {})
  }

  /** `is_valid()` on the registration serializer: the validated data, or the keys of the errors. */
  function ValidateRegistration(users: seq<User>, req: RegistrationRequest, v: Validators): (r: Result<Registration, set<Field>>)
    ensures r.Success? <==> RegistrationFieldErrors(users, req, v) == {} && req.password == req.password2
    ensures r.Failure? ==> r.error != {}
    ensures r.Failure? && RegistrationFieldErrors(users, req, v) == {} ==> r.error == {Password}
    ensures r.Success? ==> r.value.username == req.username.s && r.value.email == req.email.s
                           && r.value.password == req.password.s && r.value.matricule == Optional(req.matricule)
  {
    var errors := RegistrationFieldErrors(users, req, v);
    if errors != {} then Failure(errors)
    else if req.password.s != req.password2.s then Failure({Password})
    else Success(Registration(
      req.username.s, req.email.s, req.password.s, req.password2.s,
      Optional(req.matricule),
      if req.role.Value? then ParseRole(req.role.s) else None,
      Optional(req.firstName), Optional(req.lastName)))
  }

  /** Index of the last '@' in `s`, if any. */
  function LastAt(s: string): (r: Option<nat>)
    ensures r.Some? ==> r.value < |s| && s[r.value] == '@' && '@' !in s[r.value + 1..]
    ensures r.None? ==> '@' !in s
  {
    if |s| == 0 then None
    else if s[|s| - 1] == '@' then Some(|s| - 1)
    else
      var r := LastAt(s[..|s| - 1]);
      assert s == s[..|s| - 1] + [s[|s| - 1]];
      r
  }

  /**
   * `normalize_email`: the part after the last '@' is lowercased (ASCII
   * letters), the rest is kept; an address without '@' is kept whole.
   */
  function NormalizeEmail(email: string): string
  {
    match LastAt(email)
    case None => email
    case Some(k) => email[..k + 1] + Helpers.ToLowerAscii(email[k + 1..])
  }

  /** Normalizing keeps the mailbox part and the length, and changes no address twice. */
  lemma NormalizeEmailProperties(email: string)
    ensures |NormalizeEmail(email)| == |email|
    ensures LastAt(email).Some? ==> NormalizeEmail(email)[..LastAt(email).value + 1] == email[..LastAt(email).value + 1]
    ensures NormalizeEmail(NormalizeEmail(email)) == NormalizeEmail(email)
  {
    match LastAt(email)
    case None =>
    case Some(k) =>
      var n := NormalizeEmail(email);
      var low := Helpers.ToLowerAscii(email[k + 1..]);
      LowerAsciiFacts(email[k + 1..]);
      assert n == email[..k] + "@" + low;
      LastAtAfter(email[..k], low);
      assert n[..k + 1] == email[..k + 1] && n[k + 1..] == low;
  }

  /** Lower-casing neither introduces an '@' nor changes an already lower-cased string. */
  lemma LowerAsciiFacts(s: string)
    ensures '@' !in s ==> '@' !in Helpers.ToLowerAscii(s)
    ensures Helpers.ToLowerAscii(Helpers.ToLowerAscii(s)) == Helpers.ToLowerAscii(s)
  {
    var r := Helpers.ToLowerAscii(s);
    assert forall i :: 0 <= i < |r| ==> r[i] == Helpers.LowerAscii(s[i]);
    assert forall i :: 0 <= i < |r| ==> Helpers.LowerAscii(r[i]) == r[i];
  }

  /** The last '@' of `p + "@" + q` when `q` holds none. */
  lemma LastAtAfter(p: string, q: string)
    requires '@' !in q
    ensures LastAt(p + "@" + q) == Some(|p|)
    decreases |q|
  {
    var s := p + "@" + q;
    if |q| > 0 {
      assert s[..|s| - 1] == p + "@" + q[..|q| - 1];
      LastAtAfter(p, q[..|q| - 1]);
    }
  }

  /**
   * `create`: drop `password2`, then `create_user` with the role defaulting
   * to `PROFESSOR`, the names to `""`, the email normalized and the
   * password hashed.
   */
  function NewUser(d: Registration, id: nat, now: int): User
  {
    User(
      id, d.username, NormalizeEmail(d.email), d.matricule,
      if d.role.Some? then d.role.value else Professor,
      if d.firstName.Some? then d.firstName.value else "",
      if d.lastName.Some? then d.lastName.value else "",
      true, MakePassword(d.password), now)
  }

  /**
   * The row a successful registration creates carries exactly what was
   * submitted: the username, the normalized email, the matricule (null or
   * absent becoming null), the submitted role or `PROFESSOR`, the names or
   * `""`; the only password that checks is the submitted one.
   */
  lemma RegisteredRow(users: seq<User>, req: RegistrationRequest, v: Validators, id: nat, now: int)
    requires ValidateRegistration(users, req, v).Success?
    ensures var u := NewUser(ValidateRegistration(users, req, v).value, id, now);
      && u.username == req.username.s
      && u.email == NormalizeEmail(req.email.s)
      && (req.matricule.Value? ==> u.matricule == Some(req.matricule.s))
      && (!req.matricule.Value? ==> u.matricule == None)
      && (req.role.Absent? ==> u.role == Professor)
      && (req.role.Value? ==> RoleValue(u.role) == req.role.s)
      && (req.firstName.Value? ==> u.firstName == req.firstName.s)
      && (req.firstName.Absent? ==> u.firstName == "")
      && (req.lastName.Value? ==> u.lastName == req.lastName.s)
      && (req.lastName.Absent? ==> u.lastName == "")
      && u.isActive
      && (forall p :: CheckPassword(u.password, p) <==> p == req.password.s)
  {
  }

  /** `password2` is dropped: the created row does not depend on it. */
  lemma Password2NotStored(d: Registration, other: string, id: nat, now: int)
    ensures NewUser(d.(password2 := other), id, now) == NewUser(d, id, now)
  {
  }

  /** A password mismatch fails registration keyed `password`, however strong either password is. */
  lemma MismatchRejected(users: seq<User>, req: RegistrationRequest, v: Validators)
    requires req.password != req.password2
    ensures ValidateRegistration(users, req, v).Failure?
    ensures RegistrationFieldErrors(users, req, v) == {} ==> ValidateRegistration(users, req, v).error == {Password}
  {
  }

  /** A role outside the two choices fails registration keyed `role`. */
  lemma InvalidRoleRejected(users: seq<User>, req: RegistrationRequest, v: Validators)
    requires req.role.Value? && req.role.s != "ADMIN" && req.role.s != "PROFESSOR"
    ensures ValidateRegistration(users, req, v).Failure?
    ensures RoleField in ValidateRegistration(users, req, v).error
  {
  }

  /** An email some row already has, letter for letter, fails registration keyed `email`. */
  lemma DuplicateEmailRejected(users: seq<User>, req: RegistrationRequest, v: Validators, i: nat)
    requires i < |users| && req.email == Value(users[i].email)
    ensures ValidateRegistration(users, req, v).Failure?
    ensures Email in ValidateRegistration(users, req, v).error
  {
  }

  /** A non-blank matricule some row already has fails registration keyed `matricule`. */
  lemma DuplicateMatriculeRejected(users: seq<User>, req: RegistrationRequest, v: Validators, i: nat)
    requires i < |users| && users[i].matricule.Some? && users[i].matricule.value != ""
    requires req.matricule == Value(users[i].matricule.value)
    ensures ValidateRegistration(users, req, v).Failure?
    ensures Matricule in ValidateRegistration(users, req, v).error
  {
  }

  /** An absent or null matricule never fails registration. */
  lemma MissingMatriculeAccepted(users: seq<User>, req: RegistrationRequest, v: Validators)
    requires !req.matricule.Value?
    ensures Matricule !in RegistrationFieldErrors(users, req, v)
  {
  }

  /**
   * The database constraints can still refuse a validated row, but only in
   * two ways the validators miss: a blank matricule (whose validators are
   * skipped) or an email that another row matches once its domain is
   * lowercased.
   */
  lemma ValidatedRowConflicts(users: seq<User>, req: RegistrationRequest, v: Validators, now: int)
    requires ValidateRegistration(users, req, v).Success?
    requires CollidesWithOthers(users, NewUser(ValidateRegistration(users, req, v).value, |users| + 1, now), |users|)
    ensures req.matricule == Value("") || EmailTaken(users, NormalizeEmail(req.email.s), |users|)
  {
    var u := NewUser(ValidateRegistration(users, req, v).value, |users| + 1, now);
    var i :| 0 <= i < |users| && i != |users| && Collide(users[i], u);
    assert users[i].username != u.username;
  }

  // ---------------------------------------------------------------------
  // Profile update (the user serializer)
  // ---------------------------------------------------------------------

  /** The writable fields of the user serializer; `id` and `date_joined` are read-only. */
  datatype ProfileUpdate = ProfileUpdate(
    username: Input, email: Input, matricule: Input, role: Input,
    firstName: Input, lastName: Input)

  /** A required field of the user serializer: must be sent on a full update, may be left out of a partial one. */
  predicate RequiredAccepted(x: Input, partial: bool, ok: string -> bool)
  {
    (x.Absent? && partial) || (Given(x) && ok(x.s))
  }

  /** The field-level errors of an update of row `k`; uniqueness ignores that row itself. */
  function ProfileFieldErrors(users: seq<User>, k: nat, req: ProfileUpdate, partial: bool, v: Validators): set<Field>
  {
    (if RequiredAccepted(req.username, partial, v.wellFormedUsername)
        && !(req.username.Value? && UsernameTaken(users, req.username.s, k))
     then {} else {Username})
    + (if RequiredAccepted(req.email, partial, v.wellFormedEmail)
          && !(req.email.Value? && EmailTaken(users, req.email.s, k))
       then {} else {Email})
    + (if MatriculeAccepted(users, req.matricule, k) then {} else {Matricule})
    + (if RoleAccepted(req.role) then {} else {RoleField})
    + (if req.firstName.Null? then {FirstName} else {})
    + (if req.lastName.Null? then {LastName} else {})
  }

  /** A sent text field replaces the old value; an absent one keeps it. */
  function Updated(x: Input, current: string): string
  {
    if x.Value? then x.s else current
  }

  /** `is_valid()` then `save()` on the user serializer, as a new row value; errors are the failing keys. */
  function ValidateProfileUpdate(users: seq<User>, k: nat, req: ProfileUpdate, partial: bool, v: Validators): (r: Result<User, set<Field>>)
    requires k < |users|
    ensures r.Success? <==> ProfileFieldErrors(users, k, req, partial, v) == {}
    ensures r.Failure? ==> r.error != {}
    ensures r.Success? ==>
      var u, n := users[k], r.value;
      && n.id == u.id && n.password == u.password && n.isActive == u.isActive && n.dateJoined == u.dateJoined
      && n.username == Updated(req.username, u.username)
      && n.email == Updated(req.email, u.email)
      && n.firstName == Updated(req.firstName, u.firstName)
      && n.lastName == Updated(req.lastName, u.lastName)
      && (req.matricule.Absent? ==> n.matricule == u.matricule)
      && (!req.matricule.Absent? ==> n.matricule == Optional(req.matricule))
      && (req.role.Absent? ==> n.role == u.role)
      && (req.role.Value? ==> RoleValue(n.role) == req.role.s)
  {
    var errors := ProfileFieldErrors(users, k, req, partial, v);
    if errors != {} then Failure(errors)
    else
      var u := users[k];
      Success(u.(
        username := Updated(req.username, u.username),
        email := Updated(req.email, u.email),
        matricule := if req.matricule.Absent? then u.matricule else Optional(req.matricule),
        role := if req.role.Value? then ParseRole(req.role.s).value else u.role,
        firstName := Updated(req.firstName, u.firstName),
        lastName := Updated(req.lastName, u.lastName)))
  }

  /** A full update must send the username and the email. */
  lemma FullUpdateNeedsRequiredFields(users: seq<User>, k: nat, req: ProfileUpdate, v: Validators)
    requires k < |users| && (req.username.Absent? || req.email.Absent?)
    ensures ValidateProfileUpdate(users, k, req, false, v).Failure?
  {
  }

  /** A partial update that sends nothing leaves the row as it was. */
  lemma EmptyPatchKeepsRow(users: seq<User>, k: nat, v: Validators)
    requires k < |users|
    ensures ValidateProfileUpdate(users, k, ProfileUpdate(Absent, Absent, Absent, Absent, Absent, Absent), true, v)
            == Success(users[k])
  {
  }

  // ---------------------------------------------------------------------
  // Password change
  // ---------------------------------------------------------------------

  datatype PasswordChange = PasswordChange(oldPassword: Input, newPassword: Input, newPassword2: Input)

  /** The field-level errors of a password change by `user`: `validate_old_password` checks the current credential. */
  function PasswordChangeFieldErrors(user: User, req: PasswordChange, v: Validators): set<Field>
  {
    (if Given(req.oldPassword) && CheckPassword(user.password, req.oldPassword.s) then {} else {OldPassword})
    + (if Given(req.newPassword) && v.strongPassword(req.newPassword.s) then {} else {NewPassword})
    + (if Given(req.newPassword2) then {} else {NewPassword2})
  }

  /** `is_valid()` on the password-change serializer: the new password, or the keys of the errors. */
  function ValidatePasswordChange(user: User, req: PasswordChange, v: Validators): (r: Result<string, set<Field>>)
    ensures r.Success? <==> PasswordChangeFieldErrors(user, req, v) == {} && req.newPassword == req.newPassword2
    ensures r.Failure? ==> r.error != {}
    ensures r.Failure? && PasswordChangeFieldErrors(user, req, v) == {} ==> r.error == {NewPassword}
    ensures r.Success? ==> req.newPassword == Value(r.value) && CheckPassword(user.password, req.oldPassword.s)
  {
    var errors := PasswordChangeFieldErrors(user, req, v);
    if errors != {} then Failure(errors)
    else if req.newPassword.s != req.newPassword2.s then Failure({NewPassword})
    else Success(req.newPassword.s)
  }

  /** A wrong old password fails the change keyed `old_password`. */
  lemma WrongOldPasswordRejected(user: User, req: PasswordChange, v: Validators)
    requires req.oldPassword.Value? && !CheckPassword(user.password, req.oldPassword.s)
    ensures ValidatePasswordChange(user, req, v).Failure?
    ensures OldPassword in ValidatePasswordChange(user, req, v).error
  {
  }

  /** Differing new passwords fail the change, keyed `new_password`. */
  lemma NewPasswordMismatchRejected(user: User, req: PasswordChange, v: Validators)
    requires req.newPassword != req.newPassword2
    ensures ValidatePasswordChange(user, req, v).Failure?
    ensures PasswordChangeFieldErrors(user, req, v) == {} ==> ValidatePasswordChange(user, req, v).error == {NewPassword}
  {
  }
}
