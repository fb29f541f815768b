/**
 * The custom user model: the two roles, the user record, the password
 * credential, and the user table with its uniqueness constraints.
 */
module Users {
  import opened Wrappers

  /** The `roles` choices. */
  datatype Role = Admin | Professor

  /** The value stored in the `role` column. */
  function RoleValue(r: Role): string
  {
    match r
    case Admin => "ADMIN"
    case Professor => "PROFESSOR"
  }

  /** Reads a stored or submitted role value; anything but the two choices is rejected. */
  function ParseRole(v: string): (r: Option<Role>)
    ensures r.Some? <==> v == "ADMIN" || v == "PROFESSOR"
    ensures r.Some? ==> RoleValue(r.value) == v
  {
    if v == "ADMIN" then Some(Admin)
    else if v == "PROFESSOR" then Some(Professor)
    else None
  }

  /** A role is exactly one of the two values, and reads back as itself. */
  lemma RoleValueRoundTrip(r: Role)
    ensures ParseRole(RoleValue(r)) == Some(r)
    ensures RoleValue(r) == "ADMIN" || RoleValue(r) == "PROFESSOR"
  {
  }

  /** The column default for `role`, used when a user is built without one. */
  const DEFAULT_ROLE: Role := Admin

  /**
   * A stored password. Hashing is modelled as ideal: a credential made from
   * a raw password checks that password and no other.
   */
  datatype Credential = Hashed(raw: string)

  /** `make_password` / `set_password`. */
  function MakePassword(raw: string): Credential { Hashed(raw) }

  /** `check_password`. */
  predicate CheckPassword(c: Credential, candidate: string) { c.raw == candidate }

  /** The columns of a user row that the core reads or writes. */
  datatype User = User(
    id: nat,
    username: string,
    email: string,
    matricule: Option<string>,
    role: Role,
    firstName: string,
    lastName: string,
    isActive: bool,
    password: Credential,
    dateJoined: int)

  /**
   * A user built from its required columns alone: the model's defaults
   * apply, so the role is `ADMIN`, the names are empty and the account is active.
   */
  function BareUser(id: nat, username: string, email: string, password: Credential, dateJoined: int): (u: User)
    ensures u.role == Admin && u.matricule == None && u.isActive
    ensures u.firstName == "" && u.lastName == ""
  {
    User(id, username, email, None, DEFAULT_ROLE, "", "", true, password, dateJoined)
  }

  /** `__str__`: the username. */
  function Str(u: User): string { u.username }

  // ---------------------------------------------------------------------
  // The user table
  // ---------------------------------------------------------------------

  /** Whether two rows break one of the unique constraints on username, email or matricule. */
  predicate Collide(u: User, v: User)
  {
    u.username == v.username || u.email == v.email
    || (u.matricule.Some? && u.matricule == v.matricule)
  }

  /**
   * The table in primary-key order: ids are 1, 2, 3, ... (auto-increment,
   * no deletion), and no two rows collide on a unique column. A null
   * matricule collides with nothing.
   */
  predicate ValidStore(users: seq<User>)
  {
    (forall i :: 0 <= i < |users| ==> users[i].id == i + 1)
    && (forall i, j :: 0 <= i < j < |users| ==> !Collide(users[i], users[j]))
  }

  /** Whether `u` collides with a row other than the one at index `skip` (pass `|users|` to skip none). */
  predicate CollidesWithOthers(users: seq<User>, u: User, skip: nat)
  {
    exists i :: 0 <= i < |users| && i != skip && Collide(users[i], u)
  }

  /** Exact-match lookup for the username uniqueness check, ignoring the row at `skip`. */
  predicate UsernameTaken(users: seq<User>, name: string, skip: nat)
  {
    exists i :: 0 <= i < |users| && i != skip && users[i].username == name
  }

  /** Exact-match lookup for the email uniqueness check, ignoring the row at `skip`. */
  predicate EmailTaken(users: seq<User>, email: string, skip: nat)
  {
    exists i :: 0 <= i < |users| && i != skip && users[i].email == email
  }

  predicate MatriculeTaken(users: seq<User>, m: string, skip: nat)
  {
    exists i :: 0 <= i < |users| && i != skip && users[i].matricule == Some(m)
  }

  /** `User.objects.get(username=...)`: the index of the row with that username. */
  function FindByUsername(users: seq<User>, name: string): (r: Option<nat>)
    ensures r.Some? ==> r.value < |users| && users[r.value].username == name
    ensures r.None? <==> !UsernameTaken(users, name, |users|)
  {
    if |users| == 0 then None
    else if users[|users| - 1].username == name then Some(|users| - 1)
    else FindByUsername(users[..|users| - 1], name)
  }

  /** Lookup by primary key. */
  function FindById(users: seq<User>, id: nat): (r: Option<nat>)
    ensures r.Some? ==> r.value < |users| && users[r.value].id == id
    ensures r.None? ==> forall i :: 0 <= i < |users| ==> users[i].id != id
  {
    if |users| == 0 then None
    else if users[|users| - 1].id == id then Some(|users| - 1)
    else FindById(users[..|users| - 1], id)
  }

  /** In a valid table a username names exactly one row, so `__str__` tells users apart. */
  lemma StrIdentifiesUser(users: seq<User>, i: nat, j: nat)
    requires ValidStore(users) && i < |users| && j < |users|
    requires Str(users[i]) == Str(users[j])
    ensures i == j
  {
  }

  /** In a valid table the row with id `k` sits at index `k - 1`. */
  lemma FindByIdInValidStore(users: seq<User>, i: nat)
    requires ValidStore(users) && i < |users|
    ensures FindById(users, users[i].id) == Some(i)
  {
    var r := FindById(users, users[i].id);
    assert r.Some? ==> users[r.value].id == r.value + 1;
  }

  /** Appending a row with the next id that collides with no row keeps the table valid. */
  lemma AppendKeepsValid(users: seq<User>, u: User)
    requires ValidStore(users)
    requires u.id == |users| + 1 && !CollidesWithOthers(users, u, |users|)
    ensures ValidStore(users + [u])
  {
    var t := users + [u];
    forall i, j | 0 <= i < j < |t|
      ensures !Collide(t[i], t[j])
    {
      if j == |users| {
        assert !Collide(users[i], u);
      }
    }
  }

  /**
   * Rewriting row `k` with a record that keeps its id and collides with no
   * other row keeps the table valid.
   */
  lemma ReplaceKeepsValid(users: seq<User>, k: nat, u: User)
    requires ValidStore(users) && k < |users|
    requires u.id == users[k].id && !CollidesWithOthers(users, u, k)
    ensures ValidStore(users[k := u])
  {
    var t := users[k := u];
    forall i, j | 0 <= i < j < |t|
      ensures !Collide(t[i], t[j])
    {
      if i == k {
        assert !Collide(users[j], u);
      } else if j == k {
        assert !Collide(users[i], u);
      }
    }
  }
}
