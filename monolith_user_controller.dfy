/**
 * The monolith's user controller: registration with a unique email, and an update that assigns the
 * loaded record's fields one by one and saves it. Unlike the user service, it has no role rules and
 * writes `name` and `role` whenever they are sent, even as empty strings.
 */
module MonolithUserController {
  import opened Outcomes
  import opened Records
  import UserController

  /** `createUser`: the same rule as the user service's. */
  method CreateUser(users: UserTable, id: Id, name: string, email: string, role: string) returns (r: Reply<User>)
    requires id !in users.rows
    modifies users
    ensures EmailInUse(old(users.rows), email)
            ==> r == Failure(400, "User with this email already exists") && users.rows == old(users.rows)
    ensures !EmailInUse(old(users.rows), email)
            ==> r == Success(201, User(name, email, role)) && users.rows == old(users.rows)[id := User(name, email, role)]
    ensures old(EmailsUnique(users.rows)) ==> EmailsUnique(users.rows)
  {
    r := UserController.CreateUser(users, id, name, email, role);
  }

  /**
   * The record after the assignments: the email when truthy and different, `name` and `role`
   * whenever defined.
   */
  function Assigned(u: User, p: UserController.UserPatch): (v: User)
    ensures v.email == if Truthy(p.email) then p.email.value else u.email
    ensures p.name.Some? ==> v.name == p.name.value
    ensures p.name.None? ==> v.name == u.name
    ensures p.role.Some? ==> v.role == p.role.value
    ensures p.role.None? ==> v.role == u.role
  {
    User(if p.name.Some? then p.name.value else u.name,
         if Truthy(p.email) && p.email.value != u.email then p.email.value else u.email,
         if p.role.Some? then p.role.value else u.role)
  }

  /**
   * `updateUser`: 404 for an unknown id, 400 for an email another user has; otherwise the fields are
   * assigned and the record saved. A failing save (`saveFails`, the schema's validation) is caught
   * and answered with 500 "Server error", and nothing is stored.
   */
  method UpdateUser(users: UserTable, id: Id, p: UserController.UserPatch, saveFails: bool) returns (r: Reply<User>)
    modifies users
    ensures id !in old(users.rows) ==> r == Failure(404, "User not found") && users.rows == old(users.rows)
    ensures id in old(users.rows) && Truthy(p.email) && p.email.value != old(users.rows)[id].email
            && EmailInUse(old(users.rows), p.email.value)
            ==> r == Failure(400, "Email already in use") && users.rows == old(users.rows)
    ensures id in old(users.rows) && !(Truthy(p.email) && p.email.value != old(users.rows)[id].email
                                       && EmailInUse(old(users.rows), p.email.value))
            ==> if saveFails then r == Failure(500, "Server error") && users.rows == old(users.rows)
                else r == Success(200, Assigned(old(users.rows)[id], p))
                     && users.rows == old(users.rows)[id := Assigned(old(users.rows)[id], p)]
    ensures old(EmailsUnique(users.rows)) ==> EmailsUnique(users.rows)
  {
    if id !in users.rows {
      return Failure(404, "User not found");
    }
    var user := users.rows[id];
    ghost var original := user;
    if p.email.Some? && p.email.value != "" && p.email.value != user.email {
      if EmailInUse(users.rows, p.email.value) {
        return Failure(400, "Email already in use");
      }
      user := user.(email := p.email.value);
    }
    if p.name.Some? {
      user := user.(name := p.name.value);
    }
    if p.role.Some? {
      user := user.(role := p.role.value);
    }
    if saveFails {
      return Failure(500, "Server error");
    }
    assert user == Assigned(original, p);
    users.rows := users.rows[id := user];
    r := Success(200, user);
  }

  /**
   * Where the two update handlers differ: an empty name sent to the monolith is stored as the name,
   * while the user service keeps the old one.
   */
  lemma EmptyNameDiffers(u: User, p: UserController.UserPatch)
    requires p.name == Some("") && u.name != ""
    ensures Assigned(u, p).name == ""
    ensures UserController.Updated(u, p).name == u.name
  {
  }
}
