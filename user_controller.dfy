/**
 * The user service's controller: registration with a unique email, lookup by email, and the
 * partial update with its role rules (only "student" or "faculty", never the role the user has).
 */
module UserController {
  import opened Outcomes
  import opened Records

  const ValidRoles: seq<string> := ["student", "faculty"]

  /** `createUser`; `id` is the ObjectId the new document gets. */
  method CreateUser(users: UserTable, id: Id, name: string, email: string, role: string) returns (r: Reply<User>)
    requires id !in users.rows
    modifies users
    ensures EmailInUse(old(users.rows), email)
            ==> r == Failure(400, "User with this email already exists") && users.rows == old(users.rows)
    ensures !EmailInUse(old(users.rows), email)
            ==> r == Success(201, User(name, email, role)) && users.rows == old(users.rows)[id := User(name, email, role)]
    ensures old(EmailsUnique(users.rows)) ==> EmailsUnique(users.rows)
  {
    if EmailInUse(users.rows, email) {
      return Failure(400, "User with this email already exists");
    }
    var user := User(name, email, role);
    users.rows := users.rows[id := user];
    r := Success(201, user);
  }

  /** The index of the first document with this email (`findOne({ email })` in natural order). */
  function FirstWithEmail(docs: seq<(Id, User)>, email: string): (k: Option<nat>)
    ensures k.Some? <==> exists i | 0 <= i < |docs| :: docs[i].1.email == email
    ensures k.Some? ==> k.value < |docs| && docs[k.value].1.email == email
                        && forall i :: 0 <= i < k.value ==> docs[i].1.email != email
  {
    if docs == [] then None
    else if docs[0].1.email == email then Some(0)
    else match FirstWithEmail(docs[1..], email)
      case None => None
      case Some(k) => Some(k + 1)
  }

  /** `getUserByEmail`: 400 without a (truthy) email, 404 when no user has it, else the first match. */
  function GetUserByEmail(docs: seq<(Id, User)>, email: Option<string>): (r: Reply<(Id, User)>)
    ensures !Truthy(email) ==> r == Failure(400, "Email query parameter is required")
    ensures Truthy(email) ==> (r.Success? <==> exists i | 0 <= i < |docs| :: docs[i].1.email == email.value)
    ensures Truthy(email) && r.Failure? ==> r == Failure(404, "User not found")
    ensures r.Success? ==> r.status == 200 && r.value in docs && r.value.1.email == email.value
  {
    if !Truthy(email) then Failure(400, "Email query parameter is required")
    else match FirstWithEmail(docs, email.value)
      case None => Failure(404, "User not found")
      case Some(k) => Success(200, docs[k])
  }

  /** The fields of an update request; `None` is a field the request does not send. */
  datatype UserPatch = UserPatch(name: Option<string>, email: Option<string>, role: Option<string>)

  datatype UserError = EmailTaken | InvalidRole | SameRole(role: string)

  function ErrorReply(e: UserError): (r: Reply<User>)
    ensures r.Failure?
    ensures r.status == if e.SameRole? then 403 else 400
  {
    match e
    case EmailTaken => Failure(400, "Email already in use")
    case InvalidRole => Failure(400, "Invalid role")
    case SameRole(role) => Failure(403, "Already assigned as a " + role)
  }

  /** The refusals of `updateUser`, in the handler's order: a taken email, then the role rules. */
  function UpdateRefusal(rows: map<Id, User>, u: User, p: UserPatch): (e: Option<UserError>)
    ensures e == Some(EmailTaken) <==> Truthy(p.email) && p.email.value != u.email && EmailInUse(rows, p.email.value)
    ensures e.Some? && e != Some(EmailTaken) ==> Truthy(p.role)
    ensures e == Some(InvalidRole) ==> p.role.value !in ValidRoles
    ensures e.Some? && e.value.SameRole? ==> e.value.role == u.role == p.role.value
    ensures e.None? && Truthy(p.role) ==> p.role.value in ValidRoles && p.role.value != u.role
  {
    if Truthy(p.email) && p.email.value != u.email && EmailInUse(rows, p.email.value) then Some(EmailTaken)
    else if Truthy(p.role) && p.role.value !in ValidRoles then Some(InvalidRole)
    else if Truthy(p.role) && p.role.value == u.role then Some(SameRole(p.role.value))
    else None
  }

  /** The user with the request's non-empty fields written over it. */
  function Updated(u: User, p: UserPatch): User
  {
    User(if Truthy(p.name) then p.name.value else u.name,
         if Truthy(p.email) then p.email.value else u.email,
         if Truthy(p.role) then p.role.value else u.role)
  }

  /**
   * `updateUser`: 404 for an unknown id, then the refusals; otherwise only the fields that are
   * defined and non-empty are collected into the update, and an empty update stores nothing and
   * sends the user as it is.
   */
  method UpdateUser(users: UserTable, id: Id, p: UserPatch) returns (r: Reply<User>)
    modifies users
    ensures id !in old(users.rows) ==> r == Failure(404, "User not found") && users.rows == old(users.rows)
    ensures id in old(users.rows) && UpdateRefusal(old(users.rows), old(users.rows)[id], p).Some?
            ==> r == ErrorReply(UpdateRefusal(old(users.rows), old(users.rows)[id], p).value)
                && users.rows == old(users.rows)
    ensures id in old(users.rows) && UpdateRefusal(old(users.rows), old(users.rows)[id], p).None?
            ==> r == Success(200, Updated(old(users.rows)[id], p))
                && users.rows == (if Truthy(p.name) || Truthy(p.email) || Truthy(p.role)
                                  then old(users.rows)[id := Updated(old(users.rows)[id], p)] else old(users.rows))
    ensures old(EmailsUnique(users.rows)) ==> EmailsUnique(users.rows)
  {
    if id !in users.rows {
      return Failure(404, "User not found");
    }
    var u := users.rows[id];
    var refusal := UpdateRefusal(users.rows, u, p);
    if refusal.Some? {
      return ErrorReply(refusal.value);
    }
    var name, email, role := None, None, None;
    if p.name.Some? && p.name.value != "" {
      name := p.name;
    }
    if p.email.Some? && p.email.value != "" {
      email := p.email;
    }
    if p.role.Some? && p.role.value != "" {
      role := p.role;
    }
    if name.Some? || email.Some? || role.Some? {
      var updated := User(if name.Some? then name.value else u.name,
                          if email.Some? then email.value else u.email,
                          if role.Some? then role.value else u.role);
      ghost var before := users.rows;
      users.rows := users.rows[id := updated];
      if EmailsUnique(before) && email.Some? && email.value != u.email {
        assert !EmailInUse(before, email.value);
      }
      r := Success(200, updated);
    } else {
      r := Success(200, u);
    }
  }

  /** A role change that went through cannot be repeated: the same request is then refused with 403. */
  lemma RepeatedRoleChangeIsForbidden(rows: map<Id, User>, id: Id, p: UserPatch)
    requires id in rows && Truthy(p.role) && UpdateRefusal(rows, rows[id], p).None?
    ensures var after := rows[id := Updated(rows[id], p)];
            UpdateRefusal(after, after[id], p) == Some(SameRole(p.role.value))
  {
  }

  /** An update whose fields are all empty or absent is never refused and leaves the user as it is. */
  lemma EmptyUpdateChangesNothing(rows: map<Id, User>, u: User, p: UserPatch)
    requires !Truthy(p.name) && !Truthy(p.email) && !Truthy(p.role)
    ensures UpdateRefusal(rows, u, p).None? && Updated(u, p) == u
  {
  }
}
