/**
 * userController.js: the administrator's operations on the user table
 * (create, update, delete) behind their guards, and the two listings.
 */
module UserController {
  import opened Entities
  import opened Ordering

  /** A user as the controller returns it: never with the password. */
  datatype UserView = UserView(
    id: Id,
    email: string,
    firstName: string,
    lastName: string,
    role: Role,
    companyId: Id,
    managerId: Option<Id>,
    isManagerApprover: bool)

  function View(id: Id, u: User): (v: UserView)
    ensures v.id == id && v.email == u.email && v.role == u.role && v.companyId == u.companyId
    ensures v.firstName == u.firstName && v.lastName == u.lastName
    ensures v.managerId == u.managerId && v.isManagerApprover == u.isManagerApprover
  {
    UserView(id, u.email, u.firstName, u.lastName, u.role, u.companyId, u.managerId, u.isManagerApprover)
  }

  /** The body of `createUser`; absent optional fields are `None`. */
  datatype NewUser = NewUser(
    email: string,
    password: string,
    firstName: string,
    lastName: string,
    role: string,
    managerId: Option<Id>,
    isManagerApprover: Option<bool>)

  predicate AllGiven(input: NewUser) {
    input.email != "" && input.password != "" && input.firstName != "" && input.lastName != "" && input.role != ""
  }

  /** Some stored user, of any company, already has the email. */
  predicate EmailTaken(t: Users, email: string) {
    exists id :: id in t.rows && t.rows[id].email == email
  }

  datatype UserOutcome = UserOutcome(users: Users, reply: Result<UserView>)

  /**
   * `createUser`. `hashed` is what the password hashing collaborator made of
   * `input.password`; the new row takes the next id.
   */
  function CreateUser(t: Users, caller: Caller, input: NewUser, hashed: string): (out: UserOutcome)
    requires t.Valid()
    ensures out.users.Valid()
    ensures out.reply.Err? ==> out.users == t
    ensures caller.role != Admin ==> out.reply == Err(Forbidden("Only admins can create users"))
    ensures caller.role == Admin && !AllGiven(input) ==> out.reply == Err(BadRequest("All fields are required"))
    ensures caller.role == Admin && AllGiven(input) && ParseRole(input.role).None? ==>
              out.reply == Err(BadRequest("Invalid role"))
    ensures caller.role == Admin && AllGiven(input) && ParseRole(input.role).Some? && EmailTaken(t, input.email) ==>
              out.reply == Err(BadRequest("Email already exists"))
    ensures out.reply.Ok? <==>
              caller.role == Admin && AllGiven(input) && ParseRole(input.role).Some? && !EmailTaken(t, input.email)
    ensures out.reply.Ok? ==>
              var id := out.reply.value.id;
              && id == t.nextId && id !in t.rows
              && out.users.rows == t.rows[id := User(input.email, hashed, input.firstName, input.lastName,
                                                     ParseRole(input.role).value, caller.companyId,
                                                     input.managerId,
                                                     input.isManagerApprover == Some(true))]
              && out.reply.value == View(id, out.users.rows[id])
              // the new user joins the caller's company; no manager and no approver flag unless given
              && out.reply.value.companyId == caller.companyId
              && (input.managerId.None? ==> out.reply.value.managerId.None?)
              && (input.isManagerApprover != Some(true) ==> !out.reply.value.isManagerApprover)
  {
    if caller.role != Admin then UserOutcome(t, Err(Forbidden("Only admins can create users")))
    else if !AllGiven(input) then UserOutcome(t, Err(BadRequest("All fields are required")))
    else if ParseRole(input.role).None? then UserOutcome(t, Err(BadRequest("Invalid role")))
    else if EmailTaken(t, input.email) then UserOutcome(t, Err(BadRequest("Email already exists")))
    else
      var id := t.nextId;
      var u := User(input.email, hashed, input.firstName, input.lastName, ParseRole(input.role).value,
                    caller.companyId, input.managerId, input.isManagerApprover == Some(true));
      UserOutcome(Users(t.rows[id := u], t.nextId + 1), Ok(View(id, u)))
  }

  /** A field of an update body: left out, or given (possibly as null). */
  datatype Field<T> = Absent | Given(value: T)

  /** The body of `updateUser`; an empty role is falsy and ignored. */
  datatype UserUpdate = UserUpdate(role: string, managerId: Field<Option<Id>>, isManagerApprover: Field<bool>)

  /** Target `id` exists and belongs to the caller's company. */
  predicate InCompany(t: Users, caller: Caller, id: Id) {
    id in t.rows && t.rows[id].companyId == caller.companyId
  }

  /** The row after the update: only the fields the body gives change. */
  function Updated(u: User, upd: UserUpdate): (u': User)
    requires upd.role != "" ==> ParseRole(upd.role).Some?
    ensures u'.email == u.email && u'.password == u.password && u'.firstName == u.firstName
    ensures u'.lastName == u.lastName && u'.companyId == u.companyId
    ensures u'.role == if upd.role == "" then u.role else ParseRole(upd.role).value
    ensures u'.managerId == if upd.managerId.Given? then upd.managerId.value else u.managerId
    ensures u'.isManagerApprover == if upd.isManagerApprover.Given? then upd.isManagerApprover.value else u.isManagerApprover
  {
    u.(role := if upd.role == "" then u.role else ParseRole(upd.role).value,
       managerId := if upd.managerId.Given? then upd.managerId.value else u.managerId,
       isManagerApprover := if upd.isManagerApprover.Given? then upd.isManagerApprover.value else u.isManagerApprover)
  }

  /**
   * `updateUser`. A non-empty role outside the three roles is not checked
   * by the controller; the database refuses it and the reply is 500.
   */
  function UpdateUser(t: Users, caller: Caller, id: Id, upd: UserUpdate): (out: UserOutcome)
    requires t.Valid()
    ensures out.users.Valid()
    ensures out.reply.Err? ==> out.users == t
    ensures caller.role != Admin ==> out.reply == Err(Forbidden("Only admins can update users"))
    ensures caller.role == Admin && !InCompany(t, caller, id) ==> out.reply == Err(NotFound("User not found"))
    ensures caller.role == Admin && InCompany(t, caller, id) && upd.role != "" && ParseRole(upd.role).None? ==>
              out.reply == Err(ServerError)
    ensures out.reply.Ok? <==>
              caller.role == Admin && InCompany(t, caller, id) && (upd.role != "" ==> ParseRole(upd.role).Some?)
    ensures out.reply.Ok? ==>
              && out.users == Users(t.rows[id := Updated(t.rows[id], upd)], t.nextId)
              && out.reply.value == View(id, Updated(t.rows[id], upd))
  {
    if caller.role != Admin then UserOutcome(t, Err(Forbidden("Only admins can update users")))
    else if !InCompany(t, caller, id) then UserOutcome(t, Err(NotFound("User not found")))
    else if upd.role != "" && ParseRole(upd.role).None? then UserOutcome(t, Err(ServerError))
    else
      var u' := Updated(t.rows[id], upd);
      UserOutcome(Users(t.rows[id := u'], t.nextId), Ok(View(id, u')))
  }

  datatype DeleteOutcome = DeleteOutcome(users: Users, reply: Result<()>)

  /** `deleteUser`: exactly the target row goes, unless a guard refuses. */
  function DeleteUser(t: Users, caller: Caller, id: Id): (out: DeleteOutcome)
    requires t.Valid()
    ensures out.users.Valid()
    ensures out.reply.Err? ==> out.users == t
    ensures caller.role != Admin ==> out.reply == Err(Forbidden("Only admins can delete users"))
    ensures caller.role == Admin && !InCompany(t, caller, id) ==> out.reply == Err(NotFound("User not found"))
    ensures caller.role == Admin && InCompany(t, caller, id) && id == caller.id ==>
              out.reply == Err(BadRequest("Cannot delete yourself"))
    ensures out.reply.Ok? <==> caller.role == Admin && InCompany(t, caller, id) && id != caller.id
    ensures out.reply.Ok? ==> out.users.rows.Keys == t.rows.Keys - {id}
                              && (forall other :: other in out.users.rows ==> out.users.rows[other] == t.rows[other])
                              && out.users.nextId == t.nextId
  {
    if caller.role != Admin then DeleteOutcome(t, Err(Forbidden("Only admins can delete users")))
    else if !InCompany(t, caller, id) then DeleteOutcome(t, Err(NotFound("User not found")))
    else if id == caller.id then DeleteOutcome(t, Err(BadRequest("Cannot delete yourself")))
    else DeleteOutcome(Users(t.rows - {id}, t.nextId), Ok(()))
  }

  /** `getManagers`: the MANAGER and ADMIN users of the caller's company. */
  function Managers(t: Users, caller: Caller): (r: map<Id, UserView>)
    ensures forall id :: id in r <==>
              id in t.rows && t.rows[id].companyId == caller.companyId && t.rows[id].role in {Manager, Admin}
    ensures forall id :: id in r ==> r[id] == View(id, t.rows[id])
  {
    map id | id in t.rows && t.rows[id].companyId == caller.companyId && t.rows[id].role in {Manager, Admin}
      :: View(id, t.rows[id])
  }

  /** `getAllUsers`: every user of the caller's company, newest first (ids are handed out in creation order). */
  function AllUsers(t: Users, caller: Caller): (r: seq<UserView>)
    requires t.Valid()
    ensures forall j :: 0 <= j < |r| ==>
              && r[j].id in t.rows
              && t.rows[r[j].id].companyId == caller.companyId
              && r[j] == View(r[j].id, t.rows[r[j].id])
    ensures forall id :: id in t.rows && t.rows[id].companyId == caller.companyId ==>
              exists j :: 0 <= j < |r| && r[j].id == id
    ensures forall a, b :: 0 <= a < b < |r| ==> r[a].id > r[b].id
  {
    var ids := RowsDesc(t.nextId, (i: nat) => i in t.rows && t.rows[i].companyId == caller.companyId);
    assert forall j :: 0 <= j < |ids| ==> ids[j] in ids;
    var r := seq(|ids|, j requires 0 <= j < |ids| => View(ids[j], t.rows[ids[j]]));
    forall id | id in t.rows && t.rows[id].companyId == caller.companyId
      ensures exists j :: 0 <= j < |r| && r[j].id == id
    {
      assert id in ids;
      var j :| 0 <= j < |ids| && ids[j] == id;
      assert r[j].id == id;
    }
    r
  }

  /** No email appears twice in the table. */
  ghost predicate EmailsUnique(t: Users) {
    forall a, b :: a in t.rows && b in t.rows && a != b ==> t.rows[a].email != t.rows[b].email
  }

  /** Creating a user never introduces a second row with the same email. */
  lemma CreateKeepsEmailsUnique(t: Users, caller: Caller, input: NewUser, hashed: string)
    requires t.Valid() && EmailsUnique(t)
    ensures EmailsUnique(CreateUser(t, caller, input, hashed).users)
  {
    var out := CreateUser(t, caller, input, hashed);
    if out.reply.Ok? {
      var id := out.reply.value.id;
      forall a, b | a in out.users.rows && b in out.users.rows && a != b
        ensures out.users.rows[a].email != out.users.rows[b].email
      {
        if a == id || b == id {
          var other := if a == id then b else a;
          assert other in t.rows;
        }
      }
    }
  }

  /** A refused operation leaves the table as it was; a non-admin is always refused. */
  lemma NonAdminChangesNothing(t: Users, caller: Caller, input: NewUser, hashed: string, id: Id, upd: UserUpdate)
    requires t.Valid() && caller.role != Admin
    ensures CreateUser(t, caller, input, hashed).users == t
    ensures UpdateUser(t, caller, id, upd).users == t
    ensures DeleteUser(t, caller, id).users == t
  {
  }
}
