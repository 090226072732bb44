/** The operations of the user service as functions over the user store: each
    takes the store (and, for an insertion, the identifier the store will
    assign) and gives back the result together with the store it leaves.
    Service.UserService runs them in place; the lemmas here state what the
    operations promise, alone and in sequence. */
module UserRules {
  import opened UserModel

  /** Some record other than `id` holds the username `name`. */
  ghost predicate HeldByOther(s: Store, name: string, id: Id) {
    exists j :: j in s && j != id && s[j].username == name
  }

  /** The role set `create` gives a new account. */
  function RolesFor(isAdmin: bool): (r: set<Role>)
    ensures |r| == 1
    ensures RoleAdmin in r <==> isAdmin
  {
    if isAdmin then {RoleAdmin} else {RoleUser}
  }

  /** The role set an update installs for a requested role: always the singleton
      of that role, replacing whatever roles the account had. */
  function RoleSet(role: Role): (r: set<Role>)
    ensures r == {role}
  {
    if role == RoleAdmin then {RoleAdmin} else assert role == RoleUser; {RoleUser}
  }

  /** The fields of an update request; `None` is a field the request leaves out. */
  datatype UpdateInput = UpdateInput(
    role: Option<Role>,
    password: Option<string>,
    username: Option<string>,
    img: Option<string>)

  // ---------------------------------------------------------------- login

  /** Sign in: find the record by username and compare password hashes. */
  ghost function Login(s: Store, hash: Hasher, sign: Signer, username: string, password: string, addr: string): (r: Result<Token>)
    ensures r == Err(NotFound("User")) <==> !Taken(s, username)
    ensures UsernamesUnique(s) ==> forall i :: i in s && s[i].username == username ==>
      r == if s[i].passwordHash == hash(password) then Ok(sign(i, s[i], addr)) else Err(FormError("Password"))
  {
    match FindByUsername(s, username)
    case None => Err(NotFound("User"))
    case Some(i) =>
      if s[i].passwordHash != hash(password) then Err(FormError("Password"))
      else Ok(sign(i, s[i], addr))
  }

  // ------------------------------------------------------ register, create

  /** Self-registration: a new account with role USER and no image, unless
      the username is taken. `newId` is the identifier the store assigns. */
  ghost function Register(s: Store, hash: Hasher, username: string, password: string, newId: Id): (o: Outcome<Entity>)
    requires newId !in s
    ensures o.result.Err? <==> Taken(s, username)
    ensures o.result.Err? ==> o.result.error == DuplicatedError("User") && o.store == s
    ensures o.result.Ok? ==>
      && o.result.value == Entity(newId, User(username, hash(password), {RoleUser}, ""))
      && o.store.Keys == s.Keys + {newId}
      && o.store[newId] == o.result.value.user
      && forall j :: j in s ==> o.store[j] == s[j]
    ensures UsernamesUnique(s) ==> UsernamesUnique(o.store)
  {
    if FindByUsername(s, username).Some? then Outcome(Err(DuplicatedError("User")), s)
    else
      var u := User(username, hash(password), {RoleUser}, "");
      Outcome(Ok(Entity(newId, u)), s[newId := u])
  }

  /** Administrative creation: like registration, but the role is ADMIN when
      the request's admin flag is set and USER otherwise. */
  ghost function Create(s: Store, hash: Hasher, username: string, password: string, isAdmin: bool, newId: Id): (o: Outcome<Entity>)
    requires newId !in s
    ensures o.result.Err? <==> Taken(s, username)
    ensures o.result.Err? ==> o.result.error == DuplicatedError("User") && o.store == s
    ensures o.result.Ok? ==>
      && o.result.value == Entity(newId, User(username, hash(password), if isAdmin then {RoleAdmin} else {RoleUser}, ""))
      && o.store.Keys == s.Keys + {newId}
      && o.store[newId] == o.result.value.user
      && forall j :: j in s ==> o.store[j] == s[j]
    ensures UsernamesUnique(s) ==> UsernamesUnique(o.store)
  {
    if FindByUsername(s, username).Some? then Outcome(Err(DuplicatedError("User")), s)
    else
      var u := User(username, hash(password), RolesFor(isAdmin), "");
      Outcome(Ok(Entity(newId, u)), s[newId := u])
  }

  // ------------------------------------------------------- delete, detail

  /** Administrative delete: the record must exist; then exactly it goes. */
  function Delete(s: Store, id: Id): (o: Outcome<bool>)
    ensures o.result.Err? <==> id !in s
    ensures o.result.Err? ==> o.result.error == NotFound("User") && o.store == s
    ensures o.result.Ok? ==>
      && o.result.value
      && o.store.Keys == s.Keys - {id}
      && forall j :: j in o.store ==> o.store[j] == s[j]
    ensures UsernamesUnique(s) ==> UsernamesUnique(o.store)
  {
    if id !in s then Outcome(Err(NotFound("User")), s)
    else Outcome(Ok(true), s - {id})
  }

  /** Read one record by identifier. */
  function DetailUser(s: Store, id: Id): (r: Result<Entity>)
    ensures r.Ok? <==> id in s
    ensures r.Ok? ==> r.value.id == id && r.value.user == s[id]
    ensures r.Err? ==> r.error == NotFound("User")
  {
    if id in s then Ok(Entity(id, s[id])) else Err(NotFound("User"))
  }

  // ---------------------------------------------------------- update user

  /** The setters an update applies to the record, field by field: a field the
      request leaves out keeps its value, a supplied password is stored hashed,
      a supplied role replaces the whole role set. */
  function Patch(u: User, hash: Hasher, input: UpdateInput): (r: User)
    ensures input.role.None? ==> r.roles == u.roles
    ensures input.role.Some? ==> r.roles == {input.role.value}
    ensures input.password.None? ==> r.passwordHash == u.passwordHash
    ensures input.password.Some? ==> r.passwordHash == hash(input.password.value)
    ensures input.username.None? ==> r.username == u.username
    ensures input.username.Some? ==> r.username == input.username.value
    ensures input.img.None? ==> r.img == u.img
    ensures input.img.Some? ==> r.img == input.img.value
  {
    var u1 := if input.role.Some? then u.(roles := RoleSet(input.role.value)) else u;
    var u2 := if input.password.Some? then u1.(passwordHash := hash(input.password.value)) else u1;
    var u3 := if input.username.Some? then u2.(username := input.username.value) else u2;
    if input.img.Some? then u3.(img := input.img.value) else u3
  }

  /** Partial update of record `id` by a principal whose admin status is
      `isAdmin`. The checks run in a fixed order: the record must exist, a role
      change needs an admin, a new username must not belong to another record.
      Only when all pass is the patched record saved; the result is a token
      signed for the saved record. */
  ghost function UpdateUser(s: Store, hash: Hasher, sign: Signer, isAdmin: bool, id: Id, input: UpdateInput, addr: string): (o: Outcome<Token>)
    ensures o.result == Err(NotFound("User")) <==> id !in s
    ensures o.result == Err(Forbidden) <==> id in s && input.role.Some? && !isAdmin
    ensures UsernamesUnique(s) ==>
      (o.result == Err(DuplicatedError("User")) <==>
        id in s && (input.role.None? || isAdmin) && input.username.Some? && HeldByOther(s, input.username.value, id))
    ensures UsernamesUnique(s) ==>
      (o.result.Ok? <==>
        id in s && (input.role.None? || isAdmin) && !(input.username.Some? && HeldByOther(s, input.username.value, id)))
    ensures o.result.Err? ==> o.result.error in {NotFound("User"), Forbidden, DuplicatedError("User")}
    ensures o.result.Err? ==> o.store == s
    ensures o.result.Ok? ==>
      && id in s
      && o.store.Keys == s.Keys
      && o.store[id] == Patch(s[id], hash, input)
      && o.result.value == sign(id, o.store[id], addr)
      && forall j :: j in s && j != id ==> o.store[j] == s[j]
  {
    if id !in s then Outcome(Err(NotFound("User")), s)
    else if input.role.Some? && !isAdmin then Outcome(Err(Forbidden), s)
    else if input.username.Some? && (var h := FindByUsername(s, input.username.value); h.Some? && h.value != id) then
      Outcome(Err(DuplicatedError("User")), s)
    else
      var u := Patch(s[id], hash, input);
      Outcome(Ok(sign(id, u, addr)), s[id := u])
  }

  // ------------------------------------------------------ change password

  /** Legacy password change: the record must exist and the old password must
      hash to the stored hash; then only the stored hash changes. */
  ghost function ChangePassword(s: Store, hash: Hasher, id: Id, oldPassword: string, newPassword: string): (o: Outcome<Entity>)
    ensures o.result == Err(NotFound("User")) <==> id !in s
    ensures o.result == Err(FormError("Password")) <==> id in s && s[id].passwordHash != hash(oldPassword)
    ensures o.result.Ok? <==> id in s && s[id].passwordHash == hash(oldPassword)
    ensures o.result.Err? ==> o.store == s
    ensures o.result.Ok? ==>
      && id in s
      && o.store.Keys == s.Keys
      && o.store[id] == s[id].(passwordHash := hash(newPassword))
      && o.result.value == Entity(id, o.store[id])
      && forall j :: j in s && j != id ==> o.store[j] == s[j]
    ensures UsernamesUnique(s) ==> UsernamesUnique(o.store)
  {
    if id !in s then Outcome(Err(NotFound("User")), s)
    else if s[id].passwordHash != hash(oldPassword) then Outcome(Err(FormError("Password")), s)
    else
      var u := s[id].(passwordHash := hash(newPassword));
      Outcome(Ok(Entity(id, u)), s[id := u])
  }

  // --------------------------------------------------------------- lemmas

  /** A successful update keeps usernames unique: the new username, if any,
      was free or already the record's own. */
  lemma UpdateKeepsUsernamesUnique(s: Store, hash: Hasher, sign: Signer, isAdmin: bool, id: Id, input: UpdateInput, addr: string)
    requires UsernamesUnique(s)
    ensures UsernamesUnique(UpdateUser(s, hash, sign, isAdmin, id, input, addr).store)
  {
  }

  /** Renaming an account to the username it already has is not a collision. */
  lemma RenameToOwnNameSucceeds(s: Store, hash: Hasher, sign: Signer, isAdmin: bool, id: Id, input: UpdateInput, addr: string)
    requires UsernamesUnique(s)
    requires id in s && input.username == Some(s[id].username)
    requires input.role.None? || isAdmin
    ensures UpdateUser(s, hash, sign, isAdmin, id, input, addr).result.Ok?
  {
  }

  /** Renaming an account to a username no other record holds succeeds once
      the role gate passes, whoever asks: the username is not gated. */
  lemma RenameToFreeNameSucceeds(s: Store, hash: Hasher, sign: Signer, isAdmin: bool, id: Id, input: UpdateInput, addr: string)
    requires UsernamesUnique(s)
    requires id in s && input.username.Some? && !HeldByOther(s, input.username.value, id)
    requires input.role.None? || isAdmin
    ensures var o := UpdateUser(s, hash, sign, isAdmin, id, input, addr);
      && o.result.Ok?
      && o.store[id].username == input.username.value
      && UsernamesUnique(o.store)
  {
  }

  /** The role gate is the only authorization check: an update that changes
      neither role nor username succeeds on any existing record, whoever asks. */
  lemma UngatedFieldsAlwaysUpdate(s: Store, hash: Hasher, sign: Signer, isAdmin: bool, id: Id, input: UpdateInput, addr: string)
    requires id in s && input.role.None? && input.username.None?
    ensures var o := UpdateUser(s, hash, sign, isAdmin, id, input, addr);
      && o.result.Ok?
      && o.store[id].username == s[id].username
      && o.store[id].roles == s[id].roles
  {
  }

  /** After a successful delete, reading the same identifier fails. */
  lemma DetailAfterDeleteFails(s: Store, id: Id)
    requires Delete(s, id).result.Ok?
    ensures DetailUser(Delete(s, id).store, id) == Err(NotFound("User"))
  {
  }

  /** A freshly registered account can sign in with the password it was
      registered with, and the token is signed for the new record. */
  lemma LoginAfterRegister(s: Store, hash: Hasher, sign: Signer, username: string, password: string, newId: Id, addr: string)
    requires UsernamesUnique(s) && newId !in s
    requires !Taken(s, username)
    ensures var o := Register(s, hash, username, password, newId);
      && o.result.Ok?
      && Login(o.store, hash, sign, username, password, addr) == Ok(sign(newId, o.store[newId], addr))
  {
  }

  /** The second registration of one username fails; two different free
      usernames both register. */
  lemma RegisterTwice(s: Store, hash: Hasher, a: string, b: string, pa: string, pb: string, fa: Id, fb: Id)
    requires fa !in s && fb !in s && fa != fb
    requires !Taken(s, a)
    ensures var o := Register(s, hash, a, pa, fa);
      && o.result.Ok?
      && fb !in o.store
      && Register(o.store, hash, a, pb, fb).result == Err(DuplicatedError("User"))
      && (a != b && !Taken(s, b) ==> Register(o.store, hash, b, pb, fb).result.Ok?)
  {
  }

  /** After a password change the new password signs in and, when the two
      passwords hash differently, the old one is refused. */
  lemma LoginAfterChangePassword(s: Store, hash: Hasher, sign: Signer, id: Id, oldPassword: string, newPassword: string, addr: string)
    requires UsernamesUnique(s)
    requires ChangePassword(s, hash, id, oldPassword, newPassword).result.Ok?
    ensures var o := ChangePassword(s, hash, id, oldPassword, newPassword);
      && Login(o.store, hash, sign, s[id].username, newPassword, addr) == Ok(sign(id, o.store[id], addr))
      && (hash(oldPassword) != hash(newPassword) ==>
            Login(o.store, hash, sign, s[id].username, oldPassword, addr) == Err(FormError("Password")))
  {
  }

  // ------------------------------------------------ serialised requests

  /** The store together with the identifier it assigns next is consistent:
      usernames are unique and every stored identifier was assigned before. */
  ghost predicate Consistent(s: Store, nextId: Id) {
    && UsernamesUnique(s)
    && forall i :: i in s ==> i < nextId
  }

  /** A state-changing request to the service; the principal's admin status
      and the caller's address travel with the request that reads them. */
  datatype Request =
    | RegisterReq(username: string, password: string)
    | CreateReq(username: string, password: string, isAdmin: bool)
    | DeleteReq(id: Id)
    | UpdateReq(isAdmin: bool, id: Id, input: UpdateInput, addr: string)
    | ChangePasswordReq(id: Id, oldPassword: string, newPassword: string)

  /** The store and next identifier after one request; an insertion uses the
      next identifier and advances it only when it succeeds. */
  ghost function Step(s: Store, nextId: Id, hash: Hasher, sign: Signer, req: Request): (Store, Id)
    requires Consistent(s, nextId)
  {
    match req
    case RegisterReq(username, password) =>
      var o := Register(s, hash, username, password, nextId);
      (o.store, if o.result.Ok? then nextId + 1 else nextId)
    case CreateReq(username, password, isAdmin) =>
      var o := Create(s, hash, username, password, isAdmin, nextId);
      (o.store, if o.result.Ok? then nextId + 1 else nextId)
    case DeleteReq(id) => (Delete(s, id).store, nextId)
    case UpdateReq(isAdmin, id, input, addr) => (UpdateUser(s, hash, sign, isAdmin, id, input, addr).store, nextId)
    case ChangePasswordReq(id, oldPassword, newPassword) => (ChangePassword(s, hash, id, oldPassword, newPassword).store, nextId)
  }

  /** One request keeps the store consistent. */
  lemma StepKeepsConsistent(s: Store, nextId: Id, hash: Hasher, sign: Signer, req: Request)
    requires Consistent(s, nextId)
    ensures var (t, n) := Step(s, nextId, hash, sign, req); Consistent(t, n)
  {
  }

  /** The store after a sequence of requests served one at a time. */
  ghost function Run(s: Store, nextId: Id, hash: Hasher, sign: Signer, reqs: seq<Request>): (Store, Id)
    requires Consistent(s, nextId)
    decreases |reqs|
  {
    if reqs == [] then (s, nextId)
    else
      StepKeepsConsistent(s, nextId, hash, sign, reqs[0]);
      var (t, n) := Step(s, nextId, hash, sign, reqs[0]);
      Run(t, n, hash, sign, reqs[1..])
  }

  /** Served one at a time, any sequence of requests keeps usernames unique
      and identifiers fresh; from the empty store in particular. */
  lemma {:induction false} RunKeepsConsistent(s: Store, nextId: Id, hash: Hasher, sign: Signer, reqs: seq<Request>)
    requires Consistent(s, nextId)
    ensures var (t, n) := Run(s, nextId, hash, sign, reqs); Consistent(t, n) && nextId <= n
    decreases |reqs|
  {
    if reqs != [] {
      StepKeepsConsistent(s, nextId, hash, sign, reqs[0]);
      var (t, n) := Step(s, nextId, hash, sign, reqs[0]);
      RunKeepsConsistent(t, n, hash, sign, reqs[1..]);
    }
  }

  /** A sample session: alice registers and signs in,
      a wrong password is refused, bob is created as an admin, a non-admin
      may not change bob's role and an admin may. */
  lemma AliceAndBob(hash: Hasher, sign: Signer, addr: string)
    requires hash("wrong") != hash("pw1")
    ensures var r := Register(map[], hash, "alice", "pw1", 0);
      && r.result == Ok(Entity(0, User("alice", hash("pw1"), {RoleUser}, "")))
      && Login(r.store, hash, sign, "alice", "pw1", addr) == Ok(sign(0, r.store[0], addr))
      && Login(r.store, hash, sign, "alice", "wrong", addr) == Err(FormError("Password"))
      && 1 !in r.store
      && var c := Create(r.store, hash, "bob", "pw2", true, 1);
      && c.result.Ok? && c.result.value.user.roles == {RoleAdmin}
      && var toUser := UpdateInput(Some(RoleUser), None, None, None);
      && UpdateUser(c.store, hash, sign, false, 1, toUser, addr).result == Err(Forbidden)
      && var u := UpdateUser(c.store, hash, sign, true, 1, toUser, addr);
      && u.result.Ok? && u.store[1].roles == {RoleUser}
  {
  }
}
