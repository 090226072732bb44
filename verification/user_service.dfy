/** The user service over its repository: a user map that the operations update
    in place, the identifier the repository assigns next, and the hash and
    signer the service delegates to. Sign-in and record reads are the
    functions UserRules.Login and UserRules.DetailUser applied to `users`. */
module Service {
  import opened UserModel
  import UserRules

  class UserService {
    /** The repository's records by identifier. */
    var users: Store
    /** The identifier the repository assigns to the next new record. */
    var nextId: Id
    const hash: Hasher
    const sign: Signer

    ghost predicate Valid()
      reads this
    {
      UserRules.Consistent(users, nextId)
    }

    constructor (hash: Hasher, sign: Signer)
      ensures Valid()
      ensures users == map[] && nextId == 0
      ensures this.hash == hash && this.sign == sign
    {
      this.hash := hash;
      this.sign := sign;
      users := map[];
      nextId := 0;
    }

    /** The repository's username query. */
    method LookupUsername(name: string) returns (r: Option<Id>)
      requires Valid()
      ensures r == FindByUsername(users, name)
    {
      if exists i :: i in users && users[i].username == name {
        var i :| i in users && users[i].username == name;
        r := Some(i);
      } else {
        r := None;
      }
    }

    /** The repository's save of a new record: stored under the next identifier. */
    method SaveNew(u: User) returns (e: Entity)
      requires Valid() && !Taken(users, u.username)
      modifies this
      ensures Valid()
      ensures e == Entity(old(nextId), u)
      ensures users == old(users)[old(nextId) := u] && nextId == old(nextId) + 1
    {
      e := Entity(nextId, u);
      users := users[nextId := u];
      nextId := nextId + 1;
    }

    method Register(username: string, password: string) returns (r: Result<Entity>)
      requires Valid()
      modifies this
      ensures Valid()
      ensures var o := UserRules.Register(old(users), hash, username, password, old(nextId));
        r == o.result && users == o.store
      ensures nextId == if r.Ok? then old(nextId) + 1 else old(nextId)
    {
      var hashed := hash(password);
      var existing := LookupUsername(username);
      if existing.Some? {
        return Err(DuplicatedError("User"));
      }
      var e := SaveNew(User(username, hashed, {RoleUser}, ""));
      r := Ok(e);
    }

    /** Administrative creation; `isAdmin` is the request's admin flag. */
    method Create(username: string, password: string, isAdmin: bool) returns (r: Result<Entity>)
      requires Valid()
      modifies this
      ensures Valid()
      ensures var o := UserRules.Create(old(users), hash, username, password, isAdmin, old(nextId));
        r == o.result && users == o.store
      ensures nextId == if r.Ok? then old(nextId) + 1 else old(nextId)
    {
      var roles := if isAdmin then {RoleAdmin} else {RoleUser};
      var existing := LookupUsername(username);
      if existing.Some? {
        return Err(DuplicatedError("User"));
      }
      var e := SaveNew(User(username, hash(password), roles, ""));
      r := Ok(e);
    }

    method Delete(id: Id) returns (r: Result<bool>)
      requires Valid()
      modifies this
      ensures Valid()
      ensures var o := UserRules.Delete(old(users), id); r == o.result && users == o.store
      ensures nextId == old(nextId)
    {
      if id !in users {
        return Err(NotFound("User"));
      }
      users := users - {id};
      r := Ok(true);
    }

    /** Partial update of record `id`; `isAdmin` is the acting principal's
        admin status and `addr` the caller's address. The record is patched
        field by field and saved once, after every check has passed. */
    method UpdateUser(id: Id, input: UserRules.UpdateInput, isAdmin: bool, addr: string) returns (r: Result<Token>)
      requires Valid()
      modifies this
      ensures Valid()
      ensures var o := UserRules.UpdateUser(old(users), hash, sign, isAdmin, id, input, addr);
        r == o.result && users == o.store
      ensures nextId == old(nextId)
    {
      if id !in users {
        return Err(NotFound("User"));
      }
      var existed := users[id];
      if input.role.Some? {
        if !isAdmin {
          return Err(Forbidden);
        }
        existed := existed.(roles := UserRules.RoleSet(input.role.value));
      }
      if input.password.Some? {
        existed := existed.(passwordHash := hash(input.password.value));
      }
      if input.username.Some? {
        var holder := LookupUsername(input.username.value);
        if holder.Some? && holder.value != id {
          return Err(DuplicatedError("User"));
        }
        existed := existed.(username := input.username.value);
      }
      if input.img.Some? {
        existed := existed.(img := input.img.value);
      }
      users := users[id := existed];
      r := Ok(sign(id, existed, addr));
    }

    /** Legacy password change. */
    method ChangePassword(id: Id, oldPassword: string, newPassword: string) returns (r: Result<Entity>)
      requires Valid()
      modifies this
      ensures Valid()
      ensures var o := UserRules.ChangePassword(old(users), hash, id, oldPassword, newPassword);
        r == o.result && users == o.store
      ensures nextId == old(nextId)
    {
      var hashedOld := hash(oldPassword);
      var hashedNew := hash(newPassword);
      if id !in users {
        return Err(NotFound("User"));
      }
      var existed := users[id];
      if existed.passwordHash != hashedOld {
        return Err(FormError("Password"));
      }
      existed := existed.(passwordHash := hashedNew);
      users := users[id := existed];
      r := Ok(Entity(id, existed));
    }
  }
}
