/** Entities of the user-account service: user records, roles, the typed
    request errors, and the queries the service runs against its user store. */
module UserModel {

  /** Record identifiers. The document store assigns one on the first save of a
      record; the model draws them from a counter kept by Service.UserService. */
  type Id = nat

  /** The closed role enumeration (ROLE_USER, ROLE_ADMIN). */
  datatype Role = RoleUser | RoleAdmin

  /** A stored user record. Its identifier is the key it is stored under. */
  datatype User = User(username: string, passwordHash: string, roles: set<Role>, img: string)

  /** A record together with its identifier, as the repository hands it back. */
  datatype Entity = Entity(id: Id, user: User)

  /** The key-indexed user store. */
  type Store = map<Id, User>

  /** A signed session token; its encoding belongs to the token signer. */
  type Token = string

  /** The deterministic one-way password hash. Nothing else is known about it. */
  type Hasher = string -> string

  /** The token signer: binds a stored user (identifier and record) to the
      network address of the request. Nothing else is known about it. */
  type Signer = (Id, User, string) -> Token

  datatype Option<T> = None | Some(value: T)

  /** The four request-level failures the service raises. */
  datatype Error =
    | NotFound(entity: string)
    | FormError(field: string)
    | DuplicatedError(entity: string)
    | Forbidden

  datatype Result<T> = Ok(value: T) | Err(error: Error)

  /** What an operation returns, together with the store it leaves behind. */
  datatype Outcome<T> = Outcome(result: Result<T>, store: Store)

  /** Some record of `s` holds the username `name`. */
  ghost predicate Taken(s: Store, name: string) {
    exists i :: i in s && s[i].username == name
  }

  /** The store-wide invariant: no two records share a username. */
  ghost predicate UsernamesUnique(s: Store) {
    forall i, j :: i in s && j in s && s[i].username == s[j].username ==> i == j
  }

  /** The repository's username query: a record holding `name`, if there is one.
      Once usernames are unique, the record it finds is the only holder. */
  ghost function FindByUsername(s: Store, name: string): (r: Option<Id>)
    ensures r.None? <==> !Taken(s, name)
    ensures r.Some? ==> r.value in s && s[r.value].username == name
    ensures UsernamesUnique(s) ==> forall i :: i in s && s[i].username == name ==> r == Some(i)
  {
    if Taken(s, name) then Some(var i :| i in s && s[i].username == name; i) else None
  }
}
