/**
 * The `Auth` class of the user authentication service: registration, login
 * checks and the session life cycle over the user store.
 *
 * The password hasher (bcrypt's `hashpw` and `checkpw`) is given to the service
 * when it is built; its salt (`gensalt()`) and the session ids it draws
 * (`uuid4()`) are passed in as arguments to the operation that uses them.
 */
module UserAuth {
  import opened Wrappers
  import opened UserStore

  /** The `ValueError` raised by `register_user` for an email already on record. */
  datatype Error = UserAlreadyExists(email: string)

  datatype Result<T> = Ok(value: T) | Err(error: Error)

  /** The property of bcrypt the service relies on: a password verifies against any hash made of it. */
  ghost predicate HashVerifies(hashpw: (string, Bytes) -> Bytes, checkpw: (string, Bytes) -> bool)
  {
    forall password, salt :: checkpw(password, hashpw(password, salt))
  }

  /** An idealised hasher: a hash verifies no password other than the one it was made of. */
  ghost predicate HashBinds(hashpw: (string, Bytes) -> Bytes, checkpw: (string, Bytes) -> bool)
  {
    forall password, other, salt :: checkpw(other, hashpw(password, salt)) ==> other == password
  }

  /**
   * Specification of `Auth.ValidLogin`: what `valid_login` answers for a store.
   * Unknown emails fail; known ones are checked against the first record's hash.
   */
  function LoginValid(users: seq<User>, checkpw: (string, Bytes) -> bool, email: string, password: string): bool
  {
    match FindUserBy(users, ByEmail(email))
    case None => false
    case Some(i) => checkpw(password, users[i].hashedPassword)
  }

  /**
   * Specification of `Auth.GetUserFromSessionId`: whom `get_user_from_session_id`
   * answers for a store. Nobody for `None`; otherwise the first record holding the id.
   */
  function SessionOwner(users: seq<User>, sessionId: Option<string>): Option<User>
  {
    if sessionId.None? then None
    else match FindUserBy(users, BySessionId(sessionId))
      case None => None
      case Some(i) => Some(users[i])
  }

  /**
   * Specification of `Auth.DestroySession`: the store after `destroy_session(user_id)`.
   * That record's session is cleared; an unknown id is ignored.
   */
  function SessionDestroyed(users: seq<User>, userId: int): seq<User>
  {
    match UpdateSessionId(users, userId, None)
    case None => users
    case Some(updated) => updated
  }

  class Auth {
    /** The rows of the `users` table, in insertion order. */
    var users: seq<User>
    const hashpw: (string, Bytes) -> Bytes
    const checkpw: (string, Bytes) -> bool

    ghost predicate Valid()
      reads this
    {
      IdsArePositions(users) && UniqueEmails(users) && UniqueSessionIds(users)
    }

    /** `Auth()`: a service over an empty store. */
    constructor (hashpw: (string, Bytes) -> Bytes, checkpw: (string, Bytes) -> bool)
      ensures Valid() && users == []
      ensures this.hashpw == hashpw && this.checkpw == checkpw
    {
      users := [];
      this.hashpw := hashpw;
      this.checkpw := checkpw;
    }

    /** `register_user`: refuse a known email, otherwise store and return a new record with the hashed password. */
    method RegisterUser(email: string, password: string, salt: Bytes) returns (result: Result<User>)
      requires Valid()
      modifies this
      ensures Valid()
      ensures FindUserBy(old(users), ByEmail(email)).Some? ==>
                result == Err(UserAlreadyExists(email)) && users == old(users)
      ensures FindUserBy(old(users), ByEmail(email)).None? ==>
                && result == Ok(User(|old(users)| + 1, email, hashpw(password, salt), None, None))
                && users == old(users) + [result.value]
    {
      if FindUserBy(users, ByEmail(email)).Some? {
        return Err(UserAlreadyExists(email));
      }
      var hashed := hashpw(password, salt);
      var user := User(|users| + 1, email, hashed, None, None);
      users := users + [user];
      return Ok(user);
    }

    /** `valid_login`: false for an unknown email, otherwise the hasher's verdict on the first record; the store is read only. */
    method ValidLogin(email: string, password: string) returns (valid: bool)
      ensures valid == LoginValid(users, checkpw, email, password)
    {
      var found := FindUserBy(users, ByEmail(email));
      if found.None? {
        return false;
      }
      valid := checkpw(password, users[found.value].hashedPassword);
    }

    /**
     * `create_session`: for a known email, overwrite that record's session id
     * with the fresh id and return it; for an unknown one return `None`.
     */
    method CreateSession(email: string, freshId: string) returns (sessionId: Option<string>)
      requires Valid()
      requires SessionIdUnused(users, freshId)
      modifies this
      ensures Valid()
      ensures match FindUserBy(old(users), ByEmail(email))
              case None => sessionId == None && users == old(users)
              case Some(i) => sessionId == Some(freshId) &&
                              users == old(users)[i := old(users)[i].(sessionId := Some(freshId))]
    {
      var found := FindUserBy(users, ByEmail(email));
      if found.None? {
        return None;
      }
      var user := users[found.value];
      FindById(users, user.id);
      var updated := UpdateSessionId(users, user.id, Some(freshId));
      assert updated.Some?;
      users := updated.value;
      return Some(freshId);
    }

    /** `get_user_from_session_id`: `None` for a `None` id or an id no record holds, else the record holding it. */
    method GetUserFromSessionId(sessionId: Option<string>) returns (user: Option<User>)
      ensures sessionId.None? ==> user.None?
      ensures user.Some? ==> user.value in users && user.value.sessionId == sessionId
      ensures sessionId.Some? && user.None? ==> SessionIdUnused(users, sessionId.value)
      ensures user == SessionOwner(users, sessionId)
    {
      if sessionId.None? {
        return None;
      }
      var found := FindUserBy(users, BySessionId(sessionId));
      if found.None? {
        return None;
      }
      return Some(users[found.value]);
    }

    /** `destroy_session`: clear the session id of the record with that id; an unknown id changes nothing. */
    method DestroySession(userId: int)
      requires Valid()
      modifies this
      ensures Valid()
      ensures users == SessionDestroyed(old(users), userId)
      ensures 1 <= userId <= |old(users)| ==>
                users == old(users)[userId - 1 := old(users)[userId - 1].(sessionId := None)]
      ensures !(1 <= userId <= |old(users)|) ==> users == old(users)
    {
      FindById(users, userId);
      var updated := UpdateSessionId(users, userId, None);
      if updated.Some? {
        users := updated.value;
      }
    }
  }

  /** A user just registered logs in with the password they registered with. */
  lemma RegisterThenValidLogin(users: seq<User>, email: string, password: string, salt: Bytes,
                               hashpw: (string, Bytes) -> Bytes, checkpw: (string, Bytes) -> bool)
    requires FindUserBy(users, ByEmail(email)).None?
    requires HashVerifies(hashpw, checkpw)
    ensures LoginValid(users + [User(|users| + 1, email, hashpw(password, salt), None, None)], checkpw, email, password)
  {
    var user := User(|users| + 1, email, hashpw(password, salt), None, None);
    FindAfterAppend(users, user, ByEmail(email));
  }

  /** Under an idealised hasher, a user just registered is refused any other password. */
  lemma RegisterThenWrongPasswordRejected(users: seq<User>, email: string, password: string, other: string,
                                          salt: Bytes, hashpw: (string, Bytes) -> Bytes,
                                          checkpw: (string, Bytes) -> bool)
    requires FindUserBy(users, ByEmail(email)).None?
    requires HashBinds(hashpw, checkpw)
    requires other != password
    ensures !LoginValid(users + [User(|users| + 1, email, hashpw(password, salt), None, None)], checkpw, email, other)
  {
  }

  /** After `create_session` gives record `i` a fresh id, that id resolves to record `i`. */
  lemma NewSessionResolves(users: seq<User>, i: nat, freshId: string)
    requires i < |users| && SessionIdUnused(users, freshId)
    ensures var after := users[i := users[i].(sessionId := Some(freshId))];
            SessionOwner(after, Some(freshId)) == Some(after[i])
  {
  }

  /** Overwriting or clearing a record's session id leaves its previous id resolving to nobody. */
  lemma ReplacedSessionRevoked(users: seq<User>, i: nat, newId: Option<string>)
    requires UniqueSessionIds(users)
    requires i < |users| && users[i].sessionId.Some? && newId != users[i].sessionId
    ensures SessionOwner(users[i := users[i].(sessionId := newId)], users[i].sessionId) == None
  {
  }

  /** A session id no record holds resolves to nobody, nor does `None`, though logged-out records store `None`. */
  lemma NullSessionNeverResolves(users: seq<User>, i: nat)
    requires i < |users| && users[i].sessionId.None?
    ensures FindUserBy(users, BySessionId(None)).Some?
    ensures SessionOwner(users, None) == None
  {
  }

  /** `destroy_session` twice has the effect of once. */
  lemma DestroySessionIdempotent(users: seq<User>, userId: int)
    ensures SessionDestroyed(SessionDestroyed(users, userId), userId) == SessionDestroyed(users, userId)
  {
  }

  /**
   * The integration script's first steps on a fresh service: register, a wrong
   * password refused, the right one accepted, a session created and resolved,
   * then destroyed so that its id resolves to nobody.
   */
  method LoginLogoutFlow(hashpw: (string, Bytes) -> Bytes, checkpw: (string, Bytes) -> bool,
                         email: string, password: string, wrongPassword: string, salt: Bytes, freshId: string)
    returns (registered: Result<User>, wrongAccepted: bool, rightAccepted: bool,
             loggedIn: Option<User>, afterLogout: Option<User>)
    requires HashVerifies(hashpw, checkpw) && HashBinds(hashpw, checkpw)
    requires wrongPassword != password
    ensures !wrongAccepted && rightAccepted
    ensures registered.Ok? && registered.value.email == email
    ensures loggedIn == Some(registered.value.(sessionId := Some(freshId)))
    ensures afterLogout.None?
  {
    var auth := new Auth(hashpw, checkpw);
    registered := auth.RegisterUser(email, password, salt);
    RegisterThenValidLogin([], email, password, salt, hashpw, checkpw);
    RegisterThenWrongPasswordRejected([], email, password, wrongPassword, salt, hashpw, checkpw);
    wrongAccepted := auth.ValidLogin(email, wrongPassword);
    rightAccepted := auth.ValidLogin(email, password);
    var before := auth.users;
    var sessionId := auth.CreateSession(email, freshId);
    NewSessionResolves(before, 0, freshId);
    loggedIn := auth.GetUserFromSessionId(sessionId);
    auth.DestroySession(loggedIn.value.id);
    ReplacedSessionRevoked(auth.users[0 := auth.users[0].(sessionId := Some(freshId))], 0, None);
    afterLogout := auth.GetUserFromSessionId(sessionId);
  }
}
