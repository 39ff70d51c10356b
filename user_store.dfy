/**
 * The user records of the authentication service and the two store operations
 * it relies on, `DB.find_user_by` and `DB.update_user`. The store module
 * itself (`db.py`) is not part of this model; its behaviour is stated here as
 * the service uses it: a lookup answers the first record that matches or
 * "no result found", and an update overwrites one column of the record with
 * the given id.
 */
module UserStore {
  import opened Wrappers

  type Bytes = seq<bv8>

  /** One row of the `users` table, one field per column. */
  datatype User = User(
    id: int,
    email: string,
    hashedPassword: Bytes,
    sessionId: Option<string>,
    resetToken: Option<string>)

  /** The keyword argument given to `find_user_by`; `session_id=None` selects the rows whose column is null. */
  datatype Criterion = ById(id: int) | ByEmail(email: string) | BySessionId(sessionId: Option<string>)

  predicate Matches(user: User, criterion: Criterion)
  {
    match criterion
    case ById(id) => user.id == id
    case ByEmail(email) => user.email == email
    case BySessionId(sessionId) => user.sessionId == sessionId
  }

  /** `find_user_by`: the index of the first matching record, `None` standing for `NoResultFound`. */
  function FindUserBy(users: seq<User>, criterion: Criterion): (found: Option<nat>)
    ensures found.Some? ==> found.value < |users| && Matches(users[found.value], criterion)
    ensures found.Some? ==> forall j :: 0 <= j < found.value ==> !Matches(users[j], criterion)
    ensures found.None? ==> forall j :: 0 <= j < |users| ==> !Matches(users[j], criterion)
  {
    if |users| == 0 then None
    else if Matches(users[0], criterion) then Some(0)
    else match FindUserBy(users[1..], criterion)
      case None => None
      case Some(i) => Some(i + 1)
  }

  /**
   * `update_user(user_id, session_id=...)`: the store with that record's session
   * column overwritten, or `None` standing for `NoResultFound` when no record has the id.
   */
  function UpdateSessionId(users: seq<User>, userId: int, sessionId: Option<string>): (updated: Option<seq<User>>)
    ensures updated.None? <==> forall j :: 0 <= j < |users| ==> users[j].id != userId
    ensures updated.Some? ==> |updated.value| == |users|
    ensures updated.Some? ==>
              exists i :: && 0 <= i < |users| && users[i].id == userId
                          && (forall j :: 0 <= j < i ==> users[j].id != userId)
                          && updated.value == users[i := users[i].(sessionId := sessionId)]
  {
    match FindUserBy(users, ById(userId))
    case None => None
    case Some(i) => Some(users[i := users[i].(sessionId := sessionId)])
  }

  /** Record ids are assigned 1, 2, 3, ... in insertion order and no record is ever deleted. */
  ghost predicate IdsArePositions(users: seq<User>)
  {
    forall i :: 0 <= i < |users| ==> users[i].id == i + 1
  }

  /** No two records share an email (registration checks before inserting). */
  ghost predicate UniqueEmails(users: seq<User>)
  {
    forall i, j :: 0 <= i < |users| && 0 <= j < |users| && i != j ==> users[i].email != users[j].email
  }

  /** No two records share a live (non-null) session id. */
  ghost predicate UniqueSessionIds(users: seq<User>)
  {
    forall i, j :: 0 <= i < |users| && 0 <= j < |users| && i != j && users[i].sessionId.Some? ==>
      users[i].sessionId != users[j].sessionId
  }

  /** No record holds `sessionId` as its session id. */
  predicate SessionIdUnused(users: seq<User>, sessionId: string)
  {
    forall i :: 0 <= i < |users| ==> users[i].sessionId != Some(sessionId)
  }

  /** With ids assigned by position, the record with id `userId` is the one at `userId - 1`. */
  lemma FindById(users: seq<User>, userId: int)
    requires IdsArePositions(users)
    ensures FindUserBy(users, ById(userId)) == if 1 <= userId <= |users| then Some(userId - 1) else None
  {
    var found := FindUserBy(users, ById(userId));
    if 1 <= userId <= |users| {
      assert Matches(users[userId - 1], ById(userId));
    }
  }

  /** Appending a record changes a lookup only when nothing earlier matched. */
  lemma FindAfterAppend(users: seq<User>, user: User, criterion: Criterion)
    ensures FindUserBy(users + [user], criterion) ==
      match FindUserBy(users, criterion)
      case Some(i) => Some(i)
      case None => if Matches(user, criterion) then Some(|users|) else None
  {
    var all := users + [user];
    assert forall j :: 0 <= j < |users| ==> all[j] == users[j];
    assert all[|users|] == user;
  }
}
