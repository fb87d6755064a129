/**
 The in-memory user repository: a hash map from id to user and an id
 counter, with one business rule: no two users share an email. `save`
 checks the email before it assigns an id or writes anything, so a
 rejected save changes nothing. `existsById` is a stub.
 */
module UserStore {
  import opened Common
  import opened Domain

  datatype UserStore = UserStore(users: map<nat, User>, counter: nat)

  /** Every key is a counter value already drawn and the id of its user. */
  ghost predicate Valid(s: UserStore) {
    forall k :: k in s.users ==> 1 <= k <= s.counter && s.users[k].id == k
  }

  /** No two stored users have the same email. */
  ghost predicate EmailsUnique(s: UserStore) {
    forall j, k :: j in s.users && k in s.users && j != k ==> s.users[j].email != s.users[k].email
  }

  function EmailInUse(email: string): string {
    "a user with this email already exists: " + email
  }

  /** `checkFreeEmail`: some stored user other than the one being saved
      (`id`, `None` for a new user) already has the email. */
  predicate EmailTaken(s: UserStore, id: Option<nat>, email: string) {
    exists u :: u in s.users.Values && Some(u.id) != id && u.email == email
  }

  /** `save`: rejects a taken email; otherwise stores the user under its id,
      drawing a new one when `id` is `None`. */
  function Save(s: UserStore, id: Option<nat>, user: User): (r: Step<UserStore, User>)
    ensures r.result.Err? <==> EmailTaken(s, id, user.email)
    ensures r.result.Err? ==> r.store == s && r.result.error == Validation(EmailInUse(user.email))
    ensures r.result.Ok? ==>
              var saved := r.result.value;
              && saved == user.(id := saved.id)
              && (id.None? ==> saved.id == s.counter + 1 && r.store.counter == s.counter + 1)
              && (id.Some? ==> saved.id == id.value && r.store.counter == s.counter)
              && r.store.users.Keys == s.users.Keys + {saved.id}
              && r.store.users[saved.id] == saved
              && forall k :: k in s.users && k != saved.id ==> r.store.users[k] == s.users[k]
  {
    if EmailTaken(s, id, user.email) then Step(s, Err(Validation(EmailInUse(user.email))))
    else
      match id
      case None =>
        var newId := s.counter + 1;
        var saved := user.(id := newId);
        Step(UserStore(s.users[newId := saved], newId), Ok(saved))
      case Some(k) =>
        var saved := user.(id := k);
        Step(UserStore(s.users[k := saved], s.counter), Ok(saved))
  }

  /** `findById` */
  function FindById(s: UserStore, id: nat): (r: Option<User>)
    ensures r.Some? <==> id in s.users
    ensures r.Some? ==> r.value == s.users[id]
  {
    if id in s.users then Some(s.users[id]) else None
  }

  /** `findAll`: the stored users (a list in no particular order in the source). */
  function FindAll(s: UserStore): (r: set<User>)
    ensures forall u :: u in r <==> exists k :: k in s.users && s.users[k] == u
    ensures |s.users| == 0 ==> r == {}
  {
    s.users.Values
  }

  /** `deleteById` */
  function DeleteById(s: UserStore, id: nat): (r: UserStore)
    ensures r.users.Keys == s.users.Keys - {id}
    ensures forall k :: k in r.users ==> r.users[k] == s.users[k]
    ensures r.counter == s.counter
  {
    s.(users := s.users - {id})
  }

  /** `existsById`: a stub that answers false for every id. */
  function ExistsById(s: UserStore, id: nat): (r: bool)
    ensures !r
  {
    false
  }

  // ---- Properties ---------------------------------------------------------

  /** `save` keeps emails unique and the store consistent, as long as an
      explicit id is one already stored. */
  lemma SaveKeepsInvariant(s: UserStore, id: Option<nat>, user: User)
    requires Valid(s) && EmailsUnique(s)
    requires id.Some? ==> id.value in s.users
    ensures Valid(Save(s, id, user).store)
    ensures EmailsUnique(Save(s, id, user).store)
  {
    var r := Save(s, id, user);
    if r.result.Ok? {
      var saved := r.result.value;
      var s' := r.store;
      forall j, k | j in s'.users && k in s'.users && j != k
        ensures s'.users[j].email != s'.users[k].email
      {
        if j == saved.id || k == saved.id {
          var other := if j == saved.id then k else j;
          assert s.users[other] in s.users.Values;
          assert s.users[other].id == other;
        }
      }
    }
  }

  /** Re-saving a stored user under its own id with its own email is never
      refused: the user is not compared with itself. */
  lemma ResaveOwnEmailAllowed(s: UserStore, k: nat, name: string)
    requires Valid(s) && EmailsUnique(s)
    requires k in s.users
    ensures Save(s, Some(k), s.users[k].(name := name)).result.Ok?
  {
    var email := s.users[k].email;
    forall u | u in s.users.Values && u.id != k
      ensures u.email != email
    {
      var j :| j in s.users && s.users[j] == u;
      assert j != k;
    }
  }

  /** A new user whose email is already stored is refused and nothing
      changes, the counter included. */
  lemma DuplicateEmailRejected(s: UserStore, k: nat, user: User)
    requires k in s.users && user.email == s.users[k].email
    ensures Save(s, None, user) == Step(s, Err(Validation(EmailInUse(user.email))))
  {
    assert s.users[k] in s.users.Values;
  }

  /** Deleting removes only that id and keeps the invariants. */
  lemma DeleteKeepsInvariant(s: UserStore, id: nat, other: nat)
    requires Valid(s) && EmailsUnique(s)
    ensures Valid(DeleteById(s, id)) && EmailsUnique(DeleteById(s, id))
    ensures FindById(DeleteById(s, id), id).None?
    ensures other != id ==> FindById(DeleteById(s, id), other) == FindById(s, other)
  {
  }

  /** `findAll` follows the store: a saved user is listed at once, and after
      a delete no user with that id is listed while every other stored user
      still is. */
  lemma FindAllFollowsSaveAndDelete(s: UserStore, id: Option<nat>, user: User, k: nat)
    requires Valid(s)
    ensures Save(s, id, user).result.Ok? ==> Save(s, id, user).result.value in FindAll(Save(s, id, user).store)
    ensures forall u :: u in FindAll(DeleteById(s, k)) ==> u.id != k
    ensures forall u :: u in FindAll(s) && u.id != k ==> u in FindAll(DeleteById(s, k))
  {
    var r := Save(s, id, user);
    if r.result.Ok? {
      assert r.store.users[r.result.value.id] == r.result.value;
    }
    forall u | u in FindAll(s) && u.id != k
      ensures u in FindAll(DeleteById(s, k))
    {
      var j :| j in s.users && s.users[j] == u;
      assert DeleteById(s, k).users[j] == u;
    }
  }

  /** The stub disagrees with `findById`: a user just saved is found but is
      said not to exist. */
  lemma ExistsByIdIgnoresStore(s: UserStore, user: User)
    requires Save(s, None, user).result.Ok?
    ensures var r := Save(s, None, user);
            FindById(r.store, r.result.value.id).Some? && !ExistsById(r.store, r.result.value.id)
  {
  }
}
