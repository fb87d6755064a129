/**
 The user service over the in-memory user repository: look a user up, and
 apply a partial update whose null fields keep their stored value and
 whose non-null fields must not be blank.
 */
module UserService {
  import opened Common
  import opened Domain
  import US = UserStore

  const UnknownUserGet := "attempt to get a user that does not exist"
  const UnknownUserUpdate := "attempt to update a user that does not exist"
  const BlankName := "the user name must not be blank"
  const BlankEmail := "the email address must not be blank"

  /** `getUser` */
  function GetUser(s: US.UserStore, id: nat): (r: Result<User>)
    ensures r.Ok? <==> id in s.users
    ensures r.Ok? ==> r.value == s.users[id]
    ensures r.Err? ==> r.error == NotFound(UnknownUserGet)
  {
    match US.FindById(s, id)
    case None => Err(NotFound(UnknownUserGet))
    case Some(u) => Ok(u)
  }

  /** The user with the non-null fields of the request copied over it. */
  function Patch(u: User, name: Option<string>, email: Option<string>): (r: User)
    ensures r.id == u.id
    ensures r.name == (if name.Some? then name.value else u.name)
    ensures r.email == (if email.Some? then email.value else u.email)
  {
    u.(name := name.GetOr(u.name), email := email.GetOr(u.email))
  }

  /** The first failing guard of an update, in the order the service checks
      them: the user exists, the name is not blank, the email is not blank. */
  function UpdateGuard(s: US.UserStore, id: nat, name: Option<string>, email: Option<string>): (r: Option<Error>)
    ensures r == None <==> id in s.users && !(name.Some? && IsBlank(name.value)) && !(email.Some? && IsBlank(email.value))
    ensures id !in s.users ==> r == Some(NotFound(UnknownUserUpdate))
    ensures id in s.users && name.Some? && IsBlank(name.value) ==> r == Some(Validation(BlankName))
    ensures id in s.users && !(name.Some? && IsBlank(name.value)) && email.Some? && IsBlank(email.value) ==>
              r == Some(Validation(BlankEmail))
  {
    if id !in s.users then Some(NotFound(UnknownUserUpdate))
    else if name.Some? && IsBlank(name.value) then Some(Validation(BlankName))
    else if email.Some? && IsBlank(email.value) then Some(Validation(BlankEmail))
    else None
  }

  /** `updateUser` with the intended effect: a refused update, whether by a
      guard or by the repository's email check, changes nothing. */
  function UpdateUser(s: US.UserStore, id: nat, name: Option<string>, email: Option<string>): (r: Step<US.UserStore, User>)
    ensures r.result.Err? ==> r.store == s
    ensures UpdateGuard(s, id, name, email).Some? ==> r.result == Err(UpdateGuard(s, id, name, email).value)
    ensures UpdateGuard(s, id, name, email).None? ==>
              var u := s.users[id];
              var want := Patch(u, name, email);
              && (r.result.Ok? <==> !US.EmailTaken(s, Some(id), want.email))
              && (r.result.Err? ==> r.result.error == Validation(US.EmailInUse(want.email)))
              && (r.result.Ok? ==>
                    && r.result.value == want.(id := id)
                    && r.store.counter == s.counter
                    && r.store.users.Keys == s.users.Keys
                    && r.store.users[id] == r.result.value
                    && forall k :: k in s.users && k != id ==> r.store.users[k] == s.users[k])
  {
    match UpdateGuard(s, id, name, email)
    case Some(e) => Step(s, Err(e))
    case None =>
      var u := s.users[id];
      US.Save(s, Some(id), Patch(u, name, email))
  }

  /** `updateUser` as the source runs on the in-memory repository: the user
      object returned by `findById` is the one held in the map, so the field
      copy is already stored when `save` runs its email check, and a refused
      save does not undo it. */
  function UpdateUserAsWritten(s: US.UserStore, id: nat, name: Option<string>, email: Option<string>): (r: Step<US.UserStore, User>)
    ensures UpdateGuard(s, id, name, email).Some? ==> r == Step(s, Err(UpdateGuard(s, id, name, email).value))
    ensures UpdateGuard(s, id, name, email).None? ==>
              var want := Patch(s.users[id], name, email);
              && (r.result.Err? ==> r.result.error == Validation(US.EmailInUse(want.email))
                                    && r.store.users == s.users[id := want]
                                    && r.store.counter == s.counter)
              && (r.result.Ok? ==> r.result.value == want.(id := id) && r.store.users == s.users[id := r.result.value])
  {
    match UpdateGuard(s, id, name, email)
    case Some(e) => Step(s, Err(e))
    case None =>
      var u := s.users[id];
      var want := Patch(u, name, email);
      var aliased := s.(users := s.users[id := want]);
      US.Save(aliased, Some(id), want)
  }

  // ---- Properties ---------------------------------------------------------

  /** An update that sets nothing returns the stored user and leaves the
      store as it was. */
  lemma EmptyUpdateIsIdentity(s: US.UserStore, id: nat)
    requires US.Valid(s) && US.EmailsUnique(s)
    requires id in s.users
    ensures UpdateUser(s, id, None, None) == Step(s, Ok(s.users[id]))
  {
    US.ResaveOwnEmailAllowed(s, id, s.users[id].name);
    var u := s.users[id];
    assert Patch(u, None, None) == u.(name := u.name);
    var r := UpdateUser(s, id, None, None);
    assert r.store.users == s.users;
  }

  /** Updates keep the store consistent and emails unique; the user's id
      never changes. */
  lemma UpdateKeepsInvariant(s: US.UserStore, id: nat, name: Option<string>, email: Option<string>)
    requires US.Valid(s) && US.EmailsUnique(s)
    ensures US.Valid(UpdateUser(s, id, name, email).store)
    ensures US.EmailsUnique(UpdateUser(s, id, name, email).store)
    ensures UpdateUser(s, id, name, email).result.Ok? ==> UpdateUser(s, id, name, email).result.value.id == id
  {
    if UpdateGuard(s, id, name, email).None? {
      var u := s.users[id];
      US.SaveKeepsInvariant(s, Some(id), Patch(u, name, email));
    }
  }

  /** Existence is checked before the fields: a missing user with a blank
      name is NotFound, not a validation error. */
  lemma MissingUserBeforeBlankFields(s: US.UserStore, id: nat, name: string)
    requires id !in s.users && IsBlank(name)
    ensures UpdateUser(s, id, Some(name), Some(name)).result == Err(NotFound(UnknownUserUpdate))
  {
  }

  /** The as-written update, refused for taking another user's email, still
      leaves two users with that email: user 1 tries to take user 2's
      address. */
  lemma AsWrittenRefusedUpdateBreaksUniqueEmails()
    ensures var s := US.UserStore(map[1 := User(1, "a", "a@x"), 2 := User(2, "b", "b@x")], 2);
            && US.Valid(s) && US.EmailsUnique(s)
            && UpdateUserAsWritten(s, 1, None, Some("b@x")).result.Err?
            && !US.EmailsUnique(UpdateUserAsWritten(s, 1, None, Some("b@x")).store)
  {
    var s := US.UserStore(map[1 := User(1, "a", "a@x"), 2 := User(2, "b", "b@x")], 2);
    assert !IsBlank("b@x") by { assert !IsWhitespace("b@x"[0]); }
    assert s.users[2] in s.users.Values;
    var r := UpdateUserAsWritten(s, 1, None, Some("b@x"));
    assert r.store.users[1].email == r.store.users[2].email;
  }

  /** The two versions refuse exactly the same requests and agree on every
      accepted one; they differ only in what a refused update leaves behind. */
  lemma AsWrittenAgreesOnAcceptedUpdates(s: US.UserStore, id: nat, name: Option<string>, email: Option<string>)
    requires US.Valid(s)
    ensures UpdateUserAsWritten(s, id, name, email).result.Ok? <==> UpdateUser(s, id, name, email).result.Ok?
    ensures UpdateUserAsWritten(s, id, name, email).result.Ok? ==>
              UpdateUserAsWritten(s, id, name, email) == UpdateUser(s, id, name, email)
  {
    if UpdateGuard(s, id, name, email).None? {
      var u := s.users[id];
      var want := Patch(u, name, email);
      var aliased := s.(users := s.users[id := want]);
      if US.EmailTaken(aliased, Some(id), want.email) {
        var v :| v in aliased.users.Values && Some(v.id) != Some(id) && v.email == want.email;
        var k :| k in aliased.users && aliased.users[k] == v;
        assert k != id;
        assert s.users[k] in s.users.Values;
      }
      if US.EmailTaken(s, Some(id), want.email) {
        var v :| v in s.users.Values && Some(v.id) != Some(id) && v.email == want.email;
        var k :| k in s.users && s.users[k] == v;
        assert k != id;
        assert aliased.users[k] in aliased.users.Values;
      }
    }
  }

  /** A user the repository has just saved is what `getUser` returns under
      the new id, and every other id returns what it returned before. */
  lemma GetUserAfterSave(s: US.UserStore, id: Option<nat>, user: User, other: nat)
    requires US.Save(s, id, user).result.Ok?
    ensures var r := US.Save(s, id, user);
            && GetUser(r.store, r.result.value.id) == Ok(r.result.value)
            && r.result.value.email == user.email && r.result.value.name == user.name
            && (other != r.result.value.id ==> GetUser(r.store, other) == GetUser(s, other))
  {
  }
}
