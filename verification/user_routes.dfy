/** The user routes: signup, login, logout of one session or of all,
    reading, patching and deleting one's own profile. */
module UserRoutes {
  import opened Common
  import opened Http
  import opened UserModel
  import opened Auth
  import opened Database

  /** The logout filter: every entry equal to the session's token goes, every
      other entry stays, as often as it occurred. */
  function WithoutToken(tokens: seq<string>, token: string): (r: seq<string>)
    ensures forall t :: t in r <==> t in tokens && t != token
  {
    if tokens == [] then []
    else if tokens[0] == token then WithoutToken(tokens[1..], token)
      else [tokens[0]] + WithoutToken(tokens[1..], token)
  }

  /** Every other token stays as often as it occurred; the session's token goes every time. */
  lemma {:induction false} WithoutTokenCounts(tokens: seq<string>, token: string)
    ensures forall t :: t != token ==> multiset(WithoutToken(tokens, token))[t] == multiset(tokens)[t]
    ensures |WithoutToken(tokens, token)| == |tokens| - multiset(tokens)[token]
  {
    if tokens != [] {
      WithoutTokenCounts(tokens[1..], token);
      assert tokens == [tokens[0]] + tokens[1..];
    }
  }

  /** Filtering keeps the order: filtering a concatenation is concatenating the filtered parts. */
  lemma {:induction false} WithoutTokenConcat(a: seq<string>, b: seq<string>, token: string)
    ensures WithoutToken(a + b, token) == WithoutToken(a, token) + WithoutToken(b, token)
  {
    if a != [] {
      WithoutTokenConcat(a[1..], b, token);
      assert (a + b)[0] == a[0] && (a + b)[1..] == a[1..] + b;
      if a[0] != token {
        assert WithoutToken(a + b, token) == [a[0]] + WithoutToken(a[1..] + b, token);
        assert WithoutToken(a, token) == [a[0]] + WithoutToken(a[1..], token);
      }
    } else {
      assert a + b == b;
    }
  }

  /** After logging out of `token`, no header carrying that token (with or
      without "Bearer ") admits anyone, and the guard answers every other
      header as before. */
  lemma LogoutRevokes(users: map<Id, User>, id: Id, token: string, verify: string -> Option<Id>, header: string)
    requires id in users && verify(token) == Some(id)
    ensures var after := users[id := users[id].(tokens := WithoutToken(users[id].tokens, token))];
      && (BearerToken(header) == token ==> Authenticate(after, Some(header), verify).None?)
      && (BearerToken(header) != token ==>
            Authenticate(after, Some(header), verify) == Authenticate(users, Some(header), verify))
  {
  }

  /** After logging out of every session, no token admits that user. */
  lemma LogoutAllRevokes(users: map<Id, User>, id: Id, verify: string -> Option<Id>, header: Option<string>)
    requires id in users
    ensures var s := Authenticate(users[id := users[id].(tokens := [])], header, verify);
      s.Some? ==> s.value.user != id
  {
  }

  /** Every key of the body is in the route's whitelist. */
  predicate OnlyEditable(body: map<string, Value>) {
    forall key :: key in body ==> key in UserModel.Editable
  }

  /** `POST /users`: validate and store a new user (its password hashed), issue
      one token, answer 201 with the serialised user and the token; any
      validation failure or an email already on file is a 400 and stores nothing. */
  method Signup(db: Db, body: map<string, Value>, salt: string, now: int) returns (resp: Response)
    requires db.Valid()
    modifies db
    ensures db.Valid()
    ensures db.recipes == old(db.recipes)
    ensures var v := Validate(NewDoc(body), db.ext.isEmail);
      && (resp.status == 201 <==> v.Ok? && old(db.EmailFree(v.value.email, db.nextId)))
      && (resp.status != 201 ==> resp.status == 400 && db.users == old(db.users))
      && (v.Err? ==> resp == Response(400, SaveFailed(Invalid(v.error))))
      && (resp.status == 201 ==>
            var id := old(db.nextId);
            var token := db.ext.sign(id, now);
            && id !in old(db.users)
            && db.users == old(db.users)[id := User(v.value.name, v.value.email,
                                                    db.ext.hash(v.value.password, salt),
                                                    v.value.tokens + [token])]
            && db.users[id].password != v.value.password
            && ("tokens" !in body ==> db.users[id].tokens == [token])
            && resp.body == UserAndToken(ToJSON(id, db.users[id]), token)
            && Authenticate(db.users, Some("Bearer " + token), db.ext.verify) == Some(Session(id, token)))
  {
    var saved := db.InsertUser(NewDoc(body), salt);
    if saved.Err? {
      resp := Response(400, SaveFailed(saved.error));
      return;
    }
    var id := saved.value;
    ghost var v := Validate(NewDoc(body), db.ext.isEmail);
    ghost var inserted := db.users;
    assert v.Ok? && inserted == old(db.users)[id := HashOnSave(v.value, true, salt, db.ext)];
    var token := db.GenerateAuthToken(id, now);
    ghost var stored := User(v.value.name, v.value.email, db.ext.hash(v.value.password, salt), v.value.tokens + [token]);
    assert db.users == inserted[id := stored];
    UpdateTwice(old(db.users), id, HashOnSave(v.value, true, salt, db.ext), stored);
    IssuedTokenAdmits(db.users, db.ext, id, now);
    resp := Response(201, UserAndToken(ToJSON(id, db.users[id]), token));
  }

  /** `POST /users/login`: on matching credentials, append one token to the
      user's list (earlier tokens kept) and answer 200 with the user and the
      token; otherwise a 400 with an empty body, the same for an unknown email
      and a wrong password. */
  method Login(db: Db, email: string, password: string, now: int) returns (resp: Response)
    requires db.Valid()
    modifies db
    ensures db.Valid()
    ensures db.recipes == old(db.recipes) && db.nextId == old(db.nextId)
    ensures var found := old(db.ByEmail(NormalizeEmail(email)));
      && (resp.status == 200 <==> found.Some? && db.ext.compare(password, old(db.users)[found.value].password))
      && (resp.status != 200 ==> resp == Response(400, Empty) && db.users == old(db.users))
      && (resp.status == 200 ==>
            var id := found.value;
            var token := db.ext.sign(id, now);
            && db.users == old(db.users)[id := old(db.users)[id].(tokens := old(db.users)[id].tokens + [token])]
            && resp.body == UserAndToken(ToJSON(id, db.users[id]), token))
  {
    var found := db.FindByCredentials(email, password);
    if found.None? {
      resp := Response(400, Empty);
      return;
    }
    var id := found.value;
    var token := db.GenerateAuthToken(id, now);
    resp := Response(200, UserAndToken(ToJSON(id, db.users[id]), token));
  }

  /** `POST /users/logout`: drop the session's token from the user's list. */
  method Logout(db: Db, header: Option<string>) returns (resp: Response)
    requires db.Valid()
    modifies db
    ensures db.Valid()
    ensures db.recipes == old(db.recipes) && db.nextId == old(db.nextId)
    ensures match Authenticate(old(db.users), header, db.ext.verify)
      case None => resp == Unauthorized && db.users == old(db.users)
      case Some(s) =>
        && resp == Response(200, Empty)
        && db.users == old(db.users)[s.user := old(db.users)[s.user].(
             tokens := WithoutToken(old(db.users)[s.user].tokens, s.token))]
  {
    var session := Authenticate(db.users, header, db.ext.verify);
    if session.None? {
      resp := Unauthorized;
      return;
    }
    var s := session.value;
    var u := db.users[s.user];
    db.users := db.users[s.user := u.(tokens := WithoutToken(u.tokens, s.token))];
    resp := Response(200, Empty);
  }

  /** `POST /users/logoutAll`: empty the user's token list. */
  method LogoutAll(db: Db, header: Option<string>) returns (resp: Response)
    requires db.Valid()
    modifies db
    ensures db.Valid()
    ensures db.recipes == old(db.recipes) && db.nextId == old(db.nextId)
    ensures match Authenticate(old(db.users), header, db.ext.verify)
      case None => resp == Unauthorized && db.users == old(db.users)
      case Some(s) =>
        && resp == Response(200, Empty)
        && db.users == old(db.users)[s.user := old(db.users)[s.user].(tokens := [])]
  {
    var session := Authenticate(db.users, header, db.ext.verify);
    if session.None? {
      resp := Unauthorized;
      return;
    }
    var s := session.value;
    db.users := db.users[s.user := db.users[s.user].(tokens := [])];
    resp := Response(200, Empty);
  }

  /** `GET /users/me`: the authenticated user, serialised without secrets. */
  method Me(db: Db, header: Option<string>) returns (resp: Response)
    ensures resp.status == 200 || resp == Unauthorized
    ensures resp.status == 200 <==> Authenticate(db.users, header, db.ext.verify).Some?
    ensures resp.status == 200 ==>
      var s := Authenticate(db.users, header, db.ext.verify).value;
      resp.body == UserOut(ToJSON(s.user, db.users[s.user]))
  {
    var session := Authenticate(db.users, header, db.ext.verify);
    if session.None? {
      resp := Unauthorized;
      return;
    }
    var s := session.value;
    resp := Response(200, UserOut(ToJSON(s.user, db.users[s.user])));
  }

  /** `updates.forEach((update) => (user[update] = body[update]))`: assign the
      body's keys one at a time; the result is the document with every
      provided field replaced and the rest as it was. */
  method AssignAll(start: UserDoc, body: map<string, Value>) returns (doc: UserDoc)
    requires OnlyEditable(body)
    ensures doc == Patched(start, body)
  {
    doc := start;
    var pending := body.Keys;
    while pending != {}
      invariant pending <= body.Keys
      invariant doc == Patched(start, body - pending)
      decreases pending
    {
      var key :| key in pending;
      PatchedStep(start, body - pending, key, body[key]);
      assert body - (pending - {key}) == (body - pending)[key := body[key]];
      doc := Assign(doc, key, body[key]);
      pending := pending - {key};
    }
    assert body - pending == body;
  }

  /** `PATCH /users/me`: a key outside {name, email, password} is a 400 before
      anything changes; otherwise the provided fields are assigned one by one
      and the user is saved (the password re-hashed only if its value
      changed), or a 400 if the save fails. */
  method PatchMe(db: Db, header: Option<string>, body: map<string, Value>, salt: string) returns (resp: Response)
    requires db.Valid()
    modifies db
    ensures db.Valid()
    ensures db.recipes == old(db.recipes) && db.nextId == old(db.nextId)
    ensures match Authenticate(old(db.users), header, db.ext.verify)
      case None => resp == Unauthorized && db.users == old(db.users)
      case Some(s) =>
        if !OnlyEditable(body) then
          resp == InvalidUpdates && db.users == old(db.users)
        else
          var u := old(db.users)[s.user];
          var doc := Patched(ToDoc(u), body);
          match Validate(doc, db.ext.isEmail)
          case Err(fs) => resp == Response(400, SaveFailed(Invalid(fs))) && db.users == old(db.users)
          case Ok(u') =>
            if old(db.EmailFree(u'.email, s.user)) then
              var saved := HashOnSave(u', doc.password != Given(u.password), salt, db.ext);
              && resp == Response(200, UserOut(ToJSON(s.user, saved)))
              && db.users == old(db.users)[s.user := saved]
            else
              resp == Response(400, SaveFailed(DuplicateKey)) && db.users == old(db.users)
  {
    var session := Authenticate(db.users, header, db.ext.verify);
    if session.None? {
      resp := Unauthorized;
      return;
    }
    var s := session.value;
    if !OnlyEditable(body) {
      resp := InvalidUpdates;
      return;
    }
    var u := db.users[s.user];
    var doc := AssignAll(ToDoc(u), body);
    var failed := db.SaveUser(s.user, doc, doc.password != Given(u.password), salt);
    if failed.Some? {
      resp := Response(400, SaveFailed(failed.value));
      return;
    }
    resp := Response(200, UserOut(ToJSON(s.user, db.users[s.user])));
  }

  /** `DELETE /users/me`: remove the user and, through the pre-remove hook,
      every recipe it owns; answer with the removed user. */
  method DeleteMe(db: Db, header: Option<string>) returns (resp: Response)
    requires db.Valid()
    modifies db
    ensures db.Valid()
    ensures db.nextId == old(db.nextId)
    ensures match Authenticate(old(db.users), header, db.ext.verify)
      case None => resp == Unauthorized && db.users == old(db.users) && db.recipes == old(db.recipes)
      case Some(s) =>
        && resp == Response(200, UserOut(ToJSON(s.user, old(db.users)[s.user])))
        && db.users == old(db.users) - {s.user}
        && (forall k :: k in db.recipes <==> k in old(db.recipes) && old(db.recipes)[k].owner != s.user)
        && (forall k :: k in db.recipes ==> db.recipes[k] == old(db.recipes)[k])
  {
    var session := Authenticate(db.users, header, db.ext.verify);
    if session.None? {
      resp := Unauthorized;
      return;
    }
    var s := session.value;
    var u := db.users[s.user];
    db.RemoveUser(s.user);
    resp := Response(200, UserOut(ToJSON(s.user, u)));
  }
}
