/** The recipe routes. Every lookup is scoped to the authenticated user, so a
    recipe owned by someone else answers exactly like a missing one. */
module RecipeRoutes {
  import opened Common
  import opened Strings
  import opened Http
  import opened RecipeModel
  import opened Auth
  import opened Database

  /** The query string of `GET /recipes` that the model interprets. */
  datatype Query = Query(title: Option<string>, sortBy: Option<string>)

  /** One sort key and its direction: 1 ascending, -1 descending. */
  datatype SortSpec = SortSpec(key: string, direction: int)

  /** The `match` and `sort` handed to the populate query. */
  datatype ListOptions = ListOptions(title: Option<string>, sort: Option<SortSpec>)

  /** The text after the key's "_" starts with the piece "asc": it is "asc"
      itself or "asc" followed by a further "_". */
  predicate NextPieceIsAsc(rest: string) {
    rest == "asc" || (|rest| >= 4 && rest[..4] == "asc_")
  }

  /** The first "_"-piece of `d` is "asc" exactly when `d` starts with that piece. */
  lemma {:induction false} FirstPieceAsc(d: string)
    ensures Split(d, '_')[0] == "asc" <==> NextPieceIsAsc(d)
  {
    var p := Split(d, '_');
    if NextPieceIsAsc(d) {
      if d == "asc" {
        SplitNoSeparator(d, '_');
      } else {
        assert d == "asc" + ['_'] + d[4..];
        SplitAtFirst("asc", '_', d[4..]);
      }
    }
    if p[0] == "asc" {
      if |p| == 1 {
        assert d == p[0];
      } else {
        SplitRest(d, '_');
        assert d[..4] == p[0] + ['_'];
      }
    }
  }

  /** `sortBy.split("_")`: the key is the text before the first "_", and the
      direction is ascending exactly when the piece after that "_" is "asc". */
  function ParseSortBy(sortBy: string): (r: SortSpec)
    ensures r.direction == 1 || r.direction == -1
    ensures '_' !in r.key && |r.key| <= |sortBy| && sortBy[..|r.key|] == r.key
    ensures |r.key| < |sortBy| ==> sortBy[|r.key|] == '_'
    ensures r.direction == 1 <==> |r.key| < |sortBy| && NextPieceIsAsc(sortBy[|r.key| + 1..])
  {
    var parts := Split(sortBy, '_');
    if |parts| > 1 then
      SplitRest(sortBy, '_');
      FirstPieceAsc(sortBy[|parts[0]| + 1..]);
      SortSpec(parts[0], if parts[1] == "asc" then 1 else -1)
    else
      SortSpec(parts[0], -1)
  }

  /** `f_d` with no "_" in `f` or `d` sorts on `f`, ascending exactly when `d` is "asc". */
  lemma {:induction false} ParseFieldDirection(f: string, d: string)
    requires '_' !in f && '_' !in d
    ensures ParseSortBy(f + "_" + d) == SortSpec(f, if d == "asc" then 1 else -1)
  {
    SplitAtFirst(f, '_', d);
    SplitNoSeparator(d, '_');
  }

  /** Pieces after the second "_" play no part: `f_d_e` sorts like `f_d`. */
  lemma {:induction false} ParseFieldDirectionRest(f: string, d: string, e: string)
    requires '_' !in f && '_' !in d
    ensures ParseSortBy(f + "_" + d + "_" + e) == SortSpec(f, if d == "asc" then 1 else -1)
  {
    assert f + "_" + d + "_" + e == f + ['_'] + (d + ['_'] + e);
    SplitAtFirst(f, '_', d + ['_'] + e);
    SplitAtFirst(d, '_', e);
  }

  /** A `sortBy` without "_" sorts on the whole string, descending. */
  lemma {:induction false} ParseFieldOnly(f: string)
    requires '_' !in f
    ensures ParseSortBy(f) == SortSpec(f, -1)
  {
    SplitNoSeparator(f, '_');
  }

  /** The options of the list query: a title filter and a sort only when the
      query gives a non-empty value for them (an empty string is falsy). */
  function ListQuery(q: Query): (opts: ListOptions)
    ensures opts.title.Some? <==> q.title.Some? && q.title.value != ""
    ensures opts.title.Some? ==> opts.title == q.title
    ensures opts.sort.Some? <==> q.sortBy.Some? && q.sortBy.value != ""
    ensures opts.sort.Some? ==> opts.sort.value == ParseSortBy(q.sortBy.value)
  {
    ListOptions(
      if q.title.Some? && q.title.value != "" then q.title else None,
      if q.sortBy.Some? && q.sortBy.value != "" then Some(ParseSortBy(q.sortBy.value)) else None)
  }

  /** Every key of the body is in the route's whitelist. */
  predicate OnlyEditable(body: map<string, Value>) {
    forall key :: key in body ==> key in RecipeModel.Editable
  }

  /** `updates.forEach((update) => (recipe[update] = body[update]))`: assign
      the body's keys one at a time; the result is the document with every
      provided field replaced and the rest, owner included, as it was. */
  method AssignAll(start: RecipeDoc, body: map<string, Value>) returns (doc: RecipeDoc)
    requires OnlyEditable(body)
    ensures doc == Patched(start, body)
  {
    doc := start;
    var pending := body.Keys;
    while pending != {}
      invariant pending <= body.Keys
      invariant doc == Patched(start, body - pending)
      decreases pending
    {
      var key :| key in pending;
      PatchedStep(start, body - pending, key, body[key]);
      assert body - (pending - {key}) == (body - pending)[key := body[key]];
      doc := Assign(doc, key, body[key]);
      pending := pending - {key};
    }
    assert body - pending == body;
  }

  /** `POST /recipes`: build the recipe from the body with the requester as
      owner (whatever owner the body names) and store it, or answer 400 with
      the validation failures and store nothing. */
  method Create(db: Db, header: Option<string>, body: map<string, Value>) returns (resp: Response)
    requires db.Valid()
    modifies db
    ensures db.Valid()
    ensures db.users == old(db.users)
    ensures match Authenticate(old(db.users), header, db.ext.verify)
      case None => resp == Unauthorized && db.recipes == old(db.recipes)
      case Some(s) =>
        match Validate(NewDoc(body, s.user))
        case Err(fs) => resp == Response(400, SaveFailed(Invalid(fs))) && db.recipes == old(db.recipes)
        case Ok(r) =>
          && r.owner == s.user
          && old(db.nextId) !in old(db.recipes)
          && db.recipes == old(db.recipes)[old(db.nextId) := r]
          && resp == Response(201, RecipeOut(old(db.nextId), r))
  {
    var session := Authenticate(db.users, header, db.ext.verify);
    if session.None? {
      resp := Unauthorized;
      return;
    }
    var s := session.value;
    var saved := db.InsertRecipe(NewDoc(body, s.user));
    if saved.Err? {
      resp := Response(400, SaveFailed(Invalid(saved.error)));
      return;
    }
    resp := Response(201, RecipeOut(saved.value, db.recipes[saved.value]));
  }

  /** `GET /recipes`: the requester's recipes, only those whose title equals
      the `title` filter when one is given. The page (limit, skip) and the
      order the sort produces are not modelled: the answer is the matching
      recipes by id. */
  method List(db: Db, header: Option<string>, q: Query) returns (resp: Response)
    ensures resp.status == 200 <==> Authenticate(db.users, header, db.ext.verify).Some?
    ensures resp.status != 200 ==> resp == Unauthorized
    ensures resp.status == 200 ==>
      var s := Authenticate(db.users, header, db.ext.verify).value;
      var title := ListQuery(q).title;
      && resp.body.RecipeList?
      && (forall id :: id in resp.body.recipes <==>
            && id in db.recipes && db.recipes[id].owner == s.user
            && (title.Some? ==> db.recipes[id].title == title.value))
      && (forall id :: id in resp.body.recipes ==> resp.body.recipes[id] == db.recipes[id])
  {
    var session := Authenticate(db.users, header, db.ext.verify);
    if session.None? {
      resp := Unauthorized;
      return;
    }
    var s := session.value;
    var opts := ListQuery(q);
    var found := map id | id in db.recipes && db.recipes[id].owner == s.user
                              && (opts.title.Some? ==> db.recipes[id].title == opts.title.value)
                          :: db.recipes[id];
    resp := Response(200, RecipeList(found));
  }

  /** `GET /recipes/:id`: the recipe if the requester owns it; 404 when it is
      missing or owned by someone else. */
  method Get(db: Db, header: Option<string>, id: Id) returns (resp: Response)
    ensures Authenticate(db.users, header, db.ext.verify).None? ==> resp == Unauthorized
    ensures Authenticate(db.users, header, db.ext.verify).Some? ==>
      var s := Authenticate(db.users, header, db.ext.verify).value;
      if id in db.recipes && db.recipes[id].owner == s.user
      then resp == Response(200, RecipeOut(id, db.recipes[id]))
      else resp == Response(404, Empty)
  {
    var session := Authenticate(db.users, header, db.ext.verify);
    if session.None? {
      resp := Unauthorized;
      return;
    }
    var found := db.FindOwned(id, session.value.user);
    resp := if found.Some? then Response(200, RecipeOut(id, found.value)) else Response(404, Empty);
  }

  /** `PATCH /recipes/:id`: a key outside the whitelist is a 400 before any
      lookup; a recipe the requester does not own is a 404; otherwise the
      provided fields are assigned and the recipe saved, or a 400 if the save
      fails validation. */
  method Patch(db: Db, header: Option<string>, id: Id, body: map<string, Value>) returns (resp: Response)
    requires db.Valid()
    modifies db
    ensures db.Valid()
    ensures db.users == old(db.users)
    ensures match Authenticate(old(db.users), header, db.ext.verify)
      case None => resp == Unauthorized && db.recipes == old(db.recipes)
      case Some(s) =>
        if !OnlyEditable(body) then
          resp == InvalidUpdates && db.recipes == old(db.recipes)
        else if !(id in old(db.recipes) && old(db.recipes)[id].owner == s.user) then
          resp == Response(404, Empty) && db.recipes == old(db.recipes)
        else
          match Validate(Patched(ToDoc(old(db.recipes)[id]), body))
          case Err(fs) => resp == Response(400, SaveFailed(Invalid(fs))) && db.recipes == old(db.recipes)
          case Ok(r) =>
            && r.owner == s.user
            && resp == Response(200, RecipeOut(id, r))
            && db.recipes == old(db.recipes)[id := r]
  {
    var session := Authenticate(db.users, header, db.ext.verify);
    if session.None? {
      resp := Unauthorized;
      return;
    }
    var s := session.value;
    if !OnlyEditable(body) {
      resp := InvalidUpdates;
      return;
    }
    var found := db.FindOwned(id, s.user);
    if found.None? {
      resp := Response(404, Empty);
      return;
    }
    var doc := AssignAll(ToDoc(found.value), body);
    var saved := db.SaveRecipe(id, doc);
    if saved.Err? {
      resp := Response(400, SaveFailed(Invalid(saved.error)));
      return;
    }
    resp := Response(200, RecipeOut(id, saved.value));
  }

  /** `DELETE /recipes/:id`: remove the recipe only if the requester owns it
      and answer with it; 404, with nothing removed, otherwise. */
  method Delete(db: Db, header: Option<string>, id: Id) returns (resp: Response)
    requires db.Valid()
    modifies db
    ensures db.Valid()
    ensures db.users == old(db.users)
    ensures match Authenticate(old(db.users), header, db.ext.verify)
      case None => resp == Unauthorized && db.recipes == old(db.recipes)
      case Some(s) =>
        if id in old(db.recipes) && old(db.recipes)[id].owner == s.user then
          resp == Response(200, RecipeOut(id, old(db.recipes)[id])) && db.recipes == old(db.recipes) - {id}
        else
          resp == Response(404, Empty) && db.recipes == old(db.recipes)
  {
    var session := Authenticate(db.users, header, db.ext.verify);
    if session.None? {
      resp := Unauthorized;
      return;
    }
    var removed := db.FindOneAndDelete(id, session.value.user);
    resp := if removed.Some? then Response(200, RecipeOut(id, removed.value)) else Response(404, Empty);
  }
}
