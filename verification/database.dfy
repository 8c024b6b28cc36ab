/** The document store behind both routers: the users and recipes
    collections, and the model-level operations the routers call (saving with
    validation and the password hook, issuing a token, checking credentials,
    removing a user with its recipes, and the owner-scoped recipe queries). */
module Database {
  import opened Common
  import UserModel
  import RecipeModel

  /** `Recipe.deleteMany({owner})`: exactly the recipes of other owners stay, unchanged. */
  function WithoutOwner(recipes: map<Id, RecipeModel.Recipe>, owner: Id): (r: map<Id, RecipeModel.Recipe>)
    ensures forall k :: k in r <==> k in recipes && recipes[k].owner != owner
    ensures forall k :: k in r ==> r[k] == recipes[k]
  {
    map k | k in recipes && recipes[k].owner != owner :: recipes[k]
  }

  /** The store's invariant: the opaque functions behave, every user passed
      validation, emails are unique, every recipe passed validation and has
      a stored owner, and every id is below the next one to hand out. */
  ghost predicate Stored(ext: UserModel.Externals, users: map<Id, UserModel.User>,
                         recipes: map<Id, RecipeModel.Recipe>, nextId: Id)
  {
    && UserModel.Sound(ext)
    && (forall id :: id in users ==> id < nextId && UserModel.Acceptable(users[id], ext.isEmail))
    && (forall a, b :: a in users && b in users && a != b ==> users[a].email != users[b].email)
    && (forall id :: id in recipes ==>
          && id < nextId
          && RecipeModel.WellFormed(recipes[id])
          && recipes[id].owner in users)
  }

  /** Removing a user together with their recipes keeps the invariant. */
  lemma RemovalKeepsStored(ext: UserModel.Externals, users: map<Id, UserModel.User>,
                           recipes: map<Id, RecipeModel.Recipe>, nextId: Id, id: Id)
    requires Stored(ext, users, recipes, nextId)
    ensures Stored(ext, users - {id}, WithoutOwner(recipes, id), nextId)
  {
  }

  /** Storing an acceptable user under an id below the next one, with an
      email no other user holds, keeps the invariant. */
  lemma StoringUserKeepsStored(ext: UserModel.Externals, users: map<Id, UserModel.User>,
                               recipes: map<Id, RecipeModel.Recipe>, nextId: Id,
                               id: Id, u: UserModel.User, next: Id)
    requires Stored(ext, users, recipes, nextId)
    requires nextId <= next && id < next
    requires UserModel.Acceptable(u, ext.isEmail)
    requires forall k :: k in users && k != id ==> users[k].email != u.email
    ensures Stored(ext, users[id := u], recipes, next)
  {
  }

  class Db {
    var users: map<Id, UserModel.User>
    var recipes: map<Id, RecipeModel.Recipe>
    /** The next object id to hand out. */
    var nextId: Id
    const ext: UserModel.Externals

    /** No other user holds `email` (the unique index on `email`). */
    predicate EmailFree(email: string, self: Id)
      reads this
    {
      forall id :: id in users && id != self ==> users[id].email != email
    }

    ghost predicate Valid()
      reads this
    {
      Stored(ext, users, recipes, nextId)
    }

    constructor (ext: UserModel.Externals)
      requires UserModel.Sound(ext)
      ensures Valid()
      ensures this.ext == ext && users == map[] && recipes == map[]
    {
      this.ext := ext;
      users, recipes, nextId := map[], map[], 0;
    }

    /** The user whose stored email is `email`, if any. */
    ghost function ByEmail(email: string): (r: Option<Id>)
      reads this
      requires Valid()
      ensures r.Some? ==> r.value in users && users[r.value].email == email
      ensures r.None? ==> forall id :: id in users ==> users[id].email != email
    {
      if exists id :: id in users && users[id].email == email then
        var id :| id in users && users[id].email == email; Some(id)
      else None
    }

    /** `user.save()` for a new user: validation, then the unique email, then
        the pre-save hook (a new password is always hashed), then the write
        under a fresh id. */
    method InsertUser(doc: UserModel.UserDoc, salt: string) returns (r: Result<Id, SaveError>)
      requires Valid()
      modifies this
      ensures Valid()
      ensures recipes == old(recipes)
      ensures match UserModel.Validate(doc, ext.isEmail)
        case Err(fs) => r == Err(Invalid(fs)) && users == old(users) && nextId == old(nextId)
        case Ok(u) =>
          if old(EmailFree(u.email, nextId)) then
            && r == Ok(old(nextId)) && old(nextId) !in old(users)
            && users == old(users)[old(nextId) := UserModel.HashOnSave(u, true, salt, ext)]
          else
            r == Err(DuplicateKey) && users == old(users) && nextId == old(nextId)
    {
      match UserModel.Validate(doc, ext.isEmail)
      case Err(fs) =>
        r := Err(Invalid(fs));
      case Ok(u) =>
        if EmailFree(u.email, nextId) {
          StoringUserKeepsStored(ext, users, recipes, nextId, nextId, UserModel.HashOnSave(u, true, salt, ext), nextId + 1);
          users := users[nextId := UserModel.HashOnSave(u, true, salt, ext)];
          r := Ok(nextId);
          nextId := nextId + 1;
        } else {
          r := Err(DuplicateKey);
        }
    }

    /** `user.save()` for a stored user whose document was edited: validation,
        then the unique email, then the pre-save hook, which hashes the
        password only if it was modified. */
    method SaveUser(id: Id, doc: UserModel.UserDoc, modified: bool, salt: string) returns (r: Option<SaveError>)
      requires Valid() && id in users
      modifies this
      ensures Valid()
      ensures recipes == old(recipes) && nextId == old(nextId)
      ensures match UserModel.Validate(doc, ext.isEmail)
        case Err(fs) => r == Some(Invalid(fs)) && users == old(users)
        case Ok(u) =>
          if old(EmailFree(u.email, id)) then
            r == None && users == old(users)[id := UserModel.HashOnSave(u, modified, salt, ext)]
          else
            r == Some(DuplicateKey) && users == old(users)
    {
      match UserModel.Validate(doc, ext.isEmail)
      case Err(fs) =>
        r := Some(Invalid(fs));
      case Ok(u) =>
        if EmailFree(u.email, id) {
          StoringUserKeepsStored(ext, users, recipes, nextId, id, UserModel.HashOnSave(u, modified, salt, ext), nextId);
          users := users[id := UserModel.HashOnSave(u, modified, salt, ext)];
          r := None;
        } else {
          r := Some(DuplicateKey);
        }
    }

    /** `generateAuthToken`: sign a token for the user, append it to the
        user's token list and save. Re-validating the unchanged fields on that
        save passes (`UserModel.RevalidateStored`). */
    method GenerateAuthToken(id: Id, now: int) returns (token: string)
      requires Valid() && id in users
      modifies this
      ensures Valid()
      ensures token == ext.sign(id, now)
      ensures users == old(users)[id := old(users[id]).(tokens := old(users[id].tokens) + [token])]
      ensures recipes == old(recipes) && nextId == old(nextId)
    {
      token := ext.sign(id, now);
      users := users[id := users[id].(tokens := users[id].tokens + [token])];
    }

    /** `findByCredentials`: the user with that email (after the email
        setters, which the query also runs), if the password matches its
        hash. An unknown email and a wrong password give the same `None`. */
    method FindByCredentials(email: string, password: string) returns (r: Option<Id>)
      requires Valid()
      ensures r.Some? ==>
        && r.value in users
        && users[r.value].email == UserModel.NormalizeEmail(email)
        && ext.compare(password, users[r.value].password)
      ensures r.None? ==> forall id :: id in users && users[id].email == UserModel.NormalizeEmail(email)
                                       ==> !ext.compare(password, users[id].password)
    {
      var e := UserModel.NormalizeEmail(email);
      if exists id :: id in users && users[id].email == e {
        var id :| id in users && users[id].email == e;
        r := if ext.compare(password, users[id].password) then Some(id) else None;
      } else {
        r := None;
      }
    }

    /** `user.remove()`: the pre-remove hook deletes every recipe the user owns,
        then the user goes. */
    method RemoveUser(id: Id)
      requires Valid() && id in users
      modifies this
      ensures Valid()
      ensures users == old(users) - {id} && nextId == old(nextId)
      ensures recipes == WithoutOwner(old(recipes), id)
    {
      RemovalKeepsStored(ext, users, recipes, nextId, id);
      recipes := WithoutOwner(recipes, id);
      users := users - {id};
    }

    /** `Recipe.findOne({_id, owner})`: the recipe with that id, only if that
        user owns it. */
    function FindOwned(id: Id, owner: Id): (r: Option<RecipeModel.Recipe>)
      reads this
      ensures r.Some? <==> id in recipes && recipes[id].owner == owner
      ensures r.Some? ==> r.value == recipes[id] && r.value.owner == owner
    {
      if id in recipes && recipes[id].owner == owner then Some(recipes[id]) else None
    }

    /** `recipe.save()` for a new recipe: validation, then the write under a
        fresh id. The owner must be a stored user. */
    method InsertRecipe(doc: RecipeModel.RecipeDoc) returns (r: Result<Id, seq<Failure>>)
      requires Valid() && (doc.owner.Given? ==> doc.owner.v in users)
      modifies this
      ensures Valid()
      ensures users == old(users)
      ensures match RecipeModel.Validate(doc)
        case Err(fs) => r == Err(fs) && recipes == old(recipes) && nextId == old(nextId)
        case Ok(x) =>
          && r == Ok(old(nextId)) && old(nextId) !in old(recipes)
          && recipes == old(recipes)[old(nextId) := x]
    {
      match RecipeModel.Validate(doc)
      case Err(fs) =>
        r := Err(fs);
      case Ok(x) =>
        recipes := recipes[nextId := x];
        r := Ok(nextId);
        nextId := nextId + 1;
    }

    /** `recipe.save()` for a stored recipe whose document was edited (its
        owner untouched): validation, then the write. */
    method SaveRecipe(id: Id, doc: RecipeModel.RecipeDoc) returns (r: Result<RecipeModel.Recipe, seq<Failure>>)
      requires Valid() && id in recipes && doc.owner == Given(recipes[id].owner)
      modifies this
      ensures Valid()
      ensures users == old(users) && nextId == old(nextId)
      ensures r == RecipeModel.Validate(doc)
      ensures recipes == if r.Ok? then old(recipes)[id := r.value] else old(recipes)
    {
      r := RecipeModel.Validate(doc);
      if r.Ok? {
        recipes := recipes[id := r.value];
      }
    }

    /** `Recipe.findOneAndDelete({_id, owner})`: removes the recipe only if
        that user owns it, and returns what was removed. */
    method FindOneAndDelete(id: Id, owner: Id) returns (r: Option<RecipeModel.Recipe>)
      requires Valid()
      modifies this
      ensures Valid()
      ensures r == old(FindOwned(id, owner))
      ensures recipes == if r.Some? then old(recipes) - {id} else old(recipes)
      ensures users == old(users) && nextId == old(nextId)
    {
      r := FindOwned(id, owner);
      if r.Some? {
        recipes := recipes - {id};
      }
    }
  }
}
