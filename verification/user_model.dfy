/** The user schema: name, email, password and session tokens, their setters
    and validators, the password hashing done on save, the serialisation that
    hides secrets, and the third-party functions the model cannot see into. */
module UserModel {
  import opened Common
  import opened Strings
  import opened Schema

  /** A stored user; `password` holds the hash, never the plaintext. */
  datatype User = User(name: string, email: string, password: string, tokens: seq<string>)

  /** A user document whose paths have been assigned but not yet validated. */
  datatype UserDoc = UserDoc(
    name: Slot<string>,
    email: Slot<string>,
    password: Slot<string>,
    tokens: Slot<seq<string>>)

  /** The paths `PATCH /users/me` may change. */
  const Editable: set<string> := {"name", "email", "password"}

  /** The library functions the model treats as uninterpreted: the email
      syntax check, password hashing and comparison, and token signing and
      verification (the signing secret is fixed and not shown). The second
      argument of `hash` is the random salt; that of `sign` is the issue time,
      which the signed token carries. */
  datatype Externals = Externals(
    isEmail: string -> bool,
    hash: (string, string) -> string,
    compare: (string, string) -> bool,
    sign: (Id, int) -> string,
    verify: string -> Option<Id>)

  /** What the model relies on about those functions. */
  ghost predicate Sound(ext: Externals) {
    && (forall id: Id, t: int :: ext.verify(ext.sign(id, t)) == Some(id))
    && (forall id: Id, t: int :: ext.sign(id, t) != "")
    && (forall p: string, salt: string :: ext.hash(p, salt) != p)
    && (forall p: string, salt: string :: ext.compare(p, ext.hash(p, salt)))
    && (forall p: string, salt: string :: PasswordAccepted(ext.hash(p, salt)))
  }

  /** `r` is what the email setters make of `s`: the slice of the lower-cased
      input after its leading white space, with only white space left behind;
      no longer than `s`, with no white space at either end and no upper-case
      letter, and a fixed point of both setters. */
  predicate NormalizedFrom(s: string, r: string) {
    && TrimmedAt(Lower(s), r, |s| - |TrimStart(s)|)
    && |r| <= |s|
    && (r == [] || (!IsSpace(r[0]) && !IsSpace(r[|r| - 1])))
    && (forall i :: 0 <= i < |r| ==> !('A' <= r[i] <= 'Z'))
    && Trim(r) == r && Lower(r) == r
  }

  /** The email setters: trim, then lower-case. */
  function NormalizeEmail(s: string): (r: string)
    ensures NormalizedFrom(s, r)
  {
    NormalForm(s);
    Lower(Trim(s))
  }

  /** Trimming then lower-casing gives the normal form `NormalizedFrom` describes. */
  lemma NormalForm(s: string)
    ensures NormalizedFrom(s, Lower(Trim(s)))
  {
    NormalFormPlace(s);
    NormalFormTrimmed(s);
    NormalFormLower(s);
  }

  /** Where the normal form sits in the lower-cased input. */
  lemma NormalFormPlace(s: string)
    ensures var r := Lower(Trim(s));
      && TrimmedAt(Lower(s), r, |s| - |TrimStart(s)|)
      && |r| <= |s|
  {
    var t, a := Trim(s), |s| - |TrimStart(s)|;
    assert TrimmedAt(s, t, a);
    LowerKeepsTrimmedAt(s, t, a);
  }

  /** The normal form has no white space at either end, so trimming leaves it unchanged. */
  lemma NormalFormTrimmed(s: string)
    ensures var r := Lower(Trim(s));
      && (r == [] || (!IsSpace(r[0]) && !IsSpace(r[|r| - 1])))
      && Trim(r) == r
  {
    LowerOfTrimmed(Trim(s));
  }

  /** The normal form has no upper-case letter, so lower-casing leaves it unchanged. */
  lemma NormalFormLower(s: string)
    ensures var r := Lower(Trim(s));
      && (forall i :: 0 <= i < |r| ==> !('A' <= r[i] <= 'Z'))
      && Lower(r) == r
  {
    LowerIdempotent(Trim(s));
    LowerHasNoUpper(Trim(s));
  }

  /** A normalised email is its own normal form. */
  lemma NormalizeEmailIdempotent(s: string)
    ensures NormalizeEmail(NormalizeEmail(s)) == NormalizeEmail(s)
  {
    var e := NormalizeEmail(s);
    assert Lower(Trim(e)) == Lower(e) == e;
  }

  /** Assigning a value to `email`. */
  function CastEmail(v: Value): (r: Slot<string>)
    ensures v.Null? <==> r.Missing?
    ensures v.Text? <==> r.Given?
    ensures v.Text? ==> r.v == NormalizeEmail(v.s)
  {
    match v
    case Null => Missing
    case Text(s) => Given(NormalizeEmail(s))
    case _ => BadCast
  }

  /** The `validate` function of `password`, run once `required` has passed. */
  function PasswordRule(p: string): (r: Option<Reason>)
    ensures r == Some(TooShort) <==> Utf16Length(p) < 7
    ensures r == Some(ContainsPassword) ==> Utf16Length(p) >= 7 && exists i :: MatchAt(Lower(p), "password", i)
    ensures Utf16Length(p) >= 7 && (exists i :: MatchAt(Lower(p), "password", i)) ==> r == Some(ContainsPassword)
    ensures r.None? || r == Some(TooShort) || r == Some(ContainsPassword)
  {
    if Utf16Length(p) < 7 then Some(TooShort)
    else if Includes(Lower(p), "password") then Some(ContainsPassword)
    else None
  }

  /** A password value that passes both `required` and its validator. */
  predicate PasswordAccepted(p: string) {
    p != "" && PasswordRule(p).None?
  }

  /** A password shorter than seven UTF-16 code units is refused. */
  lemma ShortPasswordRejected(p: string)
    requires Utf16Length(p) < 7
    ensures !PasswordAccepted(p)
  {
  }

  /** A password holding the word "password" in any mix of letter cases is refused. */
  lemma ForbiddenWordRejected(p: string, i: nat, w: string)
    requires MatchAt(p, w, i) && Lower(w) == "password"
    ensures !PasswordAccepted(p)
  {
    LowerSlice(p, i, i + |w|);
    assert MatchAt(Lower(p), "password", i);
  }

  /** The validators of `email`, after `required`. */
  function EmailFailures(slot: Slot<string>, isEmail: string -> bool): (fs: seq<Failure>)
    ensures fs == [] <==> slot.Given? && slot.v != "" && isEmail(slot.v)
  {
    match slot
    case Given(e) => if e == "" then [Failure("email", Required)]
                     else if isEmail(e) then [] else [Failure("email", NotEmail)]
    case _ => RequiredString("email", slot)
  }

  /** The validators of `password`, after `required`. */
  function PasswordFailures(slot: Slot<string>): (fs: seq<Failure>)
    ensures fs == [] <==> slot.Given? && PasswordAccepted(slot.v)
  {
    match slot
    case Given(p) => if p == "" then [Failure("password", Required)]
                     else (match PasswordRule(p)
                           case Some(why) => [Failure("password", why)]
                           case None => [])
    case _ => RequiredString("password", slot)
  }

  /** Each session token is a subdocument whose `token` is required. */
  function TokenFailures(slot: Slot<seq<string>>): (fs: seq<Failure>)
    ensures fs == [] <==> !slot.BadCast? && "" !in ArrayOrEmpty(slot)
  {
    if slot.BadCast? then [Failure("tokens", CastFailed)]
    else if "" in ArrayOrEmpty(slot) then [Failure("tokens", Required)]
    else []
  }

  /** Every path that fails validation, in schema order. */
  function Failures(doc: UserDoc, isEmail: string -> bool): seq<Failure> {
    RequiredString("name", doc.name)
      + EmailFailures(doc.email, isEmail)
      + PasswordFailures(doc.password)
      + TokenFailures(doc.tokens)
  }

  /** What validation guarantees of a user document's values. */
  predicate Acceptable(u: User, isEmail: string -> bool) {
    && u.name != ""
    && u.email != "" && isEmail(u.email)
    && PasswordAccepted(u.password)
    && "" !in u.tokens
  }

  /** Validation on save: the document is stored exactly when every path is
      acceptable, and then it holds the document's values. */
  function Validate(doc: UserDoc, isEmail: string -> bool): (r: Result<User, seq<Failure>>)
    ensures r.Ok? <==>
      && doc.name.Given? && doc.email.Given? && doc.password.Given? && !doc.tokens.BadCast?
      && Acceptable(User(doc.name.v, doc.email.v, doc.password.v, ArrayOrEmpty(doc.tokens)), isEmail)
    ensures r.Ok? ==> r.value == User(doc.name.v, doc.email.v, doc.password.v, ArrayOrEmpty(doc.tokens))
    ensures r.Err? ==> r.error != []
  {
    var fs := Failures(doc, isEmail);
    if fs == [] then Ok(User(doc.name.v, doc.email.v, doc.password.v, ArrayOrEmpty(doc.tokens)))
    else Err(fs)
  }

  /** A stored user seen as a document again. */
  function ToDoc(u: User): UserDoc {
    UserDoc(Given(u.name), Given(u.email), Given(u.password), Given(u.tokens))
  }

  /** Re-validating an acceptable stored user gives it back unchanged. */
  lemma RevalidateStored(u: User, isEmail: string -> bool)
    requires Acceptable(u, isEmail)
    ensures Validate(ToDoc(u), isEmail) == Ok(u)
  {
  }

  /** `new User(body)`: the schema's paths taken from the body. */
  function NewDoc(body: map<string, Value>): (r: UserDoc)
    ensures "name" !in body ==> r.name.Missing?
    ensures "email" !in body ==> r.email.Missing?
    ensures "password" !in body ==> r.password.Missing?
    ensures "tokens" !in body ==> r.tokens == Given([])
    ensures "name" in body ==> r.name == CastTrimmed(body["name"])
    ensures "email" in body ==> r.email == CastEmail(body["email"])
    ensures "password" in body ==> r.password == CastTrimmed(body["password"])
    ensures "tokens" in body ==> r.tokens == CastArray(body["tokens"])
  {
    UserDoc(
      if "name" in body then CastTrimmed(body["name"]) else Missing,
      if "email" in body then CastEmail(body["email"]) else Missing,
      if "password" in body then CastTrimmed(body["password"]) else Missing,
      if "tokens" in body then CastArray(body["tokens"]) else Given([]))
  }

  /** `user[key] = v` for a whitelisted key. */
  function Assign(doc: UserDoc, key: string, v: Value): (r: UserDoc)
    ensures key in Editable ==> r == Patched(doc, map[key := v])
    ensures key !in Editable ==> r == doc
  {
    if key == "name" then doc.(name := CastTrimmed(v))
    else if key == "email" then doc.(email := CastEmail(v))
    else if key == "password" then doc.(password := CastTrimmed(v))
    else doc
  }

  /** The document after every whitelisted key of `body` has been assigned. */
  function Patched(doc: UserDoc, body: map<string, Value>): (r: UserDoc)
    ensures r.tokens == doc.tokens
    ensures "name" !in body ==> r.name == doc.name
    ensures "email" !in body ==> r.email == doc.email
    ensures "password" !in body ==> r.password == doc.password
    ensures "name" in body ==> r.name == CastTrimmed(body["name"])
    ensures "email" in body ==> r.email == CastEmail(body["email"])
    ensures "password" in body ==> r.password == CastTrimmed(body["password"])
  {
    UserDoc(
      if "name" in body then CastTrimmed(body["name"]) else doc.name,
      if "email" in body then CastEmail(body["email"]) else doc.email,
      if "password" in body then CastTrimmed(body["password"]) else doc.password,
      doc.tokens)
  }

  /** Assigning one more key, in any order, extends the patch by that key. */
  lemma PatchedStep(doc: UserDoc, done: map<string, Value>, key: string, v: Value)
    requires key in Editable && key !in done
    ensures Patched(doc, done[key := v]) == Assign(Patched(doc, done), key, v)
  {
  }

  /** A profile patch that validates changes exactly the keys the body
      provides, to their values after the setters, and keeps every other
      field, the token list included. */
  lemma PatchChangesOnlyProvided(u: User, body: map<string, Value>, isEmail: string -> bool)
    requires Validate(Patched(ToDoc(u), body), isEmail).Ok?
    ensures var p := Validate(Patched(ToDoc(u), body), isEmail).value;
      && p.tokens == u.tokens
      && (if "name" in body then body["name"].Text? && p.name == Trim(body["name"].s) else p.name == u.name)
      && (if "email" in body then body["email"].Text? && p.email == NormalizeEmail(body["email"].s)
          else p.email == u.email)
      && (if "password" in body then body["password"].Text? && p.password == Trim(body["password"].s)
          else p.password == u.password)
  {
  }

  /** A name that is missing, or empty once trimmed, is refused. */
  lemma {:induction false} NameRequired(body: map<string, Value>, isEmail: string -> bool)
    requires "name" !in body || (body["name"].Text? && forall k :: 0 <= k < |body["name"].s| ==> IsSpace(body["name"].s[k]))
    ensures Validate(NewDoc(body), isEmail).Err?
  {
    if "name" in body {
      BlankTrimsToEmpty(body["name"].s);
    }
  }

  /** A stored email is trimmed and lower-cased, and passes the email check. */
  lemma EmailNormalized(body: map<string, Value>, isEmail: string -> bool)
    requires Validate(NewDoc(body), isEmail).Ok?
    ensures var u := Validate(NewDoc(body), isEmail).value;
      && body["email"].Text? && u.email == Lower(Trim(body["email"].s))
      && isEmail(u.email) && NormalizeEmail(u.email) == u.email
  {
    NormalizeEmailIdempotent(body["email"].s);
  }

  /** The pre-save hook: the password is replaced by its salted hash exactly
      when it was modified. */
  function HashOnSave(u: User, modified: bool, salt: string, ext: Externals): (r: User)
    requires Sound(ext)
    ensures r.name == u.name && r.email == u.email && r.tokens == u.tokens
    ensures modified ==> r.password != u.password && ext.compare(u.password, r.password)
    ensures !modified ==> r.password == u.password
    ensures PasswordAccepted(u.password) ==> PasswordAccepted(r.password)
  {
    if modified then u.(password := ext.hash(u.password, salt)) else u
  }

  /** The user's fields as the document mapper's `toObject` gives them. */
  function ToObject(id: Id, u: User): map<string, Value> {
    map["_id" := Ref(id), "name" := Text(u.name), "email" := Text(u.email),
        "password" := Text(u.password), "tokens" := List(u.tokens)]
  }

  /** `toJSON`: `toObject` with the password and the token list deleted, every
      other field kept as it is. */
  function ToJSON(id: Id, u: User): (j: map<string, Value>)
    ensures "password" !in j && "tokens" !in j
    ensures forall k :: k in j <==> k in ToObject(id, u) && k != "password" && k != "tokens"
    ensures forall k :: k in j ==> j[k] == ToObject(id, u)[k]
  {
    ToObject(id, u) - {"password", "tokens"}
  }
}
