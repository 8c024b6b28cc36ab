/** The auth guard placed in front of every protected route. */
module Auth {
  import opened Common
  import opened Strings
  import opened UserModel

  /** What a successful guard attaches to the request: the user and the raw token. */
  datatype Session = Session(user: Id, token: string)

  /** The token taken from the `Authorization` header: the header with its first
      occurrence of "Bearer " removed (wherever it occurs). */
  function BearerToken(header: string): (r: string)
    ensures (forall i :: !MatchAt(header, "Bearer ", i)) ==> r == header
    ensures forall i :: MatchAt(header, "Bearer ", i) && (forall j :: 0 <= j < i ==> !MatchAt(header, "Bearer ", j))
                        ==> r == header[..i] + header[i + 7..]
  {
    ReplaceFirst(header, "Bearer ", "")
  }

  /** A well-formed header gives back exactly the token it carries. */
  lemma BearerRoundTrip(token: string)
    ensures BearerToken("Bearer " + token) == token
  {
    ReplacePrefix("Bearer ", token);
  }

  /** A header without "Bearer " is used as the token unchanged. */
  lemma BareToken(header: string)
    requires forall i :: !MatchAt(header, "Bearer ", i)
    ensures BearerToken(header) == header
  {
    ReplaceAbsent(header, "Bearer ", "");
  }

  /** The token verifies, and the user it names exists and still holds this
      exact token string in its token list. */
  predicate Admits(users: map<Id, User>, verify: string -> Option<Id>, token: string) {
    && verify(token).Some?
    && verify(token).value in users
    && token in users[verify(token).value].tokens
  }

  /** The guard. Success needs a header whose token `Admits`; then the session
      names the user the token was signed for, and the token itself. Every
      failure (no header, a token that does not verify, no such user, a revoked
      token) is the same `None`. */
  function Authenticate(users: map<Id, User>, header: Option<string>, verify: string -> Option<Id>): (r: Option<Session>)
    ensures r.Some? <==> header.Some? && Admits(users, verify, BearerToken(header.value))
    ensures r.Some? ==>
      && r.value.token == BearerToken(header.value)
      && r.value.user in users
      && verify(r.value.token) == Some(r.value.user)
      && r.value.token in users[r.value.user].tokens
  {
    match header
    case None => None
    case Some(h) =>
      var token := BearerToken(h);
      match verify(token)
      case None => None
      case Some(id) =>
        if id in users && token in users[id].tokens then Some(Session(id, token)) else None
  }

  /** A freshly issued token, presented as "Bearer <token>", admits its user. */
  lemma IssuedTokenAdmits(users: map<Id, User>, ext: Externals, id: Id, now: int)
    requires Sound(ext)
    requires id in users && ext.sign(id, now) in users[id].tokens
    ensures Authenticate(users, Some("Bearer " + ext.sign(id, now)), ext.verify)
         == Some(Session(id, ext.sign(id, now)))
  {
    BearerRoundTrip(ext.sign(id, now));
  }

  /** The guard only looks at the user the token names: changing any other
      part of the store, or that user's fields other than the token list,
      does not change its answer. */
  lemma {:induction false} GuardDependsOnTokens(users: map<Id, User>, users': map<Id, User>, header: Option<string>, verify: string -> Option<Id>)
    requires users.Keys == users'.Keys
    requires forall id :: id in users ==> users[id].tokens == users'[id].tokens
    ensures Authenticate(users, header, verify) == Authenticate(users', header, verify)
  {
  }
}
