/** Values shared by the models, the middleware and the routers. */
module Common {

  datatype Option<+T> = None | Some(value: T)

  datatype Result<+T, +E> = Ok(value: T) | Err(error: E)

  /** A database object id (an ObjectId in the store). */
  type Id = nat

  /** One JSON value of a parsed request body, or a reference to a stored document. */
  datatype Value =
    | Null
    | Text(s: string)
    | Number(x: real)
    | List(items: seq<string>)
    | Ref(id: Id)

  /** The state of one schema path of a document that is about to be validated:
      unset (absent or null), holding a cast value, or holding a value the
      schema type could not cast. */
  datatype Slot<+T> = Missing | Given(v: T) | BadCast

  /** Why a schema path failed validation. */
  datatype Reason = Required | CastFailed | NotEmail | TooShort | ContainsPassword | Negative

  /** One entry of a validation error: the failing path and the first validator it failed. */
  datatype Failure = Failure(path: string, reason: Reason)

  /** What a failed save reports: the validation failures, or a clash with a unique index. */
  datatype SaveError = Invalid(failures: seq<Failure>) | DuplicateKey

  /** Updating a key twice keeps only the second value. */
  lemma UpdateTwice<K, V>(m: map<K, V>, k: K, a: V, b: V)
    ensures m[k := a][k := b] == m[k := b]
  {
  }
}
