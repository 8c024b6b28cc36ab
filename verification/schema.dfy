/** The parts of the document mapper that both schemas use: casting a body
    value to a path's type (with the `trim` setter for strings), and the
    built-in `required` validator. */
module Schema {
  import opened Common
  import opened Strings

  /** Assigning a value to a `String` path declared with `trim: true`. */
  function CastTrimmed(v: Value): (r: Slot<string>)
    ensures v.Null? <==> r.Missing?
    ensures v.Text? <==> r.Given?
    ensures v.Text? ==> r.v == Trim(v.s)
  {
    match v
    case Null => Missing
    case Text(s) => Given(Trim(s))
    case _ => BadCast
  }

  /** Assigning a value to a `Number` path. */
  function CastNumber(v: Value): (r: Slot<real>)
    ensures v.Null? <==> r.Missing?
    ensures v.Number? <==> r.Given?
    ensures v.Number? ==> r.v == v.x
  {
    match v
    case Null => Missing
    case Number(x) => Given(x)
    case _ => BadCast
  }

  /** Assigning a value to an array path. */
  function CastArray(v: Value): (r: Slot<seq<string>>)
    ensures v.Null? <==> r.Missing?
    ensures v.List? <==> r.Given?
    ensures v.List? ==> r.v == v.items
  {
    match v
    case Null => Missing
    case List(xs) => Given(xs)
    case _ => BadCast
  }

  /** The `required` validator of a `String` path: a missing value and the
      empty string both fail; an uncastable value reports the cast. */
  function RequiredString(path: string, slot: Slot<string>): (r: seq<Failure>)
    ensures r == [] <==> slot.Given? && slot.v != ""
    ensures |r| <= 1 && (r != [] ==> r[0].path == path)
  {
    match slot
    case Missing => [Failure(path, Required)]
    case BadCast => [Failure(path, CastFailed)]
    case Given(s) => if s == "" then [Failure(path, Required)] else []
  }

  /** An optional array path: only a value that could not be cast fails. */
  function OptionalArray(path: string, slot: Slot<seq<string>>): (r: seq<Failure>)
    ensures r == [] <==> !slot.BadCast?
  {
    if slot.BadCast? then [Failure(path, CastFailed)] else []
  }

  /** The stored value of an optional array path: an unset array is empty. */
  function ArrayOrEmpty(slot: Slot<seq<string>>): seq<string> {
    if slot.Given? then slot.v else []
  }
}
