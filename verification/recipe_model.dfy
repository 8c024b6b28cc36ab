/** The recipe schema: required title, description, total time and owner,
    a total time that must not be negative, and two optional lists. */
module RecipeModel {
  import opened Common
  import opened Strings
  import opened Schema

  /** A stored recipe. */
  datatype Recipe = Recipe(
    title: string,
    description: string,
    totalTime: real,
    ingredients: seq<string>,
    steps: seq<string>,
    owner: Id)

  /** A recipe document whose paths have been assigned but not yet validated. */
  datatype RecipeDoc = RecipeDoc(
    title: Slot<string>,
    description: Slot<string>,
    totalTime: Slot<real>,
    ingredients: Slot<seq<string>>,
    steps: Slot<seq<string>>,
    owner: Slot<Id>)

  /** The paths a client may set, at creation and by a patch. */
  const Editable: set<string> := {"title", "description", "totalTime", "ingredients", "steps"}

  /** What validation guarantees of every stored recipe. */
  predicate WellFormed(r: Recipe) {
    r.title != "" && r.description != "" && r.totalTime >= 0.0
  }

  /** The `validate` function of `totalTime`, after `required`. */
  function TimeFailures(slot: Slot<real>): (fs: seq<Failure>)
    ensures fs == [] <==> slot.Given? && slot.v >= 0.0
  {
    match slot
    case Missing => [Failure("totalTime", Required)]
    case BadCast => [Failure("totalTime", CastFailed)]
    case Given(x) => if x < 0.0 then [Failure("totalTime", Negative)] else []
  }

  /** The `required` validator of `owner`. */
  function OwnerFailures(slot: Slot<Id>): (fs: seq<Failure>)
    ensures fs == [] <==> slot.Given?
  {
    match slot
    case Missing => [Failure("owner", Required)]
    case BadCast => [Failure("owner", CastFailed)]
    case Given(_) => []
  }

  /** Every path that fails validation, in schema order. */
  function Failures(doc: RecipeDoc): seq<Failure> {
    RequiredString("title", doc.title)
      + RequiredString("description", doc.description)
      + TimeFailures(doc.totalTime)
      + OptionalArray("ingredients", doc.ingredients)
      + OptionalArray("steps", doc.steps)
      + OwnerFailures(doc.owner)
  }

  /** Validation on save: the document is stored exactly when every path is
      acceptable, and then the stored recipe holds the document's values. */
  function Validate(doc: RecipeDoc): (r: Result<Recipe, seq<Failure>>)
    ensures r.Ok? <==>
      && doc.title.Given? && doc.title.v != ""
      && doc.description.Given? && doc.description.v != ""
      && doc.totalTime.Given? && doc.totalTime.v >= 0.0
      && !doc.ingredients.BadCast? && !doc.steps.BadCast?
      && doc.owner.Given?
    ensures r.Ok? ==> WellFormed(r.value)
    ensures r.Ok? ==>
      && r.value.title == doc.title.v && r.value.description == doc.description.v
      && r.value.totalTime == doc.totalTime.v && r.value.owner == doc.owner.v
      && r.value.ingredients == ArrayOrEmpty(doc.ingredients)
      && r.value.steps == ArrayOrEmpty(doc.steps)
    ensures r.Err? ==> r.error != []
  {
    var fs := Failures(doc);
    if fs == [] then
      Ok(Recipe(doc.title.v, doc.description.v, doc.totalTime.v,
                ArrayOrEmpty(doc.ingredients), ArrayOrEmpty(doc.steps), doc.owner.v))
    else
      Err(fs)
  }

  /** A stored recipe seen as a document again (what a lookup returns). */
  function ToDoc(r: Recipe): RecipeDoc {
    RecipeDoc(Given(r.title), Given(r.description), Given(r.totalTime),
              Given(r.ingredients), Given(r.steps), Given(r.owner))
  }

  /** Re-validating a stored recipe that nobody changed gives it back unchanged. */
  lemma RevalidateStored(r: Recipe)
    requires WellFormed(r)
    ensures Validate(ToDoc(r)) == Ok(r)
  {
  }

  /** `recipe[key] = v` for a whitelisted key. */
  function Assign(doc: RecipeDoc, key: string, v: Value): (r: RecipeDoc)
    ensures key in Editable ==> r == Patched(doc, map[key := v])
    ensures key !in Editable ==> r == doc
  {
    if key == "title" then doc.(title := CastTrimmed(v))
    else if key == "description" then doc.(description := CastTrimmed(v))
    else if key == "totalTime" then doc.(totalTime := CastNumber(v))
    else if key == "ingredients" then doc.(ingredients := CastArray(v))
    else if key == "steps" then doc.(steps := CastArray(v))
    else doc
  }

  /** The document after every whitelisted key of `body` has been assigned;
      the owner and every key `body` leaves out keep their value. */
  function Patched(doc: RecipeDoc, body: map<string, Value>): (r: RecipeDoc)
    ensures r.owner == doc.owner
    ensures "title" !in body ==> r.title == doc.title
    ensures "description" !in body ==> r.description == doc.description
    ensures "totalTime" !in body ==> r.totalTime == doc.totalTime
    ensures "ingredients" !in body ==> r.ingredients == doc.ingredients
    ensures "steps" !in body ==> r.steps == doc.steps
    ensures "title" in body ==> r.title == CastTrimmed(body["title"])
    ensures "description" in body ==> r.description == CastTrimmed(body["description"])
    ensures "totalTime" in body ==> r.totalTime == CastNumber(body["totalTime"])
    ensures "ingredients" in body ==> r.ingredients == CastArray(body["ingredients"])
    ensures "steps" in body ==> r.steps == CastArray(body["steps"])
  {
    RecipeDoc(
      if "title" in body then CastTrimmed(body["title"]) else doc.title,
      if "description" in body then CastTrimmed(body["description"]) else doc.description,
      if "totalTime" in body then CastNumber(body["totalTime"]) else doc.totalTime,
      if "ingredients" in body then CastArray(body["ingredients"]) else doc.ingredients,
      if "steps" in body then CastArray(body["steps"]) else doc.steps,
      doc.owner)
  }

  /** Assigning one more key, in any order, extends the patch by that key. */
  lemma PatchedStep(doc: RecipeDoc, done: map<string, Value>, key: string, v: Value)
    requires key in Editable && key !in done
    ensures Patched(doc, done[key := v]) == Assign(Patched(doc, done), key, v)
  {
  }

  /** A fresh document: nothing set but the two lists (empty by default) and the owner. */
  function Blank(owner: Id): RecipeDoc {
    RecipeDoc(Missing, Missing, Missing, Given([]), Given([]), Given(owner))
  }

  /** `new Recipe({...body, owner})`: the body's paths, then the owner, which
      overrides any owner the body carries. */
  function NewDoc(body: map<string, Value>, owner: Id): (r: RecipeDoc)
    ensures r.owner == Given(owner)
    ensures "title" !in body ==> r.title.Missing?
    ensures "description" !in body ==> r.description.Missing?
    ensures "totalTime" !in body ==> r.totalTime.Missing?
    ensures "ingredients" !in body ==> r.ingredients == Given([])
    ensures "steps" !in body ==> r.steps == Given([])
    ensures "title" in body ==> r.title == CastTrimmed(body["title"])
    ensures "description" in body ==> r.description == CastTrimmed(body["description"])
    ensures "totalTime" in body ==> r.totalTime == CastNumber(body["totalTime"])
    ensures "ingredients" in body ==> r.ingredients == CastArray(body["ingredients"])
    ensures "steps" in body ==> r.steps == CastArray(body["steps"])
  {
    Patched(Blank(owner), body)
  }

  /** A created recipe belongs to the requester, whatever the body says about its owner. */
  lemma CreatedOwner(body: map<string, Value>, owner: Id)
    requires Validate(NewDoc(body, owner)).Ok?
    ensures Validate(NewDoc(body, owner)).value.owner == owner
  {
  }

  /** Creation needs a title, a description and a total time. */
  lemma CreateNeedsRequired(body: map<string, Value>, owner: Id)
    requires "title" !in body || "description" !in body || "totalTime" !in body
    ensures Validate(NewDoc(body, owner)).Err?
  {
  }

  /** A title (or description) of white space only is rejected: it trims to
      the empty string, which `required` refuses. */
  lemma {:induction false} BlankTitleRejected(doc: RecipeDoc, s: string)
    requires forall k :: 0 <= k < |s| ==> IsSpace(s[k])
    ensures Validate(Assign(doc, "title", Text(s))).Err?
    ensures Validate(Assign(doc, "description", Text(s))).Err?
  {
    BlankTrimsToEmpty(s);
  }

  /** A negative total time is rejected, and a total time of zero is accepted
      when everything else is. */
  lemma TotalTimeBound(doc: RecipeDoc, x: real)
    ensures x < 0.0 ==> Validate(doc.(totalTime := Given(x))).Err?
    ensures Validate(doc.(totalTime := Given(0.0))).Ok? <==> Validate(doc.(totalTime := Given(1.0))).Ok?
  {
  }

  /** A document without an owner is rejected. */
  lemma OwnerRequired(doc: RecipeDoc)
    requires !doc.owner.Given?
    ensures Validate(doc).Err?
  {
  }

  /** A successful patch of a stored recipe changes exactly the keys the body
      provides, to their cast values, and keeps every other field and the owner. */
  lemma {:induction false} PatchChangesOnlyProvided(r: Recipe, body: map<string, Value>)
    requires Validate(Patched(ToDoc(r), body)).Ok?
    ensures var p := Validate(Patched(ToDoc(r), body)).value;
      && p.owner == r.owner
      && (if "title" in body then body["title"].Text? && p.title == Trim(body["title"].s) else p.title == r.title)
      && (if "description" in body then body["description"].Text? && p.description == Trim(body["description"].s)
          else p.description == r.description)
      && (if "totalTime" in body then body["totalTime"] == Number(p.totalTime) else p.totalTime == r.totalTime)
      && (if "ingredients" in body then body["ingredients"] in {List(p.ingredients), Null}
          else p.ingredients == r.ingredients)
      && (if "steps" in body then body["steps"] in {List(p.steps), Null} else p.steps == r.steps)
  {
    var d := Patched(ToDoc(r), body);
    if "totalTime" in body {
      assert CastNumber(body["totalTime"]) == d.totalTime;
    }
    if "ingredients" in body {
      assert CastArray(body["ingredients"]) == d.ingredients;
    }
    if "steps" in body {
      assert CastArray(body["steps"]) == d.steps;
    }
  }
}
