# my-recipes-api, modelled in Dafny

my-recipes-api is a small Express/Mongoose REST API. Users sign up, log in and receive
bearer tokens (JWTs). With a token, a user manages their own recipes. Each recipe has a
title, a description, a total time, ingredient and step lists, and an owner.

This project models the API's rules over one in-memory store. The store is the class
`Database.Db`: a map of users (name, email, password hash, token list), a map of recipes
and an id counter. Each route is a method that takes the store and what the request
carries: the `Authorization` header for the guarded routes, the parsed body where the
route reads one (Login takes its email and password as two strings), and the id from the
path for the single-recipe routes. It returns a status code and a body, and changes the
store exactly as its `ensures` say.

The modules follow the source:

- `Strings`: the JavaScript string operations the code relies on (`trim`, `toLowerCase`,
  `length` in UTF-16 code units, `indexOf`/`includes`, first-occurrence `replace`, `split`).
- `Schema`: casting a body value to a schema type, and the `required` validator.
- `RecipeModel`: `src/models/recipe.js`.
- `UserModel`: `src/models/user.js`. It holds the validators, the email setters, the
  pre-save hashing rule and `toJSON`.
- `Auth`: `src/middleware/auth.js`.
- `Database`: the collections, together with the model methods and hooks that change them:
  - `save` with validation, the unique email index and the pre-save hook;
  - `generateAuthToken`;
  - `findByCredentials`;
  - `remove` with its cascade;
  - the owner-scoped recipe queries.
- `UserRoutes`: `src/routers/user.js`.
- `RecipeRoutes`: `src/routers/recipe.js`.

Three library families are opaque:

- password hashing and comparison (bcrypt);
- token signing and verification (JWT);
- `validator.isEmail`.

They are the fields of `UserModel.Externals`. `UserModel.Sound` states the only facts the
proofs use about them:

- a signed token verifies to the id it was signed for;
- a signed token is never empty;
- a hash differs from its input;
- `compare` accepts a password against its own hash;
- a hash passes the password validator.

The bcrypt salt and the JWT issue time are method parameters (`salt`, `now`). Object ids
come from the store's counter.

Two behaviours of the code are easy to miss:

- Mongoose runs the `trim`/`lowercase` setters on query values too. So login looks up the
  normalised email, not the raw one.
- The auth guard removes the first `"Bearer "` wherever it occurs in the header, not only
  as a prefix.

## Model

| member | source | states |
|---|---|---|
| Strings.TrimStart | src/models/user.js:13 | the kept part is a suffix, everything dropped is white space, and the kept part does not start with white space |
| Strings.TrimEnd | src/models/user.js:13 | the kept part is a prefix, everything dropped is white space, and the kept part does not end with white space |
| Strings.Trim | src/models/user.js:13 | `trim` keeps the slice of its input that starts after the leading white space, everything outside that slice is white space, and the slice neither starts nor ends with white space |
| Strings.TrimIdempotent | src/models/user.js:13 | trimming twice is trimming once |
| Strings.BlankTrimsToEmpty | src/models/user.js:10-14 | a string of white space only trims to the empty string |
| Strings.Lower | src/models/user.js:20 | `toLowerCase` keeps the length and maps every character |
| Strings.LowerIdempotent | src/models/user.js:20 | lower-casing twice is lower-casing once |
| Strings.TrimLowerCommute | src/models/user.js:19-20 | trimming and lower-casing commute |
| Strings.Utf16Length | src/models/user.js:32 | `length` counts UTF-16 code units: one for a single character of the Basic Multilingual Plane and two for any other single character; between one and two per character, and exactly one per character only when every character is in that plane |
| Strings.Utf16Additive | src/models/user.js:32 | the code units of a concatenation are the sum of those of its parts, which with the one-character case fixes the count of every string |
| Strings.IndexOf | src/models/user.js:34 | the result is the first index where the pattern occurs, or none when it occurs nowhere |
| Strings.Includes | src/models/user.js:34 | `includes` holds exactly when the pattern occurs at some index |
| Strings.ReplaceFirst | src/middleware/auth.js:7 | with no occurrence the string is unchanged; otherwise only the first occurrence is replaced, the text around it kept |
| Strings.ReplacePrefix | src/middleware/auth.js:7 | replacing the leading pattern with "" leaves the rest of the string |
| Strings.ReplaceAbsent | src/middleware/auth.js:7 | replacing a pattern that does not occur changes nothing |
| Strings.Split | src/routers/recipe.js:138 | `split` gives at least one piece, no piece holds the separator, and joining the pieces gives the input back |
| Strings.SplitNoSeparator | src/routers/recipe.js:138 | a string without the separator is one piece |
| Strings.SplitAtFirst | src/routers/recipe.js:138 | a separator-free head followed by the separator becomes the first piece, and the rest splits on its own |
| Strings.SplitRest | src/routers/recipe.js:138 | with more than one piece, the first piece ends at a separator and the other pieces are the split of what follows it |
| Schema.CastTrimmed | src/models/user.js:10-14 | a string value is stored trimmed; null is unset; any other value is a cast failure |
| Schema.CastNumber | src/models/recipe.js:18-20 | a number value is stored as is; null is unset; any other value is a cast failure |
| Schema.CastArray | src/models/recipe.js:27-40 | a list value is stored as is; null is unset; any other value is a cast failure |
| Schema.RequiredString | src/models/recipe.js:7-11 | `required` passes exactly for a set, non-empty string, and reports at most one failure, on its own path |
| Schema.OptionalArray | src/models/recipe.js:27-40 | an array path fails only when its value could not be cast |
| RecipeModel.TimeFailures | src/models/recipe.js:18-26 | `totalTime` passes exactly when it is set and not negative |
| RecipeModel.OwnerFailures | src/models/recipe.js:41-45 | `owner` passes exactly when it is set |
| RecipeModel.Validate | src/models/recipe.js:7-45 | a recipe is stored iff title and description are non-empty strings, total time is a number ≥ 0, both lists cast, and the owner is set; the stored recipe holds the document's values (unset lists become []); a rejection lists at least one failure |
| RecipeModel.RevalidateStored | src/models/recipe.js:7-45 | re-validating an unchanged stored recipe gives it back |
| RecipeModel.Assign | src/routers/recipe.js:255 | assigning a whitelisted key is patching with that key alone; any other key changes nothing |
| RecipeModel.Patched | src/routers/recipe.js:255 | every provided key takes its cast value, every other path and the owner keep theirs |
| RecipeModel.NewDoc | src/routers/recipe.js:91-94 | the owner is the requester whatever the body holds; absent required paths are unset, absent lists are empty, provided keys are cast |
| RecipeModel.PatchedStep | src/routers/recipe.js:255 | assigning one more whitelisted key, in any order, extends the patch by that key |
| RecipeModel.CreatedOwner | src/routers/recipe.js:91-94 | a created recipe's owner is the requester, whatever owner the body supplies |
| RecipeModel.CreateNeedsRequired | src/models/recipe.js:7-26 | a body without a title, a description or a total time is rejected |
| RecipeModel.BlankTitleRejected | src/models/recipe.js:7-16 | a title or description of white space only is rejected |
| RecipeModel.TotalTimeBound | src/models/recipe.js:18-26 | a negative total time is rejected; zero is accepted whenever a positive time would be |
| RecipeModel.OwnerRequired | src/models/recipe.js:41-45 | a document without an owner is rejected |
| RecipeModel.PatchChangesOnlyProvided | src/routers/recipe.js:255-256 | a successful patch sets exactly the provided keys to their cast values and keeps every other field and the owner |
| UserModel.NormalizeEmail | src/models/user.js:19-20 | the normalised email is in `NormalizedFrom` relation to the input: the slice of the lower-cased input after its leading white space, with only white space outside it; no longer than the input, no white space at either end, no upper-case letter, and both setters leave it unchanged |
| UserModel.NormalizedFrom | src/models/user.js:19-20 | definition of the setters' result listed in the `UserModel.NormalizeEmail` row; established by `UserModel.NormalForm` |
| UserModel.NormalForm | src/models/user.js:19-20 | trimming then lower-casing any string gives its `NormalizedFrom` form |
| UserModel.NormalFormPlace | src/models/user.js:19-20 | trimming then lower-casing gives the slice of the lower-cased input after its leading white space, with only white space outside it |
| UserModel.NormalFormTrimmed | src/models/user.js:19-20 | the result has no white space at either end, so the `trim` setter leaves it unchanged |
| UserModel.NormalFormLower | src/models/user.js:19-20 | the result has no upper-case letter, so the `lowercase` setter leaves it unchanged |
| Strings.LowerKeepsTrimmedAt | src/models/user.js:19-20 | lower-casing a string and its trimmed slice keeps the slice in place, with only white space outside it |
| Strings.LowerHasNoUpper | src/models/user.js:20 | a lower-cased string has no upper-case letter |
| UserModel.NormalizeEmailIdempotent | src/models/user.js:19-20 | a normalised email is its own normal form |
| UserModel.CastEmail | src/models/user.js:15-20 | a string email is stored trimmed and lower-cased; null is unset; any other value is a cast failure |
| UserModel.PasswordRule | src/models/user.js:31-37 | fewer than 7 UTF-16 code units is "too short"; otherwise an occurrence of "password" in the lower-cased value is refused; otherwise it passes |
| UserModel.ShortPasswordRejected | src/models/user.js:32-33 | a password shorter than 7 UTF-16 code units is rejected |
| Strings.LowerSlice | src/models/user.js:34 | lower-casing a slice is slicing the lower-cased string |
| UserModel.ForbiddenWordRejected | src/models/user.js:34-35 | a password containing "password" in any mix of letter cases is rejected |
| UserModel.EmailFailures | src/models/user.js:15-26 | the email passes exactly when it is set, non-empty and accepted by `isEmail` |
| UserModel.PasswordFailures | src/models/user.js:27-38 | the password passes exactly when it is set, non-empty, at least 7 UTF-16 code units long and free of "password" in any case |
| UserModel.TokenFailures | src/models/user.js:39-46 | the token list passes exactly when it casts and no entry is empty |
| UserModel.Validate | src/models/user.js:8-51 | a user is stored iff name, email, password and tokens are all acceptable; the stored user holds the document's values; a rejection lists at least one failure |
| UserModel.RevalidateStored | src/models/user.js:8-51 | re-validating an unchanged, acceptable stored user gives it back |
| UserModel.NewDoc | src/routers/user.js:93 | absent name, email and password are unset, an absent token list is empty, provided keys are cast through their setters |
| UserModel.Assign | src/routers/user.js:255 | assigning a whitelisted key is patching with that key alone; any other key changes nothing |
| UserModel.Patched | src/routers/user.js:255 | every provided field takes its value after the setters, every other field and the token list keep theirs |
| UserModel.PatchedStep | src/routers/user.js:255 | assigning one more whitelisted key, in any order, extends the patch by that key |
| UserModel.PatchChangesOnlyProvided | src/routers/user.js:255-257 | a valid profile patch sets exactly the provided fields, after their setters, and keeps the other fields and the token list |
| UserModel.NameRequired | src/models/user.js:10-14 | a missing name, or one of white space only, is rejected |
| UserModel.EmailNormalized | src/models/user.js:15-25 | a stored email is the trimmed, lower-cased input, already in normal form, and passes `isEmail` |
| UserModel.HashOnSave | src/models/user.js:100-109 | a modified password is replaced by a hash that differs from it and that `compare` accepts; an unmodified one is kept; the other fields never change |
| UserModel.ToJSON | src/models/user.js:60-69 | the serialised user has no `password` and no `tokens`, and every other field of `toObject` is kept unchanged |
| Auth.BearerToken | src/middleware/auth.js:7 | the token is the header with its first "Bearer " removed, or the header itself when it holds none |
| Auth.Admits | src/middleware/auth.js:9-18 | definition: the token verifies to a stored user who holds that exact token; pinned by `Auth.Authenticate` |
| Auth.BearerRoundTrip | src/middleware/auth.js:7 | "Bearer " followed by a token gives back that token |
| Auth.BareToken | src/middleware/auth.js:7 | a header without "Bearer " is used as the token unchanged |
| Auth.Authenticate | src/middleware/auth.js:4-28 | the guard admits iff a header is present, its token verifies, and the user it names exists and holds that exact token; it then yields that user and token; every failure is the same `None` |
| Auth.IssuedTokenAdmits | src/middleware/auth.js:9-21 | a token just issued to a user admits that user |
| Auth.GuardDependsOnTokens | src/middleware/auth.js:11-14 | the guard's answer depends only on the user ids and their token lists |
| Database.Db.EmailFree | src/models/user.js:18 | definition of the unique index: no other user holds the email; kept by `Database.Db.Valid` |
| Database.WithoutOwner | src/models/user.js:114 | exactly the recipes of other owners stay, unchanged |
| Database.Stored | src/models/user.js:8-47 | definition of the store's invariant: every user passed validation, emails are unique, every recipe passed validation and has a stored owner; `Database.Db.Valid` is this invariant of the fields |
| Database.RemovalKeepsStored | src/models/user.js:112-116 | removing a user together with their recipes keeps the invariant, so no recipe is left without its owner |
| Database.StoringUserKeepsStored | src/models/user.js:8-47 | storing an acceptable user whose email no other user holds keeps the invariant |
| Database.Db.ByEmail | src/models/user.js:82 | the user holding that email, or none when no user holds it |
| Database.Db.InsertUser | src/models/user.js:100-109 | a new user is stored under a fresh id, its password hashed, iff it validates and the email is free; otherwise nothing is written and the error says why |
| Database.Db.SaveUser | src/models/user.js:100-109 | an edited user is written back iff it validates and the email is free, its password re-hashed only if modified; otherwise nothing changes |
| Database.Db.GenerateAuthToken | src/models/user.js:71-79 | the signed token is appended to the end of that user's list, and nothing else changes |
| Database.Db.FindByCredentials | src/models/user.js:81-95 | a found user holds the normalised email and its hash matches the password; `None`, one answer for both an unknown email and a wrong password, means no such user matches |
| Database.Db.RemoveUser | src/models/user.js:112-116 | the user is removed together with exactly the recipes it owns (`WithoutOwner`) |
| Database.Db.FindOwned | src/routers/recipe.js:189 | a recipe is found iff it has that id and that owner |
| Database.Db.InsertRecipe | src/routers/recipe.js:97-102 | a recipe is stored under a fresh id iff it validates; otherwise the store is unchanged |
| Database.Db.SaveRecipe | src/routers/recipe.js:256 | an edited recipe is written back iff it validates; otherwise the store is unchanged |
| Database.Db.FindOneAndDelete | src/routers/recipe.js:290-293 | only a recipe with that id and owner is removed and returned; otherwise nothing changes |
| UserRoutes.WithoutToken | src/routers/user.js:159-161 | a token survives logout exactly when it was in the list and is not the session's token |
| UserRoutes.WithoutTokenCounts | src/routers/user.js:159-161 | every other token keeps its count; the session's token goes every time it occurs |
| UserRoutes.WithoutTokenConcat | src/routers/user.js:159-161 | the filter keeps the order of the remaining tokens |
| UserRoutes.LogoutRevokes | src/routers/user.js:157-168 | after logout, no header whose token (after removing the first "Bearer ") is the session's token admits anyone, whether it is "Bearer " + token or the bare token; every other header gets the same answer as before |
| UserRoutes.LogoutAllRevokes | src/routers/user.js:187-196 | after logoutAll no token admits that user |
| UserRoutes.OnlyEditable | src/routers/user.js:244-248 | definition: every body key is one of name, email, password; the 400 branch of `UserRoutes.PatchMe` |
| UserRoutes.Signup | src/routers/user.js:92-103 | 201 iff the body validates and the email is free; then the stored user has a hashed password and exactly one token more, the one returned and admitted by the guard; any failure is a 400 that stores nothing |
| UserRoutes.Login | src/routers/user.js:127-138 | 200 iff a user holds the normalised email and the password matches; then exactly one token is appended, the earlier ones kept; otherwise 400 with an empty body and nothing changes |
| UserRoutes.Logout | src/routers/user.js:157-168 | 401 and no change without a valid session; otherwise only the session's token is filtered out of that user's list |
| UserRoutes.LogoutAll | src/routers/user.js:187-196 | 401 and no change without a valid session; otherwise that user's token list becomes empty |
| UserRoutes.Me | src/routers/user.js:213-216 | 200 with the serialised user of the session, or the guard's 401 |
| UserRoutes.AssignAll | src/routers/user.js:255 | assigning the body's keys one at a time yields the patched document |
| UserRoutes.PatchMe | src/routers/user.js:242-261 | a key outside {name, email, password} is a 400 with no change; otherwise the patched user is saved (password re-hashed only if it changed) or a 400 leaves the user unchanged |
| UserRoutes.DeleteMe | src/routers/user.js:280-288 | the user and exactly the recipes it owns are removed; every other recipe is kept unchanged |
| RecipeRoutes.ParseSortBy | src/routers/recipe.js:137-140 | the key is the text before the first "_"; the direction is 1 exactly when the piece after that "_" is "asc" (the rest is "asc" or starts with "asc_"), and -1 otherwise |
| RecipeRoutes.NextPieceIsAsc | src/routers/recipe.js:139 | definition: the text after the key's "_" is "asc" or starts with "asc_"; pinned by `RecipeRoutes.FirstPieceAsc` |
| RecipeRoutes.FirstPieceAsc | src/routers/recipe.js:138-139 | the first "_"-piece of a string is "asc" exactly when the string is "asc" or starts with "asc_" |
| RecipeRoutes.ParseFieldDirection | src/routers/recipe.js:137-140 | `f_d` sorts on `f`, with direction 1 iff `d` is "asc" and -1 otherwise |
| RecipeRoutes.ParseFieldDirectionRest | src/routers/recipe.js:137-140 | `f_d_e` sorts like `f_d`: pieces after the second are ignored |
| RecipeRoutes.ParseFieldOnly | src/routers/recipe.js:137-140 | a `sortBy` without "_" sorts on the whole string, descending |
| RecipeRoutes.ListQuery | src/routers/recipe.js:130-140 | a title filter and a sort are applied only for non-empty query values; the sort is the parsed `sortBy` |
| RecipeRoutes.OnlyEditable | src/routers/recipe.js:231-241 | definition: every body key is one of the five recipe fields; the 400 branch of `RecipeRoutes.Patch` |
| RecipeRoutes.AssignAll | src/routers/recipe.js:255 | assigning the body's keys one at a time yields the patched document, owner untouched |
| RecipeRoutes.Create | src/routers/recipe.js:90-103 | 401 with no change without a session; 400 with the failures and no change if invalid; otherwise 201 and the recipe, owned by the requester, is stored under a fresh id |
| RecipeRoutes.List | src/routers/recipe.js:128-158 | exactly the requester's recipes, restricted to an equal title when one is given |
| RecipeRoutes.Get | src/routers/recipe.js:184-199 | 200 with the recipe iff it has that id and the requester owns it, else 404 |
| RecipeRoutes.Patch | src/routers/recipe.js:230-262 | a key outside the whitelist is a 400 before any lookup; a recipe not owned is a 404; otherwise the patched recipe is saved, or a 400 leaves the store unchanged |
| RecipeRoutes.Delete | src/routers/recipe.js:286-303 | the owner removes only that recipe and gets it back; anyone else gets 404 and the recipe stays |

## Left out

- Password hashing, token signing and verification, and the email syntax check are opaque functions, constrained only by `UserModel.Sound`. The JWT secret is not modelled.
- The model assumes a password hash passes the password validator again. The stored hash is re-validated on every later save.
- Strings.Lower: maps only the ASCII letters A to Z; `toLowerCase` also maps non-ASCII letters such as "É". So emails that differ only in the case of a non-ASCII letter stay distinct in the model. Two accounts "Émile@x.io" and "émile@x.io" can both be created, where the unique email index (src/models/user.js:18) refuses the second; the matching `Database.Db.EmailFree` and `Database.Db.FindByCredentials` inherit this. A login as "Émile@x.io" does not find the account "émile@x.io" in the model, where the lookup (src/models/user.js:82) finds it. Full Unicode case mapping, including mappings that change the length, is not modelled.
- Schema.CastTrimmed: Mongoose also casts numbers and booleans to strings. The model treats every non-string value for a `String` path as a cast failure.
- Schema.CastNumber: Mongoose also casts numeric strings and booleans to numbers (`"60"` to 60, `true` to 1, `""` to unset). The model treats every non-number value for `totalTime` as a cast failure. So a body with `totalTime: "60"` is rejected in the model but accepted by the API.
- A JSON `null` for an array path is taken as unset, and so it stores as `[]`.
- Ingredients, steps and a user's tokens are plain string lists. The subdocument shapes `{ingredient}` / `{step}` / `{token}` (src/models/recipe.js:27-40, src/models/user.js:39-46) and the subdocument `_id`s are not modelled. So a body whose `ingredients` or `steps`, or a signup body whose `tokens`, is a list of bare strings is cast and stored in the model, where Mongoose fails to cast it and the API answers 400; a list of `{ingredient}` objects, which the API accepts, has no counterpart in the model's values.
- RecipeRoutes.List: returns the matching recipes as a map keyed by id. The order the sort produces and the `limit`/`skip` pagination (including `parseInt` giving NaN) are not modelled. Only the parsed sort options are.
- The title match in the listing is taken as exact string equality on the stored (trimmed) title. Query casting of the filter is not modelled.
- A malformed id (a failed ObjectId cast) in the recipe routes is not modelled: GET and PATCH answer 400 from their catch (src/routers/recipe.js:196-197, 259-260), DELETE answers 500 (src/routers/recipe.js:300-301). Neither is a client-supplied `_id` at creation. Ids are the store's counter.
- Timestamps (`createdAt`, `updatedAt`) are not modelled.
- The 500 answers from store failures are not modelled, including the `res.send(500)` in logoutAll's error path. Neither are concurrency and the non-atomic cascade on user removal.
- Saving after logout or logoutAll re-validates the stored user, which always passes for a store that satisfies `Db.Valid`. That failure branch cannot occur in the model.
- UserRoutes.Login: email and password are strings. A request missing either field is not modelled separately.
- The welcome and cancellation emails (`src/emails/account.js`) are not part of this model. Their calls are commented out in the routers.
- Server bootstrap, routing setup and the API documentation (`src/app.js`, `src/index.js`) are not part of this model.
