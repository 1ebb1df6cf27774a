# User signup, signin and profile handlers — a Dafny model

This project models the request handlers of the hackathon application's backend: the three
authentication routes of `backend/routes/auth.js` (`POST /signup`, `POST /signin`, `POST /google`)
and the two profile routes of `backend/routes/profile.js` (`GET /me`, `PUT /me`), all working over
one user collection.

## How the model is built

- `options.dfy` (module `Options`): request and document fields are `Option<string>`; JavaScript's
  `if (x)` on such a field is `Truthy`: present and not the empty string.
- `users.dfy` (module `Users`): the `User` document, the two views the routes send back
  (`PublicUser`, the six fields signin builds by hand, and `ProfileView`, a document read with
  `.select('-password')`), the response bodies, and the collection as a value
  (`Collection`: documents in insertion order plus the next identifier). `FirstWithEmail` is
  `findOne({ email })` and `IndexOfId` is `findById`, both returning the first match in
  insertion order.
- `store.dfy` (module `Store`): the collection as mutable state, class `UserStore`, with `Save`
  (`new User(...)` then `save()`) and `Replace` (the write of `findByIdAndUpdate`).
- `validation.dfy` (module `Validation`): the email-shape test `/\S+@\S+\.\S+/`, the password
  length test, and `Array.prototype.join`.
- `auth.dfy` (module `Auth`) and `profile.dfy` (module `Profile`): each handler is specified by a
  function from the collection before the request to the response and the collection after it
  (`SignupOutcome`, `GoogleOutcome`, `UpdateOutcome`); the handlers that write are also methods on
  the store (`Signup`, `Google`, `UpdateMe`) whose postcondition is that function. `Signin` and
  `GetMe` only read, so they are functions of the records.

Points where the model spells out what JavaScript does implicitly:

- `password.length` counts UTF-16 code units, so a character outside the Basic Multilingual Plane
  counts twice (`Utf16Length`). For ordinary characters six pass and five are refused.
- `\s` is the exact JavaScript whitespace class. The regular expression is unanchored; its meaning
  is stated directly (`RegexMatches`: some substring is `X@Y.Z` with non-empty `\S` runs) and the
  executable test is proved equal to it.
- `user.matchPassword` (the hash comparison of the user model) is a parameter of `Signin`,
  `(User, string) -> bool`, about which nothing is assumed.
- The `protect` middleware is replaced by the caller's identifier, given as an input.
- `/google` answers with the whole found-or-created document, including its stored password
  field, which is what `res.json({ message, user })` sends unless the user model (not part of this
  model) hides it.

Signup answers only `{ message: 'Signup successful' }`. Signin answers a message and the public
view. Neither issues a token, and no activity record is written. The Google route is `POST /google`
with `{ email, name, appwriteId }`. There is no GitHub route and no refresh logic.

## Model

| member | source | states |
|---|---|---|
| `Users.FirstWithEmail` | backend/routes/auth.js:37 | `findOne({ email })` gives the first record with that email, and nothing exactly when no record has it |
| `Users.IndexOfId` | backend/routes/profile.js:38 | `findById` gives the first record with that identifier, and nothing exactly when no record has it |
| `Users.PublicView` | backend/routes/auth.js:103-111 | the signin view: the record's `_id`, email, first and last name, phone number and gender, and no password field; stated field by field in `Auth.SigninSuccess` |
| `Users.WithoutPassword` | backend/routes/profile.js:12 | `.select('-password')`: every stored field but the password; stated field by field in `Profile.GetMe` and used for the PUT answer in `Profile.UpdateThenGet` |
| `Users.FirstWithEmailAppended` | backend/routes/auth.js:37-54 | after inserting a record whose email no record had, `findOne` by that email finds the new one |
| `Users.IndexOfIdAfterReplace` | backend/routes/profile.js:42-46 | rewriting a record under its own identifier keeps `findById` pointing at it |
| `Store.UserStore.Save` | backend/routes/auth.js:44-54 | `save()` of a new document appends it under a fresh identifier and changes nothing else; identifiers stay distinct |
| `Store.UserStore.Replace` | backend/routes/profile.js:42-46 | the update writes back one record under the same identifier and changes nothing else |
| `Validation.EmailShapeIsRegexMatch` | backend/routes/auth.js:25-26 | the email test accepts exactly the strings that contain, anywhere, a `\S` run, `@`, a `\S` run, `.`, a `\S` run |
| `Validation.IsEmailShaped` | backend/routes/auth.js:25-26 | the executable email test; `Validation.EmailShapeIsRegexMatch` proves it accepts exactly what the regular expression matches |
| `Validation.EmailShapeUnanchored` | backend/routes/auth.js:25-26 | text before or after an accepted string does not make it rejected |
| `Validation.Utf16Length` | backend/routes/auth.js:31 | `password.length` is at least the number of characters and at most twice it |
| `Validation.BmpUtf16Length` | backend/routes/auth.js:31 | for characters of the Basic Multilingual Plane `length` is the number of characters |
| `Validation.PasswordLengthBoundary` | backend/routes/auth.js:31-33 | for ordinary characters the password is refused exactly when it has fewer than 6; length 6 passes |
| `Validation.SplitJoin` | backend/routes/auth.js:20 | a non-empty list of comma-free names is read back exactly from its `join(', ')` |
| `Validation.Join` | backend/routes/auth.js:20 | `missingFields.join(', ')`; `Validation.SplitJoin` proves the joined list reads back exactly |
| `Auth.AbsentMembers` | backend/routes/auth.js:13-17 | a name is pushed exactly when its field is absent or empty |
| `Auth.AbsentSubsequence` | backend/routes/auth.js:13-17 | the pushed names keep the order in which the fields are checked |
| `Auth.MissingFieldsInOrder` | backend/routes/auth.js:12-17 | the list names exactly the missing among first name, last name, email, password, in that order, and is empty exactly when all four are present |
| `Auth.CollectMissing` | backend/routes/auth.js:13-17 | the four conditional pushes build exactly that list |
| `Auth.MissingMessageLists` | backend/routes/auth.js:19-21 | the message is `Missing required fields: ` followed by the list joined by `, `, which reads back as the list |
| `Auth.NewUser` | backend/routes/auth.js:44-51 | the record signup creates from the submitted fields; `Auth.SignupSuccess` states it is appended under a fresh identifier |
| `Auth.SignupOutcome` | backend/routes/auth.js:12-57 | the signup decision and write; its contract is stated by `Auth.SignupMissingFields`, `Auth.SignupCheckOrder`, `Auth.SignupValidationIgnoresStore`, `Auth.SignupRejectionKeepsStore` and `Auth.SignupSuccess` |
| `Auth.Signup` | backend/routes/auth.js:6-57 | the handler answers and changes the store as `SignupOutcome` says, keeping identifiers distinct |
| `Auth.SignupMissingFields` | backend/routes/auth.js:12-21 | the missing-field report is the answer exactly when a required field is absent or empty, with status 400 and the store unchanged |
| `Auth.SignupCheckOrder` | backend/routes/auth.js:24-41 | the invalid-email, short-password and already-exists answers each come exactly when every earlier check passed and that check fails |
| `Auth.SignupValidationIgnoresStore` | backend/routes/auth.js:12-33 | a request that fails validation gets the same answer whatever the store holds, and the store is unchanged |
| `Auth.SignupRejectionKeepsStore` | backend/routes/auth.js:37-41 | every rejection leaves the store unchanged; an email already present is always rejected with 400 |
| `Auth.SignupSuccess` | backend/routes/auth.js:37-57 | success exactly when validation passes and no record has the email; then exactly one record with the submitted fields and a fresh identifier is appended, it is the only one with that email, and the answer is `Signup successful` with no token |
| `Auth.Signin` | backend/routes/auth.js:70-112 | the signin decision, which only reads; its contract is stated by `Auth.SigninRequiresBoth`, `Auth.SigninSuccess` and `Auth.SigninFailuresIndistinguishable` |
| `Auth.SigninRequiresBoth` | backend/routes/auth.js:75-78 | `Email and password are required` is the answer exactly when the email or the password is absent or empty |
| `Auth.SigninSuccess` | backend/routes/auth.js:82-112 | signin succeeds exactly when both are given, a record has the email and the password matches the first such record; the answer is that record's identifier, email, first and last name, phone number and gender, and no password |
| `Auth.SigninFailuresIndistinguishable` | backend/routes/auth.js:85-97 | an unknown email and a wrong password get the identical 400 `Invalid email or password` answer |
| `Auth.SignupThenSignin` | backend/routes/auth.js:44-112 | after a successful signup, signin with the same email and password succeeds with the new record if the hash comparison accepts the saved password |
| `Auth.GoogleUser` | backend/routes/auth.js:129-133 | the record `/google` creates: first name from `name`, the email and the appwriteId; `Auth.GoogleFindOrCreate` states when it is appended |
| `Auth.GoogleOutcome` | backend/routes/auth.js:127-136 | find-or-create by email; its contract is stated by `Auth.GoogleFindOrCreate`, `Auth.GoogleKeyedByEmail` and `Auth.GoogleIdempotent` |
| `Auth.Google` | backend/routes/auth.js:123-136 | the handler answers and changes the store as `GoogleOutcome` says, keeping identifiers distinct |
| `Auth.GoogleKeyedByEmail` | backend/routes/auth.js:127-136 | a second call with the same email, whatever name and appwriteId it carries, adds no record, changes none and returns the record of the first call |
| `Auth.GoogleIdempotent` | backend/routes/auth.js:127-136 | repeating a call changes nothing and gives the same answer |
| `Auth.GoogleFindOrCreate` | backend/routes/auth.js:127-136 | a record is created exactly when none has the email; an existing record is returned as stored and the store is unchanged; either way the answer is 200 `Google login successful` with that record |
| `Profile.GetMe` | backend/routes/profile.js:9-16 | 200 with every stored field of the caller's record except the password exactly when a record has the caller's identifier, otherwise 404 `User not found` |
| `Profile.BuildProfileFields` | backend/routes/profile.js:27-35 | the field map holds exactly the truthy members among first name, last name, email, phone number and gender, with their values |
| `Profile.ApplySet` | backend/routes/profile.js:42-46 | `$set` of the field map on one record; `Profile.SetOnlyNamedFields` and `Profile.UpdateCannotClear` state what it writes and keeps |
| `Profile.SetOnlyNamedFields` | backend/routes/profile.js:42-46 | `$set` writes exactly the named fields; identifier, username, password and appwriteId are unchanged |
| `Profile.UpdateCannotClear` | backend/routes/profile.js:30-35 | an omitted or empty member leaves the stored value unchanged; a truthy one replaces it |
| `Profile.UpdateOutcome` | backend/routes/profile.js:38-51 | the PUT decision and write; its contract is stated by `Profile.UpdateUnknownCaller`, `Profile.UpdateFrame`, `Profile.UpdateIdempotent` and `Profile.UpdateThenGet` |
| `Profile.UpdateMe` | backend/routes/profile.js:26-51 | the handler answers and changes the store as `UpdateOutcome` says, keeping identifiers distinct |
| `Profile.UpdateUnknownCaller` | backend/routes/profile.js:38-51 | 404 exactly when no record has the caller's identifier, and then the store is unchanged |
| `Profile.UpdateFrame` | backend/routes/profile.js:42-46 | only the caller's record changes, by `$set` of the field map; every other record and the identifier counter are untouched |
| `Profile.UpdateIdempotent` | backend/routes/profile.js:42-46 | applying the same body twice gives the same store and answer as applying it once |
| `Profile.UpdateThenGet` | backend/routes/profile.js:42-48 | a known caller gets 200 with the updated record without its password, the same as a following GET returns |

## Left out

- Password hashing: the user model's pre-save hook and `matchPassword` are not part of this model; the record keeps the password value the route hands to `new User(...)`, and the comparison is a parameter.
- The `protect` middleware (tokens, 401 answers) is not part of this model: the profile handlers take the caller's identifier.
- Store failures: connection errors, the unique index, schema validation (required fields, a gender enum) and the 500 answers with their environment-dependent details are not modelled; every store call succeeds.
- Document identifiers: MongoDB's `ObjectId` generation is a counter (`nextId`); timestamps and version keys of the schema are not modelled.
- `findOne` and `findById` return the first match in insertion order; a lookup by an absent email (`/google` without one) matches a record whose email is absent.
- Request members are strings or absent; JSON numbers, booleans, arrays and objects in the body, and strings holding unpaired UTF-16 surrogates, are not modelled.
- Email uniqueness across PUT is not claimed: PUT may set `email` to another user's address.
- Each request runs alone, as one step: what another request may do between a handler's lookup and its write (`findOne` then `save()` in signup, `findById` then `findByIdAndUpdate` in PUT) is not modelled, so neither two concurrent signups with one email both passing the duplicate check nor a PUT answering `null` with status 200 for a record removed in between is captured.
- Logging (`console.log`) and the Express routing and response plumbing.
- The React frontend (pages, components, the API helpers, the Appwrite client) is not part of this model.
