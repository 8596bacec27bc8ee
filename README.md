# Notes backend: authentication, ownership and sharing

A Dafny model of the authorization layer of a multi-user note-taking
backend (Express, mongoose, bcryptjs, jsonwebtoken). Two collections are
modelled: users (unique username, bcrypt digest of the password) and notes
(owner, title, content, `sharedWith`, createdAt/updatedAt). The routes are
signup, login, list, create, update, delete, search and share. All note
routes first pass through the `authenticate` middleware.

Layout, one module per file:

- `common.dfy` (`Common`): ids, `Option`, the response status, occurrence counting.
- `text.dfy` (`Text`): `s.replace('Bearer ', '')`. JavaScript's replace with a
  string pattern removes the first occurrence, wherever it stands.
- `note.dfy` (`NoteSchema`): the note record of `models/Note.js`. It covers the
  required-field rule and mongoose's `timestamps` behaviour on save.
- `crypto.dfy` (`Crypto`): bcrypt and jsonwebtoken as uninterpreted functions.
  The properties assumed of them are stated as predicates.
- `auth.dfy` (`Auth`): the `authenticate` middleware.
- `routes.dfy` (`Routes`): each handler as a function from the collections
  before the request to the response and the collections after it.
- `service.dfy` (`Service`): the server as a class whose fields are the
  collections. There is one method per route. Each method updates the
  fields step by step, as the handler does, and is proved equal to its
  `Routes` function.
- `properties.dfy` (`Properties`): lemmas that relate several requests.
- `as_written.dfy` (`AsWritten`): the share route against the inline schema
  of `app.js` (see Findings).

Inputs that the server gets from its environment are parameters:

- the clock `now`, in whole seconds, as jsonwebtoken reads it;
- the bcrypt salt;
- the value of the Authorization header;
- the bcrypt, JWT and text-match functions, bundled in `Routes.Env`.

New note ids come from a counter. A user's id is that user's position in
the users collection, because users are never deleted.

Where the code's behaviour is easy to misread, the model follows the code:

- A note that fails validation (missing or empty title or content) makes
  `save()` throw. The handlers do not catch it, so their promise rejects and
  the route code sends no 400. The model answers `Rejected` and stores nothing.
- An expired token and an unverifiable one get the same answer: 400
  "Invalid token". An absent header, or an empty one (which is falsy), gets
  401 "Access denied".
- The first "Bearer " is removed wherever it occurs in the header, not only
  at the start.
- There is no read-by-id route in `app.js`, so none is modelled.
- The inline note schema of `app.js` has no `sharedWith`. The model uses the
  record of `models/Note.js`, and the difference is a Finding below.
- mongoose refreshes `updatedAt` only when a save modifies the document.
  So an update that writes back the same title and content leaves
  `updatedAt` as it was. A share with a new user is a modification, so it
  refreshes `updatedAt` as well as extending `sharedWith`.
- A share request with no `userId` looks up `findById(undefined)`, finds
  nothing, and is answered 404.
- A signup with an empty username passes the lookup, then fails the user
  schema's `required` check on save: the promise rejects and no user is
  stored. So every stored username is non-empty.
- bcrypt hashes only the first 72 bytes of the UTF-8 encoding of a
  password. Two passwords that agree on those bytes are the same password
  to login.
- A text search sees only a note's title and content, the two fields of the
  text index (models/Note.js:10). The match function receives nothing else.

## Model

| member | source | states |
|---|---|---|
| Text.IndexOf | app.js:18 | -1 exactly when the pattern does not occur; otherwise the position of its first occurrence |
| Text.RemoveFirst | app.js:18 | `replace(p, '')`: unchanged when `p` does not occur; otherwise the result with `p` put back at the first occurrence is the input, and it is shorter by the length of `p` |
| Text.StripLeadingBearer | app.js:18 | "Bearer " + t becomes t |
| Text.StripNoSpace | app.js:18 | a header without a space, such as a bare compact token, is left as is (the prefix is optional) |
| Text.StripInside | app.js:18 | the prefix is removed even when it is not at the start of the header |
| NoteSchema.New | models/Note.js:3-8 | a new note saves exactly when title and content are present and non-empty; it gets the caller as owner, an empty `sharedWith`, and both timestamps equal to the save time |
| NoteSchema.Stamp | models/Note.js:8 | saving keeps createdAt; it sets updatedAt to now only when a field was modified, and changes nothing else |
| Crypto.EncodeChar | app.js:69 | the UTF-8 encoding of a character takes 1 to 4 bytes, one exactly for ASCII, where it is the character's code |
| Crypto.Utf8 | app.js:69 | the bytes bcryptjs hashes: at least one and at most four bytes per character of the password |
| Crypto.Utf8Append | app.js:69 | the UTF-8 encoding of a concatenation is the concatenation of the encodings |
| Crypto.Key | app.js:69 | the bytes bcrypt uses are at most 72: the whole encoding when it fits, otherwise its first 72 bytes |
| Crypto.Hash | app.js:69 | the digest of a password records the salt it was made with |
| Crypto.Compare | app.js:81 | for a digest of password `pw` under any salt, the comparison succeeds exactly for the passwords whose first 72 UTF-8 bytes equal those of `pw` |
| Crypto.LongPasswordsCollide | app.js:69-81 | passwords that share a prefix of 72 or more bytes get the same digest, and the digest of one is accepted for the other |
| Crypto.ShortAsciiKeysDiffer | app.js:69-81 | distinct ASCII passwords of at most 72 characters have distinct keys |
| Crypto.Issue | app.js:84 | with a sound jsonwebtoken, the issued token verifies to the user's id, issued now, expiring 3600 s later; it is non-empty and has no space |
| Auth.Authenticate | app.js:13-24 | 401 "Access denied" exactly for an absent or empty header; the request proceeds exactly when the stripped token verifies and is not expired, and then with the token's id; every other refusal is 400 "Invalid token" |
| Auth.IssuedTokenAccepted | app.js:14-22 | "Bearer " + a token issued at t proceeds as its user while now < t + 3600, and is refused with 400 from then on |
| Auth.BareTokenAccepted | app.js:18 | the same holds for the token without the prefix |
| Auth.PrefixOnlyRefused | app.js:18-22 | the header "Bearer " alone leaves an empty token and is refused with 400 |
| Routes.FindUser | app.js:66 | `findOne({ username })`: None exactly when no user has the name, otherwise the first user with it |
| Routes.Signup | app.js:64-74 | 400 "User already exists" with nothing changed exactly when the username is taken; a rejected promise with nothing changed exactly when it is free but empty (the schema requires a username); 201 exactly when it is free and non-empty, and then the user is appended with the bcrypt digest of the password, not the password |
| Routes.Login | app.js:76-86 | nothing changes; every failure is the same 400 "Invalid credentials"; success means a user with that name whose digest matches the password, and the body is a token for that user's id expiring one hour after now; with unique usernames, success holds exactly when such a user exists |
| Routes.OwnedBy | app.js:90 | exactly the notes whose owner is the caller, with their stored values |
| Routes.List | app.js:89-92 | 200 with exactly the caller's own notes; nothing changes |
| Routes.Create | app.js:94-99 | 201 exactly when title and content are present and non-empty; the new note is stored under a fresh id with the caller as owner; otherwise the promise rejects and nothing is stored |
| Routes.Update | app.js:101-111 | 403 with no change when the note is absent or owned by someone else; a missing or empty field rejects with no change; otherwise only that note changes: both title and content are overwritten, owner, `sharedWith` and createdAt are kept, and updatedAt is refreshed iff something changed |
| Routes.Delete | app.js:113-119 | 403 with no change when the note is absent or owned by someone else; otherwise 200, and exactly that note is removed while the others are kept |
| Routes.Found | app.js:123-126 | `Note.find({ user, $text })`: exactly the caller's notes that the text index matches, with their stored values |
| Routes.Search | app.js:121-128 | 200 with exactly the caller's own notes whose title and content match the query; nothing changes |
| Routes.Share | app.js:130-144 | 403 with no change for a non-owner or absent note (checked first); 404 with no change for an unknown or absent target; otherwise 200, and the target is in `sharedWith`, appended only when absent; no other field changes except updatedAt on a save |
| Properties.SignupUnique | app.js:36 | signup keeps the collection invariant (unique, non-empty usernames); after a successful signup the username belongs to exactly one user |
| Properties.SignupTwice | app.js:66-67 | a second signup with the same username is refused with 400 and changes nothing |
| Properties.LoginFailuresIndistinguishable | app.js:78-82 | an unknown username and a wrong password produce the identical reply |
| Properties.SignupThenLogin | app.js:69-85 | after signup, login with the same password returns a token for the new user's id; a password whose first 72 UTF-8 bytes differ gets the generic failure |
| Properties.SignupThenLoginAscii | app.js:69-85 | after signup with an ASCII password of at most 72 characters, every other such password gets the generic failure |
| Properties.LongPasswordsShareLogin | app.js:69-85 | after signup with a password of 72 or more bytes plus any suffix, the same 72 bytes with any other suffix log in as the new user |
| Properties.LoginTokenAuthenticates | app.js:84 | a login token authenticates as that user, with or without "Bearer ", for one hour; from then on both forms are refused with 400 "Invalid token" |
| Properties.NonOwnerForbidden | app.js:103 | update, delete and share by a non-owner all return 403 and change nothing, whatever `sharedWith` holds |
| Properties.CreateThenList | app.js:96 | a created note is owned by the caller, is in the caller's list and is in no other user's list |
| Properties.UpdateChangesOnlyThatNote | app.js:105-108 | an update keeps the invariant and leaves every other note and the users collection as they were |
| Properties.DeleteTwice | app.js:115-117 | a delete keeps the invariant; deleting the same note again is refused with 403 |
| Properties.ShareExactlyOnce | app.js:138-139 | a share keeps the invariant; after a successful share the target occurs exactly once in `sharedWith` |
| Properties.ShareIdempotent | app.js:138-141 | sharing twice gives the same collections and reply as sharing once |
| Properties.SharedNotesStayPrivate | app.js:123-126 | a user a note is shared with never receives it through listing or searching |
| Properties.SearchIsFilteredList | app.js:125 | search results are among the caller's own notes; whether an owned note matches depends only on its title and content |
| Properties.Scenario | app.js:64-128 | the sequence signup, login, create, list, update, delete succeeds step by step from empty collections; a note created afterwards is found by a search the text index matches, so the result is non-empty |
| Service.NoteService.constructor | app.js:33-39 | the server starts with empty collections satisfying the invariant |
| Service.NoteService.Signup | app.js:64-74 | the new state and reply are those of `Routes.Signup` (including the rejected empty username), and the invariant is kept |
| Service.NoteService.Login | app.js:76-86 | the reply is that of `Routes.Login`, and the state is unchanged |
| Service.NoteService.ListNotes | app.js:89-92 | the middleware's refusal, or the reply of `Routes.List` for the authenticated caller |
| Service.NoteService.CreateNote | app.js:94-99 | a refused request changes nothing; otherwise the new state and reply are those of `Routes.Create` |
| Service.NoteService.UpdateNote | app.js:101-111 | a refused request changes nothing; otherwise the new state and reply are those of `Routes.Update` |
| Service.NoteService.DeleteNote | app.js:113-119 | a refused request changes nothing; otherwise the new state and reply are those of `Routes.Delete` |
| Service.NoteService.SearchNotes | app.js:121-128 | the middleware's refusal, or the reply of `Routes.Search` for the authenticated caller |
| Service.NoteService.ShareNote | app.js:130-144 | a refused request changes nothing; otherwise the new state and reply are those of `Routes.Share` |
| AsWritten.ShareInline | app.js:130-144 | over inline-schema notes: 403 and 404 as before, but an owner sharing with an existing user always gets a rejected promise |
| AsWritten.ShareNeverSucceedsInline | app.js:27-31 | a concrete owner share that the inline schema rejects and the models/Note.js record accepts |

## Left out

- The MongoDB connection, mongoose persistence and the async plumbing are left out. The collections are in-memory values, and each request runs alone. Concurrent requests and last-write-wins races are not modelled.
- bcrypt and JWT cryptography are uninterpreted functions (`Crypto.Bcrypt`, `Crypto.Jwt`). The assumed properties are listed in `BcryptSound` and `JwtSound`. The secret, the work factor and the signature algorithm are folded into these functions.
- Crypto.Compare: its answer is exact only up to the 72-byte key. `BcryptSound` assumes that distinct keys give distinct digests, not that distinct passwords do. Two details of bcryptjs are left out: the NUL byte it appends to the key, and its cyclic reuse of a key shorter than 72 bytes. They make more passwords collide only when a password contains a NUL character. JavaScript strings are UTF-16, and lone surrogates are not modelled, because a Dafny `char` is a Unicode scalar value.
- Properties.SignupThenLogin: a different password is refused only when its 72-byte key differs. `Properties.LongPasswordsShareLogin` shows that a long password with a different tail logs in.
- Randomness (the bcrypt salt, ObjectId generation) is an input or a counter.
- The relevance semantics of MongoDB `$text` search are not modelled. Matching is an uninterpreted predicate of the query, the title and the content. An absent `q` is not modelled, because the server's behaviour then depends on the database.
- A signup or login body that lacks `username` or `password` is not modelled. Its outcome depends on how mongoose treats undefined filter keys and on bcrypt's argument errors. Body fields are strings. Mongoose's casting of non-string values is not modelled.
- Malformed ids are not modelled. `findById` on a string that is not an ObjectId throws a CastError. Ids here are naturals, so every id is well-formed.
- JSON serialization is not modelled. In particular, token ids are strings compared with `note.user.toString()`; both sides are the same id here.
- The Express middleware (json, cors, helmet, the rate limiter), server start-up, the module export, and the test file are out of scope. The test file is used only as a scenario (`Properties.Scenario`).
- The uncaught errors are modelled only as `Rejected`. This covers validation failure on save and the TypeError of Findings. What Express then sends is not modelled.

## Findings

| source | as written | input that shows it | evidently intended | confidence | as-written member | corrected member |
|---|---|---|---|---|---|---|
| app.js:27-31, app.js:138 | the share route calls `note.sharedWith.includes` on documents of the inline schema, which declares no `sharedWith`, so it throws and the share never happens | the owner of note 0 shares it with an existing user 0 | the note record of models/Note.js:7, whose `sharedWith` list the route fills | not executed | AsWritten.ShareInline | Routes.Share |
