/** What each route handler of app.js does to the users and notes
    collections and what it answers, as functions of the collections before
    the request. The class in Service performs the same steps in place. */
module Routes {
  import opened Common
  import opened NoteSchema
  import opened Crypto
  import opened Auth

  /** A stored user: the unique username and the bcrypt digest of the password. */
  datatype User = User(username: string, password: Digest)

  /** The two collections. A user's id is its position in `users`; a new
      note receives `nextNoteId`. */
  datatype Db = Db(users: seq<User>, notes: map<NoteId, Note>, nextNoteId: nat)

  /** The JSON body of a response. */
  datatype Body =
    | Message(text: string)
    | Token(token: string)
    | OneNote(id: NoteId, note: Note)
    | NoteList(notes: map<NoteId, Note>)
    | SharedNote(text: string, id: NoteId, note: Note)
    | NoBody

  /** A response together with the collections after the request. */
  datatype Reply = Reply(status: Status, db: Db, body: Body)

  /** The external collaborators: bcrypt, jsonwebtoken with the server
      secret, and MongoDB's text-search match of a query against a note's
      title and content. */
  datatype Env = Env(bcrypt: Bcrypt, jwt: Jwt, textMatch: (string, string, string) -> bool)

  ghost predicate EnvSound(e: Env) {
    BcryptSound(e.bcrypt) && JwtSound(e.jwt)
  }

  const UserExists: string := "User already exists"
  const UserCreated: string := "User created successfully"
  const InvalidCredentials: string := "Invalid credentials"
  const NotAuthorized: string := "Not authorized"
  const NoteDeleted: string := "Note deleted"
  const UserNotFound: string := "User not found"
  const NoteShared: string := "Note shared successfully"

  /** The collections before any request. */
  const Empty: Db := Db([], map[], 0)

  /** The username index is unique. */
  predicate UniqueUsernames(users: seq<User>) {
    forall i, j :: 0 <= i < |users| && 0 <= j < |users| && users[i].username == users[j].username ==> i == j
  }

  /** The invariant of the collections: unique, non-empty usernames, note ids
      below the next id, every stored note valid for its schema and shared
      with each user at most once. */
  predicate ValidDb(db: Db) {
    && UniqueUsernames(db.users)
    && (forall i :: 0 <= i < |db.users| ==> db.users[i].username != "")
    && forall id :: id in db.notes ==>
         id < db.nextNoteId && Savable(db.notes[id]) && NoDuplicates(db.notes[id].sharedWith)
  }

  /** `User.findOne({ username })`: the first user with that name. */
  function FindUser(users: seq<User>, name: string): (r: Option<UserId>)
    ensures r.None? <==> forall i :: 0 <= i < |users| ==> users[i].username != name
    ensures r.Some? ==> r.value < |users| && users[r.value].username == name
    ensures r.Some? ==> forall i :: 0 <= i < r.value ==> users[i].username != name
  {
    if users == [] then None
    else if users[0].username == name then Some(0)
    else
      match FindUser(users[1..], name)
      case None => None
      case Some(k) => Some(k + 1)
  }

  /** POST /api/auth/signup. An empty username fails the schema's `required`
      check on save: the handler's promise rejects and nothing is stored. */
  function Signup(b: Bcrypt, db: Db, username: string, password: string, salt: Salt): (r: Reply)
    ensures r.status == BadRequest <==>
              exists i :: 0 <= i < |db.users| && db.users[i].username == username
    ensures r.status == BadRequest ==> r == Reply(BadRequest, db, Message(UserExists))
    ensures r.status == Rejected <==>
              username == "" && forall i :: 0 <= i < |db.users| ==> db.users[i].username != username
    ensures r.status == Rejected ==> r == Reply(Rejected, db, NoBody)
    ensures r.status == Created <==>
              username != "" && forall i :: 0 <= i < |db.users| ==> db.users[i].username != username
    ensures r.status == Created ==>
              r == Reply(Created, db.(users := db.users + [User(username, Hash(b, password, salt))]),
                         Message(UserCreated))
  {
    if FindUser(db.users, username).Some? then
      Reply(BadRequest, db, Message(UserExists))
    else if username == "" then
      Reply(Rejected, db, NoBody)
    else
      var user := User(username, Hash(b, password, salt));
      Reply(Created, db.(users := db.users + [user]), Message(UserCreated))
  }

  /** POST /api/auth/login. An unknown username and a wrong password give the
      same answer. */
  function Login(e: Env, db: Db, username: string, password: string, now: int): (r: Reply)
    requires BcryptSound(e.bcrypt)
    ensures r.db == db
    ensures r.status != Ok ==> r == Reply(BadRequest, db, Message(InvalidCredentials))
    ensures r.status == Ok ==>
              exists i :: && 0 <= i < |db.users| && db.users[i].username == username
                          && Compare(e.bcrypt, password, db.users[i].password)
                          && r.body == Token(Issue(e.jwt, i, now))
    ensures UniqueUsernames(db.users) ==>
              (r.status == Ok <==>
                 exists i :: && 0 <= i < |db.users| && db.users[i].username == username
                             && Compare(e.bcrypt, password, db.users[i].password))
  {
    match FindUser(db.users, username)
    case None => Reply(BadRequest, db, Message(InvalidCredentials))
    case Some(id) =>
      if !Compare(e.bcrypt, password, db.users[id].password) then
        Reply(BadRequest, db, Message(InvalidCredentials))
      else
        Reply(Ok, db, Token(Issue(e.jwt, id, now)))
  }

  /** The answer of the authentication middleware when it refuses a request. */
  function Refused(db: Db, d: Decision): (r: Reply)
    requires d.Refuse?
  {
    Reply(d.status, db, Message(d.message))
  }

  /** The caller owns the note with this id (which exists). */
  predicate Owns(db: Db, caller: UserId, id: NoteId) {
    id in db.notes && db.notes[id].owner == caller
  }

  /** The notes of the caller: `Note.find({ user: req.user.id })`. */
  function OwnedBy(notes: map<NoteId, Note>, caller: UserId): (r: map<NoteId, Note>)
    ensures forall id :: id in r <==> id in notes && notes[id].owner == caller
    ensures forall id :: id in r ==> r[id] == notes[id]
  {
    map id | id in notes && notes[id].owner == caller :: notes[id]
  }

  /** GET /api/notes once the caller is authenticated. */
  function List(db: Db, caller: UserId): (r: Reply)
    ensures r.status == Ok && r.db == db && r.body.NoteList?
    ensures forall id :: id in r.body.notes ==> Owns(db, caller, id) && r.body.notes[id] == db.notes[id]
    ensures forall id :: Owns(db, caller, id) ==> id in r.body.notes
  {
    Reply(Ok, db, NoteList(OwnedBy(db.notes, caller)))
  }

  /** POST /api/notes once the caller is authenticated. A note without a title
      or a content fails validation on save: the handler's promise rejects and
      nothing is stored. */
  function Create(db: Db, caller: UserId, title: Option<string>, content: Option<string>, now: int): (r: Reply)
    ensures r.status == Created <==> Required(title) && Required(content)
    ensures r.status != Created ==> r == Reply(Rejected, db, NoBody)
    ensures r.status == Created ==>
              && r.body == OneNote(db.nextNoteId, Note(caller, title.value, content.value, [], now, now))
              && r.db == db.(notes := db.notes[db.nextNoteId := r.body.note], nextNoteId := db.nextNoteId + 1)
  {
    match New(caller, title, content, now)
    case None => Reply(Rejected, db, NoBody)
    case Some(note) =>
      var id := db.nextNoteId;
      Reply(Created, db.(notes := db.notes[id := note], nextNoteId := id + 1), OneNote(id, note))
  }

  /** PUT /api/notes/:id once the caller is authenticated. */
  function Update(db: Db, caller: UserId, id: NoteId, title: Option<string>, content: Option<string>, now: int): (r: Reply)
    ensures !Owns(db, caller, id) ==> r == Reply(Forbidden, db, Message(NotAuthorized))
    ensures Owns(db, caller, id) && !(Required(title) && Required(content)) ==> r == Reply(Rejected, db, NoBody)
    ensures Owns(db, caller, id) && Required(title) && Required(content) ==>
              var prior := db.notes[id];
              && r.status == Ok && r.body.OneNote? && r.body.id == id
              && r.db == db.(notes := db.notes[id := r.body.note])
              && r.body.note.title == title.value && r.body.note.content == content.value
              && r.body.note.owner == prior.owner && r.body.note.sharedWith == prior.sharedWith
              && r.body.note.createdAt == prior.createdAt
              && r.body.note.updatedAt ==
                   (if title.value == prior.title && content.value == prior.content then prior.updatedAt else now)
  {
    if !Owns(db, caller, id) then
      Reply(Forbidden, db, Message(NotAuthorized))
    else if title.None? || content.None? then
      Reply(Rejected, db, NoBody)
    else
      var note := db.notes[id];
      var edited := note.(title := title.value, content := content.value);
      if !Savable(edited) then
        Reply(Rejected, db, NoBody)
      else
        var saved := Stamp(note, edited, now);
        Reply(Ok, db.(notes := db.notes[id := saved]), OneNote(id, saved))
  }

  /** DELETE /api/notes/:id once the caller is authenticated. */
  function Delete(db: Db, caller: UserId, id: NoteId): (r: Reply)
    ensures !Owns(db, caller, id) ==> r == Reply(Forbidden, db, Message(NotAuthorized))
    ensures Owns(db, caller, id) ==> r.status == Ok && r.body == Message(NoteDeleted)
    ensures Owns(db, caller, id) ==>
              && r.db.users == db.users && r.db.nextNoteId == db.nextNoteId
              && id !in r.db.notes && r.db.notes.Keys == db.notes.Keys - {id}
              && forall k :: k in r.db.notes ==> r.db.notes[k] == db.notes[k]
  {
    if !Owns(db, caller, id) then
      Reply(Forbidden, db, Message(NotAuthorized))
    else
      Reply(Ok, db.(notes := db.notes - {id}), Message(NoteDeleted))
  }

  /** The caller's notes that the text index matches against `q`:
      `Note.find({ user: caller, $text: { $search: q } })`. */
  function Found(matches: (string, string, string) -> bool, notes: map<NoteId, Note>, caller: UserId, q: string)
    : (r: map<NoteId, Note>)
    ensures forall id :: id in r <==> id in OwnedBy(notes, caller) && TextIndexed(matches, q, notes[id])
    ensures forall id :: id in r ==> r[id] == notes[id]
  {
    var mine := OwnedBy(notes, caller);
    map id | id in mine && TextIndexed(matches, q, mine[id]) :: mine[id]
  }

  /** GET /api/search?q= once the caller is authenticated. */
  function Search(matches: (string, string, string) -> bool, db: Db, caller: UserId, q: string): (r: Reply)
    ensures r.status == Ok && r.db == db && r.body.NoteList?
    ensures forall id :: id in r.body.notes ==>
              && Owns(db, caller, id) && r.body.notes[id] == db.notes[id]
              && TextIndexed(matches, q, db.notes[id])
    ensures forall id :: Owns(db, caller, id) && TextIndexed(matches, q, db.notes[id]) ==> id in r.body.notes
  {
    Reply(Ok, db, NoteList(Found(matches, db.notes, caller, q)))
  }

  /** POST /api/notes/:id/share once the caller is authenticated. `target` is
      the body's `userId`; an absent one is not found. */
  function Share(db: Db, caller: UserId, id: NoteId, target: Option<UserId>, now: int): (r: Reply)
    ensures !Owns(db, caller, id) ==> r == Reply(Forbidden, db, Message(NotAuthorized))
    ensures Owns(db, caller, id) && (target.None? || target.value >= |db.users|) ==>
              r == Reply(NotFound, db, Message(UserNotFound))
    ensures Owns(db, caller, id) && target.Some? && target.value < |db.users| ==>
              var prior := db.notes[id];
              && r.status == Ok && r.body.SharedNote? && r.body.text == NoteShared && r.body.id == id
              && r.db == db.(notes := db.notes[id := r.body.note])
              && r.body.note.(sharedWith := prior.sharedWith, updatedAt := prior.updatedAt) == prior
              && (target.value in prior.sharedWith ==> r.db == db && r.body.note == prior)
              && (target.value !in prior.sharedWith ==>
                    r.body.note.sharedWith == prior.sharedWith + [target.value] && r.body.note.updatedAt == now)
  {
    if !Owns(db, caller, id) then
      Reply(Forbidden, db, Message(NotAuthorized))
    else if target.None? || target.value >= |db.users| then
      Reply(NotFound, db, Message(UserNotFound))
    else
      var note := db.notes[id];
      if target.value in note.sharedWith then
        Reply(Ok, db, SharedNote(NoteShared, id, note))
      else
        var saved := Stamp(note, note.(sharedWith := note.sharedWith + [target.value]), now);
        Reply(Ok, db.(notes := db.notes[id := saved]), SharedNote(NoteShared, id, saved))
  }
}
