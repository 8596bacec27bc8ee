/** The server of app.js: the users and notes collections as fields that the
    route handlers update in place, one method per route. Every note route
    first runs the authentication middleware. Each method performs the
    handler's steps (look up, check, assign, save) and is proved to do what
    the matching function of Routes describes. */
module Service {
  import opened Common
  import opened NoteSchema
  import opened Crypto
  import opened Auth
  import opened Routes
  import Properties

  class NoteService {
    const env: Env
    var users: seq<User>
    var notes: map<NoteId, Note>
    var nextNoteId: nat

    /** The collections as a value. */
    function Snapshot(): Db
      reads this
    {
      Db(users, notes, nextNoteId)
    }

    ghost predicate Valid()
      reads this
    {
      EnvSound(env) && ValidDb(Snapshot())
    }

    /** Start with empty collections. */
    constructor (env: Env)
      requires EnvSound(env)
      ensures Valid() && this.env == env && Snapshot() == Empty
    {
      this.env := env;
      users := [];
      notes := map[];
      nextNoteId := 0;
    }

    /** POST /api/auth/signup with `salt` the salt bcrypt draws. */
    method Signup(username: string, password: string, salt: Salt) returns (status: Status, body: Body)
      requires Valid()
      modifies this
      ensures Valid()
      ensures Reply(status, Snapshot(), body) == Routes.Signup(env.bcrypt, old(Snapshot()), username, password, salt)
    {
      var existing := FindUser(users, username);
      if existing.Some? {
        return BadRequest, Message(UserExists);
      }
      var hashedPassword := Hash(env.bcrypt, password, salt);
      if username == "" {
        // `required: true` fails on save and the promise rejects
        return Rejected, NoBody;
      }
      Properties.SignupUnique(env.bcrypt, Snapshot(), username, password, salt);
      users := users + [User(username, hashedPassword)];
      return Created, Message(UserCreated);
    }

    /** POST /api/auth/login at time `now` (seconds). */
    method Login(username: string, password: string, now: int) returns (status: Status, body: Body)
      requires Valid()
      ensures Reply(status, Snapshot(), body) == Routes.Login(env, Snapshot(), username, password, now)
    {
      var user := FindUser(users, username);
      if user.None? {
        return BadRequest, Message(InvalidCredentials);
      }
      var isMatch := Compare(env.bcrypt, password, users[user.value].password);
      if !isMatch {
        return BadRequest, Message(InvalidCredentials);
      }
      var token := Issue(env.jwt, user.value, now);
      return Ok, Token(token);
    }

    /** GET /api/notes. */
    method ListNotes(header: Option<string>, now: int) returns (status: Status, body: Body)
      requires Valid()
      ensures var d := Authenticate(env.jwt, header, now);
              Reply(status, Snapshot(), body) ==
                if d.Refuse? then Refused(Snapshot(), d) else Routes.List(Snapshot(), d.id)
    {
      var d := Authenticate(env.jwt, header, now);
      if d.Refuse? {
        return d.status, Message(d.message);
      }
      var found := OwnedBy(notes, d.id);
      return Ok, NoteList(found);
    }

    /** POST /api/notes. */
    method CreateNote(header: Option<string>, now: int, title: Option<string>, content: Option<string>)
      returns (status: Status, body: Body)
      requires Valid()
      modifies this
      ensures Valid()
      ensures var d := Authenticate(env.jwt, header, now);
              Reply(status, Snapshot(), body) ==
                if d.Refuse? then Refused(old(Snapshot()), d) else Routes.Create(old(Snapshot()), d.id, title, content, now)
    {
      var d := Authenticate(env.jwt, header, now);
      if d.Refuse? {
        return d.status, Message(d.message);
      }
      var note := New(d.id, title, content, now);
      if note.None? {
        return Rejected, NoBody;
      }
      var id := nextNoteId;
      notes := notes[id := note.value];
      nextNoteId := id + 1;
      return Created, OneNote(id, note.value);
    }

    /** PUT /api/notes/:id. */
    method UpdateNote(header: Option<string>, now: int, id: NoteId, title: Option<string>, content: Option<string>)
      returns (status: Status, body: Body)
      requires Valid()
      modifies this
      ensures Valid()
      ensures var d := Authenticate(env.jwt, header, now);
              Reply(status, Snapshot(), body) ==
                if d.Refuse? then Refused(old(Snapshot()), d)
                else Routes.Update(old(Snapshot()), d.id, id, title, content, now)
    {
      var d := Authenticate(env.jwt, header, now);
      if d.Refuse? {
        return d.status, Message(d.message);
      }
      if id !in notes || notes[id].owner != d.id {
        return Forbidden, Message(NotAuthorized);
      }
      if title.None? || content.None? {
        return Rejected, NoBody;
      }
      var note := notes[id];
      var edited := note.(title := title.value);
      edited := edited.(content := content.value);
      if !Savable(edited) {
        return Rejected, NoBody;
      }
      var saved := Stamp(note, edited, now);
      notes := notes[id := saved];
      return Ok, OneNote(id, saved);
    }

    /** DELETE /api/notes/:id. */
    method DeleteNote(header: Option<string>, now: int, id: NoteId) returns (status: Status, body: Body)
      requires Valid()
      modifies this
      ensures Valid()
      ensures var d := Authenticate(env.jwt, header, now);
              Reply(status, Snapshot(), body) ==
                if d.Refuse? then Refused(old(Snapshot()), d) else Routes.Delete(old(Snapshot()), d.id, id)
    {
      var d := Authenticate(env.jwt, header, now);
      if d.Refuse? {
        return d.status, Message(d.message);
      }
      if id !in notes || notes[id].owner != d.id {
        return Forbidden, Message(NotAuthorized);
      }
      notes := notes - {id};
      return Ok, Message(NoteDeleted);
    }

    /** GET /api/search?q= . */
    method SearchNotes(header: Option<string>, now: int, q: string) returns (status: Status, body: Body)
      requires Valid()
      ensures var d := Authenticate(env.jwt, header, now);
              Reply(status, Snapshot(), body) ==
                if d.Refuse? then Refused(Snapshot(), d) else Routes.Search(env.textMatch, Snapshot(), d.id, q)
    {
      var d := Authenticate(env.jwt, header, now);
      if d.Refuse? {
        return d.status, Message(d.message);
      }
      var found := Found(env.textMatch, notes, d.id, q);
      return Ok, NoteList(found);
    }

    /** POST /api/notes/:id/share with `userId` the body's user id. */
    method ShareNote(header: Option<string>, now: int, id: NoteId, userId: Option<UserId>)
      returns (status: Status, body: Body)
      requires Valid()
      modifies this
      ensures Valid()
      ensures var d := Authenticate(env.jwt, header, now);
              Reply(status, Snapshot(), body) ==
                if d.Refuse? then Refused(old(Snapshot()), d)
                else Routes.Share(old(Snapshot()), d.id, id, userId, now)
    {
      var d := Authenticate(env.jwt, header, now);
      if d.Refuse? {
        return d.status, Message(d.message);
      }
      if id !in notes || notes[id].owner != d.id {
        return Forbidden, Message(NotAuthorized);
      }
      var note := notes[id];
      if userId.None? || userId.value >= |users| {
        return NotFound, Message(UserNotFound);
      }
      if userId.value !in note.sharedWith {
        ghost var before := Snapshot();
        Properties.ShareExactlyOnce(before, d.id, id, userId.value, now);
        var pushed := note.(sharedWith := note.sharedWith + [userId.value]);
        note := Stamp(note, pushed, now);
        notes := notes[id := note];
      }
      return Ok, SharedNote(NoteShared, id, note);
    }
  }
}
