/** Properties of the route semantics that relate several requests or hold
    for every state of the collections. */
module Properties {
  import opened Common
  import opened Text
  import opened NoteSchema
  import opened Crypto
  import opened Auth
  import opened Routes

  // ---------------------------------------------------------------- accounts

  /** A successful signup keeps the collections valid, and afterwards the new
      username belongs to exactly one user, the one just appended. */
  lemma SignupUnique(b: Bcrypt, db: Db, username: string, password: string, salt: Salt)
    requires ValidDb(db)
    ensures var r := Signup(b, db, username, password, salt);
            && ValidDb(r.db)
            && (r.status == Created ==>
                  forall i :: 0 <= i < |r.db.users| ==> (r.db.users[i].username == username <==> i == |db.users|))
  {
  }

  /** Signing up twice with one username fails the second time and changes nothing. */
  lemma SignupTwice(b: Bcrypt, db: Db, username: string, pw1: string, pw2: string, s1: Salt, s2: Salt)
    requires Signup(b, db, username, pw1, s1).status == Created
    ensures var db1 := Signup(b, db, username, pw1, s1).db;
            Signup(b, db1, username, pw2, s2) == Reply(BadRequest, db1, Message(UserExists))
  {
    var db1 := Signup(b, db, username, pw1, s1).db;
    assert db1.users[|db.users|].username == username;
  }

  /** An unknown username and a known username with a wrong password give
      the same reply, so a client cannot tell the two apart. */
  lemma LoginFailuresIndistinguishable(e: Env, db: Db, unknown: string, known: string, wrong: string,
                                       guess: string, now: int)
    requires EnvSound(e) && ValidDb(db)
    requires forall i :: 0 <= i < |db.users| ==> db.users[i].username != unknown
    requires forall i :: 0 <= i < |db.users| && db.users[i].username == known ==>
               !Compare(e.bcrypt, wrong, db.users[i].password)
    ensures Login(e, db, unknown, guess, now) == Login(e, db, known, wrong, now)
    ensures Login(e, db, unknown, guess, now) == Reply(BadRequest, db, Message(InvalidCredentials))
  {
  }

  /** After a signup, logging in with the same password yields a token for the
      new user that expires one hour later, and logging in with a password
      whose bcrypt key differs (its first 72 UTF-8 bytes) fails with the
      generic answer. */
  lemma SignupThenLogin(e: Env, db: Db, username: string, password: string, salt: Salt,
                                           other: string, now: int)
    requires EnvSound(e) && ValidDb(db)
    requires Signup(e.bcrypt, db, username, password, salt).status == Created
    ensures var db1 := Signup(e.bcrypt, db, username, password, salt).db;
            && Login(e, db1, username, password, now) == Reply(Ok, db1, Token(Issue(e.jwt, |db.users|, now)))
            && (Key(other) != Key(password) ==>
                  Login(e, db1, username, other, now) == Reply(BadRequest, db1, Message(InvalidCredentials)))
  {
    var db1 := Signup(e.bcrypt, db, username, password, salt).db;
    SignupUnique(e.bcrypt, db, username, password, salt);
    assert db1.users[|db.users|].username == username;
    assert forall i :: 0 <= i < |db.users| ==> db1.users[i] == db.users[i];
    var found := FindUser(db1.users, username);
    assert found == Some(|db.users|);
    assert db1.users[|db.users|].password == Hash(e.bcrypt, password, salt);
  }

  /** For ASCII passwords of at most 72 characters the key is the password
      itself: after a signup every other such password is refused. */
  lemma SignupThenLoginAscii(e: Env, db: Db, username: string, password: string, salt: Salt,
                             other: string, now: int)
    requires EnvSound(e) && ValidDb(db)
    requires Signup(e.bcrypt, db, username, password, salt).status == Created
    requires Ascii(password) && Ascii(other) && |password| <= MaxKeyBytes && |other| <= MaxKeyBytes
    requires other != password
    ensures var db1 := Signup(e.bcrypt, db, username, password, salt).db;
            Login(e, db1, username, other, now) == Reply(BadRequest, db1, Message(InvalidCredentials))
  {
    ShortAsciiKeysDiffer(other, password);
    SignupThenLogin(e, db, username, password, salt, other, now);
  }

  /** bcrypt ignores what follows the first 72 bytes: after a signup with such
      a long password, any password with the same first 72 bytes logs in. */
  lemma LongPasswordsShareLogin(e: Env, db: Db, username: string, p: string, x: string, y: string,
                                salt: Salt, now: int)
    requires EnvSound(e) && ValidDb(db)
    requires |Utf8(p)| >= MaxKeyBytes
    requires Signup(e.bcrypt, db, username, p + x, salt).status == Created
    ensures var db1 := Signup(e.bcrypt, db, username, p + x, salt).db;
            Login(e, db1, username, p + y, now) == Reply(Ok, db1, Token(Issue(e.jwt, |db.users|, now)))
  {
    LongPasswordsCollide(e.bcrypt, p, x, y, salt);
    SignupThenLogin(e, db, username, p + x, salt, p + y, now);
    var db1 := Signup(e.bcrypt, db, username, p + x, salt).db;
    SignupUnique(e.bcrypt, db, username, p + x, salt);
    assert db1.users[|db.users|].username == username;
    assert forall i :: 0 <= i < |db.users| ==> db1.users[i] == db.users[i];
    assert FindUser(db1.users, username) == Some(|db.users|);
    assert db1.users[|db.users|].password == Hash(e.bcrypt, p + x, salt);
  }

  /** The token a successful login returns lets requests through as the
      logged-in user, with or without the "Bearer " prefix, until one hour
      after the login; from then on both are refused with 400 "Invalid token". */
  lemma LoginTokenAuthenticates(e: Env, db: Db, username: string, password: string,
                                                   issued: int, now: int)
    requires EnvSound(e)
    requires Login(e, db, username, password, issued).status == Ok
    ensures var t := Login(e, db, username, password, issued).body.token;
            var id := FindUser(db.users, username).value;
            && (now < issued + TokenLifetime ==>
                  Authenticate(e.jwt, Some(Bearer + t), now) == Proceed(id)
                  && Authenticate(e.jwt, Some(t), now) == Proceed(id))
            && (now >= issued + TokenLifetime ==>
                  Authenticate(e.jwt, Some(Bearer + t), now) == Refuse(BadRequest, InvalidToken)
                  && Authenticate(e.jwt, Some(t), now) == Refuse(BadRequest, InvalidToken))
  {
  }

  // ------------------------------------------------------------- ownership

  /** Update, delete and share by anyone but the owner are refused with 403
      and change nothing, whatever the note's `sharedWith` holds. */
  lemma NonOwnerForbidden(db: Db, caller: UserId, id: NoteId, title: Option<string>, content: Option<string>,
                          target: Option<UserId>, now: int)
    requires id in db.notes && db.notes[id].owner != caller
    ensures Update(db, caller, id, title, content, now) == Reply(Forbidden, db, Message(NotAuthorized))
    ensures Delete(db, caller, id) == Reply(Forbidden, db, Message(NotAuthorized))
    ensures Share(db, caller, id, target, now) == Reply(Forbidden, db, Message(NotAuthorized))
  {
  }

  /** Creating a note makes the caller its owner, and it then appears in the
      caller's list and only there. */
  lemma CreateThenList(db: Db, caller: UserId, other: UserId, title: string, content: string, now: int)
    requires ValidDb(db)
    requires title != "" && content != ""
    ensures var r := Create(db, caller, Some(title), Some(content), now);
            && r.status == Created && ValidDb(r.db)
            && r.db.notes[r.body.id].owner == caller
            && r.body.id in List(r.db, caller).body.notes
            && (other != caller ==> r.body.id !in List(r.db, other).body.notes)
  {
  }

  /** An update by the owner changes that note alone, and keeps the
      collections valid. */
  lemma UpdateChangesOnlyThatNote(db: Db, caller: UserId, id: NoteId,
                                  title: Option<string>, content: Option<string>, now: int)
    requires ValidDb(db)
    ensures var r := Update(db, caller, id, title, content, now);
            && ValidDb(r.db)
            && r.db.users == db.users && r.db.nextNoteId == db.nextNoteId
            && r.db.notes.Keys == db.notes.Keys
            && forall k :: k in db.notes && k != id ==> r.db.notes[k] == db.notes[k]
  {
  }

  /** A delete by the owner removes exactly that note and keeps the
      collections valid; deleting it again is refused with 403. */
  lemma DeleteTwice(db: Db, caller: UserId, id: NoteId)
    requires ValidDb(db) && Owns(db, caller, id)
    ensures var db1 := Delete(db, caller, id).db;
            && ValidDb(db1)
            && Delete(db1, caller, id) == Reply(Forbidden, db1, Message(NotAuthorized))
  {
  }

  // --------------------------------------------------------------- sharing

  /** After a successful share the target occurs in `sharedWith` exactly once,
      and the collections stay valid. */
  lemma ShareExactlyOnce(db: Db, caller: UserId, id: NoteId, target: UserId, now: int)
    requires ValidDb(db)
    ensures var r := Share(db, caller, id, Some(target), now);
            && ValidDb(r.db)
            && (r.status == Ok ==> Count(r.db.notes[id].sharedWith, target) == 1)
  {
    var r := Share(db, caller, id, Some(target), now);
    if r.status == Ok {
      var before := db.notes[id].sharedWith;
      if target !in before {
        AppendFreshNoDuplicates(before, target);
      }
      var after := r.db.notes[id].sharedWith;
      assert target in after;
      CountNoDuplicates(after, target);
    }
  }

  /** Sharing twice is sharing once: the second request finds the target
      already present and changes nothing. */
  lemma ShareIdempotent(db: Db, caller: UserId, id: NoteId, target: Option<UserId>, now1: int, now2: int)
    ensures var r1 := Share(db, caller, id, target, now1);
            var r2 := Share(r1.db, caller, id, target, now2);
            r2.db == r1.db && r2.status == r1.status && r2.body == r1.body
  {
  }

  /** A note shared with a user still never reaches that user through listing
      or searching. */
  lemma SharedNotesStayPrivate(e: Env, db: Db, id: NoteId, reader: UserId, q: string)
    requires id in db.notes && reader in db.notes[id].sharedWith && db.notes[id].owner != reader
    ensures id !in List(db, reader).body.notes
    ensures id !in Search(e.textMatch, db, reader, q).body.notes
  {
  }

  /** Every search result is also in the caller's list, and whether an owned
      note is found depends only on its title and content. */
  lemma SearchIsFilteredList(e: Env, db: Db, caller: UserId, q: string, id: NoteId, n: Note)
    requires id in db.notes && db.notes[id].owner == caller
    requires n.title == db.notes[id].title && n.content == db.notes[id].content && n.owner == caller
    ensures Search(e.textMatch, db, caller, q).body.notes.Keys <= List(db, caller).body.notes.Keys
    ensures var db2 := db.(notes := db.notes[id := n]);
            (id in Search(e.textMatch, db, caller, q).body.notes) == (id in Search(e.textMatch, db2, caller, q).body.notes)
  {
  }

  // -------------------------------------------------------------- scenario

  /** The sequence signup, login, create, list, update, delete that the API
      tests drive, from the empty collections, followed by creating a note
      and searching for it (given that the text index matches it). */
  lemma Scenario(e: Env, salt: Salt, t0: int)
    requires EnvSound(e)
    requires e.textMatch("Searchable", "Searchable Note", "This is a searchable note")
    ensures var s := Signup(e.bcrypt, Empty, "alice", "pw1", salt);
            var l := Login(e, s.db, "alice", "pw1", t0);
            var c := Create(s.db, 0, Some("t"), Some("c"), t0);
            var u := Update(c.db, 0, 0, Some("t2"), Some("c2"), t0 + 1);
            var d := Delete(u.db, 0, 0);
            var c2 := Create(d.db, 0, Some("Searchable Note"), Some("This is a searchable note"), t0 + 2);
            var q := Search(e.textMatch, c2.db, 0, "Searchable");
            && s.status == Created && l.status == Ok
            && Authenticate(e.jwt, Some(Bearer + l.body.token), t0 + 1) == Proceed(0)
            && c.status == Created && c.body.id == 0
            && 0 in List(c.db, 0).body.notes
            && u.status == Ok && u.body.note.title == "t2"
            && d.status == Ok && 0 !in List(d.db, 0).body.notes
            && c2.status == Created && q.status == Ok
            && c2.body.id in q.body.notes && |q.body.notes| > 0
  {
  }
}
