/** The share route as app.js runs it against its own inline note schema
    (app.js:27-31), which declares no `sharedWith` path. A mongoose document
    of that schema has `sharedWith === undefined`, so `note.sharedWith.includes`
    throws a TypeError and the handler's promise rejects. The rest of the
    model uses the note record of models/Note.js instead, under which the
    route works as Routes.Share describes. */
module AsWritten {
  import opened Common
  import opened NoteSchema
  import opened Routes

  /** A note as the inline schema stores it: no list of shared users. */
  datatype InlineNote = InlineNote(owner: UserId, title: string, content: string, createdAt: int, updatedAt: int)

  /** POST /api/notes/:id/share over inline-schema notes, once the caller is
      authenticated: the ownership and user checks run, then the `includes`
      call on the missing path throws. */
  function ShareInline(notes: map<NoteId, InlineNote>, users: seq<User>, caller: UserId, id: NoteId,
                       target: Option<UserId>): (r: (Status, Body))
    ensures (id !in notes || notes[id].owner != caller) ==> r == (Forbidden, Message(NotAuthorized))
    ensures id in notes && notes[id].owner == caller && (target.None? || target.value >= |users|) ==>
              r == (NotFound, Message(UserNotFound))
    ensures id in notes && notes[id].owner == caller && target.Some? && target.value < |users| ==>
              r == (Rejected, NoBody)
  {
    if id !in notes || notes[id].owner != caller then
      (Forbidden, Message(NotAuthorized))
    else if target.None? || target.value >= |users| then
      (NotFound, Message(UserNotFound))
    else
      // an InlineNote has no `sharedWith`: `includes` is called on undefined and throws
      (Rejected, NoBody)
  }

  /** As written, no share request ever succeeds: the owner sharing a note with
      an existing user (user 0 sharing note 0 with user 0) gets a rejected
      promise, whereas with the models/Note.js record the same request
      succeeds and records the user. */
  lemma ShareNeverSucceedsInline(users: seq<User>, n: InlineNote, now: int)
    requires |users| > 0 && n.owner == 0
    ensures ShareInline(map[0 := n], users, 0, 0, Some(0)) == (Rejected, NoBody)
    ensures var full := Note(n.owner, n.title, n.content, [], n.createdAt, n.updatedAt);
            var r := Share(Db(users, map[0 := full], 1), 0, 0, Some(0), now);
            r.status == Ok && 0 in r.db.notes[0].sharedWith
  {
  }
}
