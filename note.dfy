/** The note record of models/Note.js: an owner, a title, a content, the
    list of users it is shared with and the two timestamps mongoose keeps
    when a schema has `timestamps: true`. */
module NoteSchema {
  import opened Common

  /** A stored note. `owner` is the schema's `user` field. Timestamps are
      whole seconds. */
  datatype Note = Note(
    owner: UserId,
    title: string,
    content: string,
    sharedWith: seq<UserId>,
    createdAt: int,
    updatedAt: int)

  /** A required string field is satisfied only by a present, non-empty string
      (mongoose's `required` check for `String`). */
  predicate Required(v: Option<string>) {
    v.Some? && v.value != ""
  }

  /** The schema's validation: a note can be saved only with a non-empty
      title and a non-empty content. The owner is required too; the type
      makes it always present. */
  predicate Savable(n: Note) {
    Required(Some(n.title)) && Required(Some(n.content))
  }

  /** Saving a new document: validation runs first, then both timestamps
      are set to the time of the save and `sharedWith` starts empty. */
  function New(owner: UserId, title: Option<string>, content: Option<string>, now: int): (r: Option<Note>)
    ensures r.Some? <==> Required(title) && Required(content)
    ensures r.Some? ==> && Savable(r.value)
                        && r.value.owner == owner
                        && Some(r.value.title) == title && Some(r.value.content) == content
                        && r.value.sharedWith == []
                        && r.value.createdAt == now && r.value.updatedAt == now
  {
    if Required(title) && Required(content) then
      Some(Note(owner, title.value, content.value, [], now, now))
    else
      None
  }

  /** The value saved for an existing document `prior` after its fields were
      set to those of `edited`. `edited` differs from `prior` only in its
      data fields; the timestamps are treated as the schema does: createdAt
      never changes, updatedAt becomes `now` when some field was modified,
      and saving an unmodified document changes nothing. */
  function Stamp(prior: Note, edited: Note, now: int): (r: Note)
    requires edited.createdAt == prior.createdAt && edited.updatedAt == prior.updatedAt
    ensures r.(updatedAt := prior.updatedAt) == edited
    ensures r.createdAt == prior.createdAt
    ensures r.updatedAt == (if edited == prior then prior.updatedAt else now)
  {
    if edited == prior then prior else edited.(updatedAt := now)
  }

  /** Whether a text search for `q` finds a note. The schema's text index
      covers exactly the title and the content, so the match sees only those. */
  predicate TextIndexed(matches: (string, string, string) -> bool, q: string, n: Note) {
    matches(q, n.title, n.content)
  }
}
