/**
 * Adding, editing and deleting records on a user's page
 * (app/main/views.py: `user`, `delete_record`).
 *
 * `decode_id` is not part of this model: the operations take the decoded
 * record id. Form validation happens before these operations and is
 * modelled in `Forms`.
 */
module Records {
  import opened Wrappers
  import opened Store
  import opened Accounts

  /** The submitted fields of the add and edit forms. */
  datatype RecordInput = RecordInput(
    artist: string,
    title: string,
    color: string,
    sizeId: nat,
    year: int,
    notes: string,
    incoming: bool,
    imageUrl: string)

  /** Every record is added with format 1. */
  const VinylFormat: nat := 1

  /** `1 if incoming else 0`. */
  function MailFlag(incoming: bool): (m: int)
    ensures m == 0 || m == 1
    ensures m == 1 <==> incoming
  {
    if incoming then 1 else 0
  }

  // ---------------------------------------------------------------- artists

  datatype ArtistRef = ArtistRef(artists: seq<Artist>, id: nat)

  /**
   * Look the artist up by name, creating it when missing: afterwards exactly
   * one artist has the name and `id` is that artist's id; an existing
   * artist is reused and nothing is added.
   */
  function ArtistGetOrCreate(artists: seq<Artist>, name: string): (r: ArtistRef)
    requires ArtistsValid(artists)
    ensures ArtistsValid(r.artists)
    ensures 1 <= r.id <= |r.artists| && r.artists[r.id - 1].name == name
    ensures forall i :: 0 <= i < |r.artists| ==> (r.artists[i].name == name <==> i == r.id - 1)
    ensures FindArtist(artists, name).Some? ==> r.artists == artists
    ensures FindArtist(artists, name).None? ==> r.artists == artists + [Artist(|artists| + 1, name)]
  {
    match FindArtist(artists, name)
    case Some(p) => ArtistRef(artists, p + 1)
    case None => ArtistRef(artists + [Artist(|artists| + 1, name)], |artists| + 1)
  }

  // ---------------------------------------------------------------- add

  /** The columns the duplicate check compares; the mail flag is not among them. */
  predicate SameRecord(t: Title, input: RecordInput, artistId: nat, owner: nat) {
    && t.name == input.title && t.artistId == artistId && t.year == input.year
    && t.formatId == VinylFormat && t.sizeId == input.sizeId && t.color == input.color
    && t.notes == input.notes && t.ownerId == owner
  }

  predicate OwnsAlready(titles: seq<Title>, input: RecordInput, artistId: nat, owner: nat) {
    exists i :: 0 <= i < |titles| && SameRecord(titles[i], input, artistId, owner)
  }

  datatype AddOutcome = Added(id: nat) | AlreadyOwned

  datatype AddResult = AddResult(outcome: AddOutcome, db: Db)

  /**
   * The add branch of the user page for the signed-in `owner`. The artist
   * is looked up or created first; then, unless the owner already has a
   * record with the same name, artist, year, format, size, colour and notes,
   * a record is created with the owner, format 1 and the mail flag, and an
   * image row when an image URL was given.
   */
  function AddRecord(db: Db, owner: nat, input: RecordInput): (r: AddResult)
    requires ArtistsValid(db.artists)
    ensures var a := ArtistGetOrCreate(db.artists, input.artist);
      && r.db.artists == a.artists
      && (r.outcome.AlreadyOwned? <==> OwnsAlready(db.titles, input, a.id, owner))
      && (r.outcome.AlreadyOwned? ==> r.db == db.(artists := a.artists))
      && (r.outcome.Added? ==>
        var t := Title(db.nextTitleId, input.title, a.id, input.year, VinylFormat, input.sizeId,
                       input.color, input.notes, owner, MailFlag(input.incoming));
        && r.outcome.id == db.nextTitleId
        && r.db.titles == db.titles + [t]
        && r.db.nextTitleId == db.nextTitleId + 1
        && r.db.images == (if input.imageUrl != "" then db.images[t.id := input.imageUrl] else db.images)
        && r.db.(artists := db.artists, titles := db.titles, nextTitleId := db.nextTitleId, images := db.images) == db)
  {
    var a := ArtistGetOrCreate(db.artists, input.artist);
    if OwnsAlready(db.titles, input, a.id, owner) then
      AddResult(AlreadyOwned, db.(artists := a.artists))
    else
      var id := db.nextTitleId;
      var t := Title(id, input.title, a.id, input.year, VinylFormat, input.sizeId,
                     input.color, input.notes, owner, MailFlag(input.incoming));
      var images := if input.imageUrl != "" then db.images[id := input.imageUrl] else db.images;
      AddResult(Added(id), db.(artists := a.artists, titles := db.titles + [t], nextTitleId := id + 1, images := images))
  }

  /** Adding keeps the schema's integrity. */
  lemma AddRecordKeepsValid(db: Db, owner: nat, input: RecordInput)
    requires Valid(db)
    ensures Valid(AddRecord(db, owner, input).db)
  {
  }

  /** On a valid database a duplicate add changes nothing at all: the artist already existed. */
  lemma DuplicateAddChangesNothing(db: Db, owner: nat, input: RecordInput)
    requires Valid(db)
    requires AddRecord(db, owner, input).outcome.AlreadyOwned?
    ensures AddRecord(db, owner, input).db == db
  {
    var a := ArtistGetOrCreate(db.artists, input.artist);
    var i :| 0 <= i < |db.titles| && SameRecord(db.titles[i], input, a.id, owner);
    assert db.titles[i].artistId <= |db.artists|;
  }

  /** Adding the same record twice stores it once; the second add reports it as already owned, whatever its mail flag. */
  lemma AddTwiceOwnsOnce(db: Db, owner: nat, input: RecordInput, incoming: bool)
    requires Valid(db)
    requires AddRecord(db, owner, input).outcome.Added?
    ensures var db1 := AddRecord(db, owner, input).db;
      AddRecord(db1, owner, input.(incoming := incoming)) == AddResult(AlreadyOwned, db1)
  {
    var db1 := AddRecord(db, owner, input).db;
    AddRecordKeepsValid(db, owner, input);
    var a := ArtistGetOrCreate(db.artists, input.artist);
    var a1 := ArtistGetOrCreate(db1.artists, input.artist);
    assert a1.id == a.id;
    assert SameRecord(db1.titles[|db1.titles| - 1], input.(incoming := incoming), a.id, owner);
    DuplicateAddChangesNothing(db1, owner, input.(incoming := incoming));
  }

  /**
   * The duplicate check is per owner: when `owner` already has the record
   * and `other` does not, the same input is refused for `owner` and added
   * for `other`.
   */
  lemma DuplicateIsPerOwner(db: Db, owner: nat, other: nat, input: RecordInput)
    requires Valid(db)
    requires var a := ArtistGetOrCreate(db.artists, input.artist);
      OwnsAlready(db.titles, input, a.id, owner) && !OwnsAlready(db.titles, input, a.id, other)
    ensures AddRecord(db, owner, input).outcome.AlreadyOwned?
    ensures AddRecord(db, other, input).outcome.Added?
  {
  }

  // ---------------------------------------------------------------- edit

  datatype EditOutcome = EditNotFound | Updated

  datatype EditResult = EditResult(outcome: EditOutcome, db: Db)

  /**
   * The edit branch of the user page. A missing record id aborts with
   * not-found and changes nothing. Otherwise the artist is looked up or
   * created, and exactly the artist, name, colour, size, year, notes and
   * mail flag are overwritten; id, owner and format are kept. The record's
   * owner is not compared with the signed-in user. A non-empty image URL
   * creates or replaces the record's image; an empty one leaves it alone.
   */
  function EditRecord(db: Db, recordId: nat, input: RecordInput): (r: EditResult)
    requires ArtistsValid(db.artists)
    ensures r.outcome.EditNotFound? <==> forall j :: 0 <= j < |db.titles| ==> db.titles[j].id != recordId
    ensures r.outcome.EditNotFound? ==> r.db == db
    ensures r.outcome.Updated? ==>
      var p := FindTitle(db.titles, recordId).value;
      var was := db.titles[p];
      var a := ArtistGetOrCreate(db.artists, input.artist);
      && r.db.artists == a.artists
      && r.db.titles == db.titles[p := Title(was.id, input.title, a.id, input.year, was.formatId, input.sizeId,
                                             input.color, input.notes, was.ownerId, MailFlag(input.incoming))]
      && r.db.images == (if input.imageUrl != "" then db.images[recordId := input.imageUrl] else db.images)
      && r.db.(artists := db.artists, titles := db.titles, images := db.images) == db
  {
    match FindTitle(db.titles, recordId)
    case None => EditResult(EditNotFound, db)
    case Some(p) =>
      var a := ArtistGetOrCreate(db.artists, input.artist);
      var t := db.titles[p].(artistId := a.id, name := input.title, color := input.color, sizeId := input.sizeId,
                             year := input.year, notes := input.notes, mail := MailFlag(input.incoming));
      var images := if input.imageUrl != "" then db.images[recordId := input.imageUrl] else db.images;
      EditResult(Updated, db.(artists := a.artists, titles := db.titles[p := t], images := images))
  }

  /** Editing keeps the schema's integrity. */
  lemma EditRecordKeepsValid(db: Db, recordId: nat, input: RecordInput)
    requires Valid(db)
    ensures Valid(EditRecord(db, recordId, input).db)
  {
  }

  /** As written, any signed-in user on their own page can overwrite another user's record; the owner stays the same. */
  lemma EditIgnoresOwnership(db: Db, recordId: nat, input: RecordInput, p: nat)
    requires ArtistsValid(db.artists)
    requires p < |db.titles| && db.titles[p].id == recordId
    ensures var r := EditRecord(db, recordId, input);
      r.outcome.Updated? && r.db.titles[FindTitle(db.titles, recordId).value].name == input.title
      && r.db.titles[FindTitle(db.titles, recordId).value].ownerId == db.titles[FindTitle(db.titles, recordId).value].ownerId
  {
  }

  // ---------------------------------------------------------------- delete

  /** `ArtistMissing` is the exception `.first().name` raises when the record's artist row is gone. */
  datatype DeleteOutcome = DeleteNotFound | Deleted | NotOwner | ArtistMissing

  datatype DeleteResult = DeleteResult(outcome: DeleteOutcome, db: Db)

  /**
   * `delete_record`: an unknown id is not-found; anyone but the owner is
   * told they do not own it. For the owner, the artist's name is read for
   * the flash message first, which raises when the artist row is missing;
   * otherwise the record and its image are removed. Only the owner's
   * successful delete changes the database.
   */
  function DeleteRecord(db: Db, current: nat, recordId: nat): (r: DeleteResult)
    ensures r.outcome.DeleteNotFound? <==> forall j :: 0 <= j < |db.titles| ==> db.titles[j].id != recordId
    ensures r.outcome.NotOwner? <==> var p := FindTitle(db.titles, recordId); p.Some? && db.titles[p.value].ownerId != current
    ensures r.outcome.ArtistMissing? <==>
      var p := FindTitle(db.titles, recordId);
      p.Some? && db.titles[p.value].ownerId == current && ArtistName(db.artists, db.titles[p.value].artistId).None?
    ensures !r.outcome.Deleted? ==> r.db == db
    ensures r.outcome.Deleted? ==>
      var p := FindTitle(db.titles, recordId).value;
      && db.titles[p].ownerId == current
      && r.db == db.(titles := RemoveAt(db.titles, p), images := db.images - {recordId})
  {
    match FindTitle(db.titles, recordId)
    case None => DeleteResult(DeleteNotFound, db)
    case Some(p) =>
      if db.titles[p].ownerId != current then DeleteResult(NotOwner, db)
      else if ArtistName(db.artists, db.titles[p].artistId).None? then DeleteResult(ArtistMissing, db)
      else DeleteResult(Deleted, db.(titles := RemoveAt(db.titles, p), images := db.images - {recordId}))
  }

  /**
   * Deleting keeps the schema's integrity; on a valid database the
   * missing-artist error cannot happen, so the owner's delete always
   * succeeds, and the deleted record is gone for good.
   */
  lemma DeleteRecordKeepsValid(db: Db, current: nat, recordId: nat)
    requires Valid(db)
    ensures var r := DeleteRecord(db, current, recordId);
      && Valid(r.db)
      && !r.outcome.ArtistMissing?
      && (r.outcome.Deleted? ==> (forall j :: 0 <= j < |r.db.titles| ==> r.db.titles[j].id != recordId) && recordId !in r.db.images)
  {
    var r := DeleteRecord(db, current, recordId);
    var q := FindTitle(db.titles, recordId);
    if q.Some? {
      var a := db.titles[q.value].artistId;
      assert db.artists[a - 1].id == a;
    }
    if r.outcome.Deleted? {
      var p := FindTitle(db.titles, recordId).value;
      forall j | 0 <= j < |r.db.titles|
        ensures r.db.titles[j].id != recordId
      {
        if j >= p {
          assert r.db.titles[j] == db.titles[j + 1];
        }
      }
    }
  }

  /** A non-owner's delete leaves the record in place with its owner. */
  lemma NonOwnerCannotDelete(db: Db, current: nat, p: nat)
    requires p < |db.titles| && db.titles[p].ownerId != current
    requires forall j :: 0 <= j < |db.titles| && j != p ==> db.titles[j].id != db.titles[p].id
    ensures DeleteRecord(db, current, db.titles[p].id) == DeleteResult(NotOwner, db)
  {
  }

  /**
   * Add, edit and delete store only flags `MailFlag` produces, so the mail
   * flags stay 0 or 1 — the condition under which the page's six buckets
   * account for every record.
   */
  lemma MailFlagsStayBinary(db: Db, owner: nat, current: nat, recordId: nat, input: RecordInput)
    requires ArtistsValid(db.artists) && MailFlagsBinary(db.titles)
    ensures MailFlagsBinary(AddRecord(db, owner, input).db.titles)
    ensures MailFlagsBinary(EditRecord(db, recordId, input).db.titles)
    ensures MailFlagsBinary(DeleteRecord(db, current, recordId).db.titles)
  {
  }

  // ---------------------------------------------------------------- the page

  datatype Submission = AddSubmission(input: RecordInput) | EditSubmission(recordId: nat, input: RecordInput)

  datatype PostOutcome = UnknownUser | NotYourPage | AddDone(add: AddOutcome) | EditDone(edit: EditOutcome)

  datatype PostResult = PostResult(outcome: PostOutcome, db: Db)

  /**
   * A validated form posted to the page of `username` by `viewer` (None
   * when anonymous). An unknown username is not-found; the add and edit
   * forms exist only on the signed-in user's own page, so anywhere else
   * nothing changes.
   */
  function UserPagePost(db: Db, viewer: Option<nat>, username: string, sub: Submission): (r: PostResult)
    requires ArtistsValid(db.artists)
    ensures r.outcome.UnknownUser? <==> !UsernameTaken(db.users, username)
    ensures r.outcome.NotYourPage? <==> UsernameTaken(db.users, username) && viewer != Some(db.users[FindByUsername(db.users, username).value].id)
    ensures r.outcome.UnknownUser? || r.outcome.NotYourPage? ==> r.db == db
    ensures r.outcome.AddDone? ==> sub.AddSubmission? && r == PostResult(AddDone(AddRecord(db, viewer.value, sub.input).outcome), AddRecord(db, viewer.value, sub.input).db)
    ensures r.outcome.EditDone? ==> sub.EditSubmission? && r == PostResult(EditDone(EditRecord(db, sub.recordId, sub.input).outcome), EditRecord(db, sub.recordId, sub.input).db)
  {
    match FindByUsername(db.users, username)
    case None => PostResult(UnknownUser, db)
    case Some(p) =>
      if viewer != Some(db.users[p].id) then PostResult(NotYourPage, db)
      else match sub
        case AddSubmission(input) =>
          var a := AddRecord(db, viewer.value, input);
          PostResult(AddDone(a.outcome), a.db)
        case EditSubmission(id, input) =>
          var e := EditRecord(db, id, input);
          PostResult(EditDone(e.outcome), e.db)
  }
}
