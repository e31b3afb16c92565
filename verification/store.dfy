/**
 * The database the views work on, as immutable tables. Users and artists
 * are never deleted, so their id is their position plus one; titles are
 * deleted, so they keep their own ids and the next id to hand out.
 * The image table maps a title id to its image URL (the views read it
 * as exactly such a map).
 */
module Store {
  import opened Wrappers
  import opened Permissions
  import opened Accounts

  datatype Artist = Artist(id: nat, name: string)
  datatype Size = Size(id: nat, name: int)
  datatype Format = Format(id: nat, name: string)

  /** A record row (`Title`). `mail` is 1 for a record still in the post, 0 otherwise. */
  datatype Title = Title(
    id: nat,
    name: string,
    artistId: nat,
    year: int,
    formatId: nat,
    sizeId: nat,
    color: string,
    notes: string,
    ownerId: nat,
    mail: int)

  datatype Db = Db(
    roles: seq<Role>,
    users: seq<User>,
    artists: seq<Artist>,
    sizes: seq<Size>,
    formats: seq<Format>,
    titles: seq<Title>,
    images: map<nat, string>,
    follows: set<(nat, nat)>,
    nextTitleId: nat)

  ghost predicate UsersValid(users: seq<User>) {
    && (forall i :: 0 <= i < |users| ==> users[i].id == i + 1)
    && (forall i, j :: 0 <= i < j < |users| ==> users[i].email != users[j].email)
    && (forall i, j :: 0 <= i < j < |users| ==> users[i].username != users[j].username)
  }

  ghost predicate ArtistsValid(artists: seq<Artist>) {
    && (forall i :: 0 <= i < |artists| ==> artists[i].id == i + 1)
    && (forall i, j :: 0 <= i < j < |artists| ==> artists[i].name != artists[j].name)
  }

  ghost predicate TitlesValid(titles: seq<Title>, nextTitleId: nat, artistCount: nat) {
    && (forall i, j :: 0 <= i < j < |titles| ==> titles[i].id < titles[j].id)
    && (forall i :: 0 <= i < |titles| ==> titles[i].id < nextTitleId)
    && (forall i :: 0 <= i < |titles| ==> 1 <= titles[i].artistId <= artistCount)
  }

  /** The integrity the schema (unique columns, foreign keys, auto-increment ids) guarantees. */
  ghost predicate Valid(db: Db) {
    && UsersValid(db.users)
    && ArtistsValid(db.artists)
    && TitlesValid(db.titles, db.nextTitleId, |db.artists|)
  }

  /** Every stored record's mail flag is one `1 if incoming else 0` can produce. */
  ghost predicate MailFlagsBinary(titles: seq<Title>) {
    forall i :: 0 <= i < |titles| ==> titles[i].mail == 0 || titles[i].mail == 1
  }

  /** `Artist.query.filter_by(name=...).first()`, as a position. */
  function FindArtist(artists: seq<Artist>, name: string): (r: Option<nat>)
    ensures r.Some? ==> r.value < |artists| && artists[r.value].name == name
    ensures r.Some? ==> forall j :: 0 <= j < r.value ==> artists[j].name != name
    ensures r.None? <==> forall j :: 0 <= j < |artists| ==> artists[j].name != name
  {
    if |artists| == 0 then None
    else if artists[0].name == name then Some(0)
    else match FindArtist(artists[1..], name)
      case None => None
      case Some(i) => Some(i + 1)
  }

  /** `Artist.query.filter_by(id=...).first().name`; None when no artist has that id. */
  function ArtistName(artists: seq<Artist>, id: nat): (r: Option<string>)
    ensures r.Some? <==> exists i :: 0 <= i < |artists| && artists[i].id == id
  {
    if |artists| == 0 then None
    else if artists[0].id == id then Some(artists[0].name)
    else ArtistName(artists[1..], id)
  }

  /** `Title.query.filter_by(id=...).first()`, as a position. */
  function FindTitle(titles: seq<Title>, id: nat): (r: Option<nat>)
    ensures r.Some? ==> r.value < |titles| && titles[r.value].id == id
    ensures r.Some? ==> forall j :: 0 <= j < r.value ==> titles[j].id != id
    ensures r.None? <==> forall j :: 0 <= j < |titles| ==> titles[j].id != id
  {
    if |titles| == 0 then None
    else if titles[0].id == id then Some(0)
    else match FindTitle(titles[1..], id)
      case None => None
      case Some(i) => Some(i + 1)
  }

  /** The table with position `p` removed. */
  function RemoveAt<T>(s: seq<T>, p: nat): (r: seq<T>)
    requires p < |s|
    ensures |r| == |s| - 1
    ensures forall i :: 0 <= i < p ==> r[i] == s[i]
    ensures forall i :: p <= i < |r| ==> r[i] == s[i + 1]
  {
    s[..p] + s[p + 1..]
  }
}
