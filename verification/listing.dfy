/**
 * What the pages list (app/main/views.py): the user page's sorted records
 * and six size-and-mail buckets, the CSV download, the user list and the
 * labelling of the follower feed.
 */
module Listing {
  import opened Wrappers
  import opened Ordering
  import opened Text
  import opened Accounts
  import opened Store

  /** One row of the page query: the record with its artist, size and format names and its mail flag. */
  datatype Row = Row(title: Title, artist: string, size: int, format: string, mail: int)

  function SizeName(sizes: seq<Size>, id: nat): (r: Option<int>)
    ensures r.Some? <==> exists i :: 0 <= i < |sizes| && sizes[i].id == id
    ensures r.Some? ==> exists i :: 0 <= i < |sizes| && sizes[i].id == id && sizes[i].name == r.value
  {
    if |sizes| == 0 then None
    else if sizes[0].id == id then Some(sizes[0].name)
    else SizeName(sizes[1..], id)
  }

  function FormatName(formats: seq<Format>, id: nat): (r: Option<string>)
    ensures r.Some? <==> exists i :: 0 <= i < |formats| && formats[i].id == id
  {
    if |formats| == 0 then None
    else if formats[0].id == id then Some(formats[0].name)
    else FormatName(formats[1..], id)
  }

  /** The inner joins of the page query for one record; None when a joined row is missing. */
  function JoinRow(db: Db, t: Title): Option<Row> {
    match (ArtistName(db.artists, t.artistId), SizeName(db.sizes, t.sizeId), FormatName(db.formats, t.formatId))
    case (Some(a), Some(s), Some(f)) => Some(Row(t, a, s, f, t.mail))
    case _ => None
  }

  /**
   * The page query for `owner`: exactly that owner's records whose artist,
   * size and format rows exist, in table order. No other user's record
   * appears.
   */
  function OwnedRows(db: Db, titles: seq<Title>, owner: nat): (r: seq<Row>)
    ensures forall x :: x in r <==> x.title in titles && x.title.ownerId == owner && JoinRow(db, x.title) == Some(x)
    ensures |r| <= |titles|
  {
    if |titles| == 0 then []
    else
      var t := titles[0];
      var rest := OwnedRows(db, titles[1..], owner);
      assert forall u :: u in titles <==> u == t || u in titles[1..] by { assert titles == [t] + titles[1..]; }
      if t.ownerId == owner && JoinRow(db, t).Some? then [JoinRow(db, t).value] + rest else rest
  }

  // ---------------------------------------------------------------- the user page

  /** `(record[1].lower(), record[0].year)`: artist name ignoring case, then year. */
  function RecordKey(r: Row): Key {
    [Text(Lower(r.artist)), Num(r.title.year)]
  }

  function KeyRows(rows: seq<Row>): (r: seq<Keyed<Row>>)
    ensures |r| == |rows|
    ensures forall i :: 0 <= i < |rows| ==> r[i] == Keyed(RecordKey(rows[i]), rows[i])
    ensures Items(r) == rows
  {
    seq(|rows|, i requires 0 <= i < |rows| => Keyed(RecordKey(rows[i]), rows[i]))
  }

  /** The rows whose sort key is `k`, in their order. */
  function SameKey(rows: seq<Row>, k: Key): seq<Row> {
    if |rows| == 0 then []
    else if RecordKey(rows[0]) == k then [rows[0]] + SameKey(rows[1..], k)
    else SameKey(rows[1..], k)
  }

  /**
   * `sorted(user_records, key=...)`: a permutation of the rows, ordered by
   * lower-cased artist name and then year.
   */
  function SortRecords(rows: seq<Row>): (r: seq<Row>)
    ensures |r| == |rows|
    ensures multiset(r) == multiset(rows)
    ensures forall i, j :: 0 <= i < j < |r| ==> KeyLe(RecordKey(r[i]), RecordKey(r[j]))
  {
    var ks := SortByKey(KeyRows(rows));
    ItemsPermutation(ks, KeyRows(rows));
    KeysFollowItems(ks, KeyRows(rows), RecordKey);
    Items(ks)
  }

  lemma {:induction false} SameKeyOfItems(ks: seq<Keyed<Row>>, k: Key)
    requires forall i :: 0 <= i < |ks| ==> ks[i].key == RecordKey(ks[i].item)
    ensures SameKey(Items(ks), k) == Items(WithKey(ks, k))
    decreases |ks|
  {
    if |ks| > 0 {
      SameKeyOfItems(ks[1..], k);
      assert Items(ks)[1..] == Items(ks[1..]);
      assert Items([ks[0]] + WithKey(ks[1..], k)) == [ks[0].item] + Items(WithKey(ks[1..], k));
    }
  }

  /** The sort is stable: records with the same artist (ignoring case) and year keep their relative order. */
  lemma SortRecordsStable(rows: seq<Row>, k: Key)
    ensures SameKey(SortRecords(rows), k) == SameKey(rows, k)
  {
    var src := KeyRows(rows);
    var ks := SortByKey(src);
    KeysFollowItems(ks, src, RecordKey);
    SameKeyOfItems(ks, k);
    SameKeyOfItems(src, k);
  }

  /** The rows of one size and mail flag, in their order. */
  function Bucket(rows: seq<Row>, size: int, mail: int): (r: seq<Row>)
    ensures |r| <= |rows|
    ensures forall x :: x in r <==> x in rows && x.size == size && x.mail == mail
  {
    if |rows| == 0 then []
    else
      assert forall u :: u in rows <==> u == rows[0] || u in rows[1..] by { assert rows == [rows[0]] + rows[1..]; }
      (if rows[0].size == size && rows[0].mail == mail then [rows[0]] else []) + Bucket(rows[1..], size, mail)
  }

  /** The user page: the six buckets of 7, 10 and 12 inch records, not in the post or in the post, and the record count. */
  datatype Page = Page(
    sevenInches: seq<Row>, tenInches: seq<Row>, twelveInches: seq<Row>,
    sevenInchesMail: seq<Row>, tenInchesMail: seq<Row>, twelveInchesMail: seq<Row>,
    count: nat)

  function RecordsPage(rows: seq<Row>): (p: Page)
    ensures p.count == |rows|
    ensures var s := SortRecords(rows);
      && p.sevenInches == Bucket(s, 7, 0) && p.tenInches == Bucket(s, 10, 0) && p.twelveInches == Bucket(s, 12, 0)
      && p.sevenInchesMail == Bucket(s, 7, 1) && p.tenInchesMail == Bucket(s, 10, 1) && p.twelveInchesMail == Bucket(s, 12, 1)
  {
    var s := SortRecords(rows);
    Page(Bucket(s, 7, 0), Bucket(s, 10, 0), Bucket(s, 12, 0),
         Bucket(s, 7, 1), Bucket(s, 10, 1), Bucket(s, 12, 1), |s|)
  }

  ghost predicate SortedRows(rows: seq<Row>) {
    forall i, j :: 0 <= i < j < |rows| ==> KeyLe(RecordKey(rows[i]), RecordKey(rows[j]))
  }

  /** A bucket of a sorted list is sorted: each bucket keeps the page order. */
  lemma {:induction false} BucketKeepsOrder(rows: seq<Row>, size: int, mail: int)
    requires SortedRows(rows)
    ensures SortedRows(Bucket(rows, size, mail))
    decreases |rows|
  {
    if |rows| > 0 {
      BucketKeepsOrder(rows[1..], size, mail);
      var b := Bucket(rows, size, mail);
      var rest := Bucket(rows[1..], size, mail);
      forall j | 0 < j < |b| && b[0] == rows[0] && rows[0].size == size && rows[0].mail == mail
        ensures KeyLe(RecordKey(rows[0]), RecordKey(b[j]))
      {
        assert b[j] in rest;
        var k := IndexOf(rows[1..], b[j]);
        assert rows[k + 1] == b[j];
      }
    }
  }

  /** A record is in bucket (size, mail) of the page exactly when it is one of the rows with that size and flag. */
  lemma PageBuckets(rows: seq<Row>, x: Row)
    ensures var p := RecordsPage(rows);
      && (x in p.sevenInches <==> x in rows && x.size == 7 && x.mail == 0)
      && (x in p.tenInches <==> x in rows && x.size == 10 && x.mail == 0)
      && (x in p.twelveInches <==> x in rows && x.size == 12 && x.mail == 0)
      && (x in p.sevenInchesMail <==> x in rows && x.size == 7 && x.mail == 1)
      && (x in p.tenInchesMail <==> x in rows && x.size == 10 && x.mail == 1)
      && (x in p.twelveInchesMail <==> x in rows && x.size == 12 && x.mail == 1)
  {
    assert x in SortRecords(rows) <==> x in multiset(rows);
  }

  /** Every bucket of the page is in sort order. */
  lemma PageBucketsSorted(rows: seq<Row>)
    ensures var p := RecordsPage(rows);
      && SortedRows(p.sevenInches) && SortedRows(p.tenInches) && SortedRows(p.twelveInches)
      && SortedRows(p.sevenInchesMail) && SortedRows(p.tenInchesMail) && SortedRows(p.twelveInchesMail)
  {
    var s := SortRecords(rows);
    BucketKeepsOrder(s, 7, 0);
    BucketKeepsOrder(s, 10, 0);
    BucketKeepsOrder(s, 12, 0);
    BucketKeepsOrder(s, 7, 1);
    BucketKeepsOrder(s, 10, 1);
    BucketKeepsOrder(s, 12, 1);
  }

  predicate InSomeBucket(x: Row) {
    (x.size == 7 || x.size == 10 || x.size == 12) && (x.mail == 0 || x.mail == 1)
  }

  /** The six buckets split the list: every row falling in some bucket is counted exactly once. */
  lemma {:induction false} BucketsPartition(rows: seq<Row>)
    requires forall i :: 0 <= i < |rows| ==> InSomeBucket(rows[i])
    ensures |Bucket(rows, 7, 0)| + |Bucket(rows, 10, 0)| + |Bucket(rows, 12, 0)|
          + |Bucket(rows, 7, 1)| + |Bucket(rows, 10, 1)| + |Bucket(rows, 12, 1)| == |rows|
    decreases |rows|
  {
    if |rows| > 0 {
      BucketsPartition(rows[1..]);
    }
  }

  /** The page's six bucket sizes add up to its record count when every size is 7, 10 or 12 and every flag 0 or 1. */
  lemma PageCountsAddUp(rows: seq<Row>)
    requires forall i :: 0 <= i < |rows| ==> InSomeBucket(rows[i])
    ensures var p := RecordsPage(rows);
      |p.sevenInches| + |p.tenInches| + |p.twelveInches| + |p.sevenInchesMail| + |p.tenInchesMail| + |p.twelveInchesMail| == p.count
  {
    var s := SortRecords(rows);
    forall i | 0 <= i < |s|
      ensures InSomeBucket(s[i])
    {
      assert s[i] in multiset(rows);
      var j := IndexOf(rows, s[i]);
    }
    BucketsPartition(s);
  }

  /**
   * On a database whose mail flags are 0 or 1 and whose sizes are named 7,
   * 10 and 12, every record of the owner's page falls in one of the six
   * buckets, so their sizes add up to the page's count.
   */
  lemma OwnedPageCountsAddUp(db: Db, owner: nat)
    requires MailFlagsBinary(db.titles)
    requires forall i :: 0 <= i < |db.sizes| ==> db.sizes[i].name in {7, 10, 12}
    ensures var p := RecordsPage(OwnedRows(db, db.titles, owner));
      |p.sevenInches| + |p.tenInches| + |p.twelveInches| + |p.sevenInchesMail| + |p.tenInchesMail| + |p.twelveInchesMail| == p.count
  {
    var rows := OwnedRows(db, db.titles, owner);
    forall i | 0 <= i < |rows|
      ensures InSomeBucket(rows[i])
    {
      var x := rows[i];
      assert x in rows;
      var k :| 0 <= k < |db.titles| && db.titles[k] == x.title;
      assert JoinRow(db, x.title) == Some(x);
    }
    PageCountsAddUp(rows);
  }

  // ---------------------------------------------------------------- download

  /** A CSV line of the download, without the date column. */
  datatype CsvRow = CsvRow(artist: string, title: string, color: string, year: int, size: int)

  function ToCsv(r: Row): CsvRow {
    CsvRow(r.artist, r.title.name, r.title.color, r.title.year, r.size)
  }

  /** `(size, year, artist, title)`: the download's sort key. */
  function CsvKey(c: CsvRow): Key {
    [Num(c.size), Num(c.year), Text(c.artist), Text(c.title)]
  }

  function KeyCsv(rows: seq<Row>): (r: seq<Keyed<CsvRow>>)
    ensures |r| == |rows|
    ensures forall i :: 0 <= i < |rows| ==> r[i] == Keyed(CsvKey(ToCsv(rows[i])), ToCsv(rows[i]))
  {
    seq(|rows|, i requires 0 <= i < |rows| => Keyed(CsvKey(ToCsv(rows[i])), ToCsv(rows[i])))
  }

  /**
   * `download`: only the signed-in user may download their own list; it
   * holds one line per owned record, ordered by size, year, artist and
   * title. Anyone else, or an unknown username, gets None (a redirect).
   */
  function Download(db: Db, current: nat, username: string): (r: Option<seq<CsvRow>>)
    ensures r.Some? <==> UsernameTaken(db.users, username) && db.users[FindByUsername(db.users, username).value].id == current
    ensures r.Some? ==> var own := KeyCsv(OwnedRows(db, db.titles, current));
      && multiset(r.value) == multiset(Items(own))
      && forall i, j :: 0 <= i < j < |r.value| ==> KeyLe(CsvKey(r.value[i]), CsvKey(r.value[j]))
  {
    match FindByUsername(db.users, username)
    case None => None
    case Some(p) =>
      if db.users[p].id != current then None
      else
        var own := KeyCsv(OwnedRows(db, db.titles, current));
        var ks := SortByKey(own);
        ItemsPermutation(ks, own);
        KeysFollowItems(ks, own, CsvKey);
        Some(Items(ks))
  }

  /** A character Python 2's default ASCII codec can encode. */
  predicate IsAscii(c: char) {
    c as int < 0x80
  }

  predicate AsciiText(s: string) {
    forall i :: 0 <= i < |s| ==> IsAscii(s[i])
  }

  /**
   * A line Python 2's `csv.writer` writes without raising: it encodes each
   * unicode field with the ASCII codec, so every text field must be ASCII.
   */
  predicate CsvWritable(c: CsvRow) {
    AsciiText(c.artist) && AsciiText(c.title) && AsciiText(c.color)
  }

  datatype DownloadOutcome = Redirected | CsvFile(lines: seq<CsvRow>) | EncodeError

  /**
   * `download` as written: the lines are written with Python 2's
   * `csv.writer`, which raises `UnicodeEncodeError` on the first line whose
   * artist, title or colour holds a non-ASCII character, so the owner gets
   * a server error instead of the file.
   */
  function DownloadAsWritten(db: Db, current: nat, username: string): (r: DownloadOutcome)
    ensures r.Redirected? <==> !(UsernameTaken(db.users, username) && db.users[FindByUsername(db.users, username).value].id == current)
    ensures r.EncodeError? <==>
      var d := Download(db, current, username);
      d.Some? && exists i :: 0 <= i < |d.value| && !CsvWritable(d.value[i])
    ensures r.CsvFile? ==> Download(db, current, username) == Some(r.lines)
  {
    match Download(db, current, username)
    case None => Redirected
    case Some(lines) => if forall i :: 0 <= i < |lines| ==> CsvWritable(lines[i]) then CsvFile(lines) else EncodeError
  }

  /** A user owning one record by Björk cannot download their list as written. */
  lemma DownloadAsWrittenFailsOnNonAscii()
    ensures var t := Title(1, "Homogenic", 1, 1997, 1, 1, "black", "", 1, 0);
      var ann := User(1, "ann@example.com", "ann", NoPassword, true, None, "", "", "");
      var db := Db([], [ann], [Artist(1, "Bj\U{00F6}rk")], [Size(1, 12)], [Format(1, "Vinyl")], [t], map[], {}, 2);
      DownloadAsWritten(db, 1, "ann") == EncodeError
  {
    var t := Title(1, "Homogenic", 1, 1997, 1, 1, "black", "", 1, 0);
    var ann := User(1, "ann@example.com", "ann", NoPassword, true, None, "", "", "");
    var db := Db([], [ann], [Artist(1, "Bj\U{00F6}rk")], [Size(1, 12)], [Format(1, "Vinyl")], [t], map[], {}, 2);
    var line := CsvRow("Bj\U{00F6}rk", "Homogenic", "black", 1997, 12);
    assert FindByUsername(db.users, "ann") == Some(0);
    assert OwnedRows(db, db.titles, 1) == [Row(t, "Bj\U{00F6}rk", 12, "Vinyl", 0)];
    assert Items(KeyCsv(OwnedRows(db, db.titles, 1))) == [line];
    var lines := Download(db, 1, "ann").value;
    assert multiset(lines) == multiset{line};
    assert line in lines;
    assert !IsAscii(line.artist[2]);
  }

  /** Wherever the written download does not raise, it gives what the intended `Download` gives. */
  lemma DownloadAgreesWhereWrittenWorks(db: Db, current: nat, username: string)
    requires !DownloadAsWritten(db, current, username).EncodeError?
    ensures Download(db, current, username).None? ==> DownloadAsWritten(db, current, username) == Redirected
    ensures Download(db, current, username).Some? ==> DownloadAsWritten(db, current, username) == CsvFile(Download(db, current, username).value)
  {
  }

  // ---------------------------------------------------------------- all users

  function UserKey(u: User): Key {
    [Text(u.username)]
  }

  function KeyUsers(users: seq<User>): (r: seq<Keyed<User>>)
    ensures |r| == |users|
    ensures forall i :: 0 <= i < |users| ==> r[i] == Keyed(UserKey(users[i]), users[i])
    ensures Items(r) == users
  {
    seq(|users|, i requires 0 <= i < |users| => Keyed(UserKey(users[i]), users[i]))
  }

  /** `all_users`: every user once, ordered by username. */
  function AllUsers(users: seq<User>): (r: seq<User>)
    ensures multiset(r) == multiset(users)
    ensures forall i, j :: 0 <= i < j < |r| ==> StrLe(r[i].username, r[j].username)
  {
    var ks := SortByKey(KeyUsers(users));
    ItemsPermutation(ks, KeyUsers(users));
    KeysFollowItems(ks, KeyUsers(users), UserKey);
    var r := Items(ks);
    forall i, j | 0 <= i < j < |r| ensures StrLe(r[i].username, r[j].username) {
      assert KeyLe([Text(r[i].username)], [Text(r[j].username)]);
      if r[i].username != r[j].username {
        assert ComponentLt(Text(r[i].username), Text(r[j].username));
      } else {
        StrLeTotal(r[i].username, r[j].username);
      }
    }
    r
  }

  // ---------------------------------------------------------------- follower feed

  /** A row of the feed query: the record, its owner's email, the artist name and the owner's username. */
  datatype FeedRow = FeedRow(title: Title, ownerEmail: string, artist: string, ownerUsername: string)

  /** One JSON entry of `user_fr` (the avatar and timestamp are left out). */
  datatype FeedEntry = FeedEntry(artist: string, title: string, user: string, id: nat)

  /** The entry for one row: the owner is shown as "you" when they are the user whose feed this is. */
  function Entry(row: FeedRow, username: string): (e: FeedEntry)
    ensures e.user == (if row.ownerUsername == username then "you" else row.ownerUsername)
    ensures e.id == row.title.id && e.title == row.title.name && e.artist == row.artist
  {
    FeedEntry(row.artist, row.title.name, if row.ownerUsername == username then "you" else row.ownerUsername, row.title.id)
  }

  /**
   * The label compares usernames, not users: "you" marks the feed's own
   * user, but also any other owner whose username is literally `you`.
   * Every other owner is shown by username.
   */
  lemma EntryLabel(row: FeedRow, username: string)
    ensures Entry(row, username).user == "you" <==> row.ownerUsername == username || row.ownerUsername == "you"
    ensures row.ownerUsername != username ==> Entry(row, username).user == row.ownerUsername
  {
  }

  function FeedKey(row: FeedRow): Key {
    [Num(-(row.title.id as int))]
  }

  function KeyFeed(rows: seq<FeedRow>): (r: seq<Keyed<FeedRow>>)
    ensures |r| == |rows|
    ensures forall i :: 0 <= i < |rows| ==> r[i] == Keyed(FeedKey(rows[i]), rows[i])
    ensures Items(r) == rows
  {
    seq(|rows|, i requires 0 <= i < |rows| => Keyed(FeedKey(rows[i]), rows[i]))
  }

  /** `sorted(..., key=lambda x: x[0].id, reverse=True)` on the feed rows: largest record id first. */
  function SortFeed(rows: seq<FeedRow>): (r: seq<FeedRow>)
    ensures multiset(r) == multiset(rows)
    ensures forall i, j :: 0 <= i < j < |r| ==> r[i].title.id >= r[j].title.id
  {
    var ks := SortByKey(KeyFeed(rows));
    ItemsPermutation(ks, KeyFeed(rows));
    KeysFollowItems(ks, KeyFeed(rows), FeedKey);
    var r := Items(ks);
    forall i, j | 0 <= i < j < |r| ensures r[i].title.id >= r[j].title.id {
      NumKeyLe(-(r[i].title.id as int), -(r[j].title.id as int));
    }
    r
  }

  lemma NumKeyLe(a: int, b: int)
    requires KeyLe([Num(a)], [Num(b)])
    ensures a <= b
  {
    assert [Num(a)][1..] == [];
  }

  /**
   * The post-processing of `user_fr` on the fetched rows: ordered by record
   * id, largest first, each turned into its entry. Every fetched row gives
   * exactly one entry, and no entry comes from anywhere else.
   */
  function Feed(rows: seq<FeedRow>, username: string): (r: seq<FeedEntry>)
    ensures |r| == |rows|
    ensures forall i, j :: 0 <= i < j < |r| ==> r[i].id >= r[j].id
    ensures multiset(r) == multiset(Map(rows, (row: FeedRow) => Entry(row, username)))
  {
    var sorted := SortFeed(rows);
    assert |sorted| == |multiset(sorted)| == |rows|;
    var f := (row: FeedRow) => Entry(row, username);
    MapPermutation(sorted, rows, f);
    Map(sorted, f)
  }
}
