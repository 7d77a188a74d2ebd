/**
 * The check-in repository (`src/db/repositories/checkin.py`): record creation,
 * the filtered, sorted and paginated listing, lookup by id and the defaults
 * applied when a row is read back.
 */
module CheckIns {
  import opened Wrappers
  import opened Strings
  import opened Lists
  import opened Sorting
  import opened Store
  import Likes

  /** The record as the application sees it, with display defaults filled in. */
  datatype CheckIn = CheckIn(
    id: int,
    content: string,
    mediaFiles: MediaField,
    createdAt: string,
    ipAddress: Option<string>,
    nickname: string,
    email: Option<string>,
    qq: Option<string>,
    url: Option<string>,
    avatar: string,
    love: int)

  /** Python's `value or default` on a text column. */
  function OrDefault(value: Option<string>, default: string): string {
    if value.Some? && value.value != [] then value.value else default
  }

  /**
   * `_row_to_checkin`: an empty or NULL nickname reads as the default
   * nickname, an empty or NULL avatar as the default avatar, a NULL love as 0;
   * every other column is carried over.
   */
  function ToCheckIn(row: Row): (c: CheckIn)
    ensures c.id == row.id && c.content == row.content && c.mediaFiles == row.mediaFiles
    ensures c.email == row.email && c.qq == row.qq && c.url == row.url && c.ipAddress == row.ipAddress
    ensures c.nickname != [] && c.avatar != []
    ensures row.nickname.Some? && row.nickname.value != [] ==> c.nickname == row.nickname.value
    ensures row.nickname.None? || row.nickname.value == [] ==> c.nickname == DefaultNickname
    ensures row.avatar.Some? && row.avatar.value != [] ==> c.avatar == row.avatar.value
    ensures row.avatar.None? || row.avatar.value == [] ==> c.avatar == DefaultAvatar
    ensures c.love == row.love.GetOr(0)
  {
    CheckIn(row.id, row.content, row.mediaFiles, row.createdAt, row.ipAddress,
            OrDefault(row.nickname, DefaultNickname), row.email, row.qq, row.url,
            OrDefault(row.avatar, DefaultAvatar), row.love.GetOr(0))
  }

  /** The row `create` inserts: the given fields, love 0 and approved 1 by column default. */
  function NewRow(id: int, content: string, mediaFiles: seq<string>, createdAt: string,
                  ipAddress: Option<string>, nickname: string, email: Option<string>,
                  qq: Option<string>, url: Option<string>, avatar: string): Row
  {
    Row(id, content, Urls(mediaFiles), createdAt, ipAddress, Some(nickname), email, qq, url,
        Some(avatar), Some(0), Some(1), None, None, None)
  }

  /**
   * `create`: inserts one row under a fresh AUTOINCREMENT id, larger than any
   * id in the table, and returns that id; no other row changes.
   */
  method Create(db: Database, content: string, mediaFiles: seq<string>, createdAt: string,
                ipAddress: Option<string>, nickname: string, email: Option<string>,
                qq: Option<string>, url: Option<string>, avatar: string) returns (id: int)
    requires db.Valid()
    modifies db
    ensures db.Valid()
    ensures !HasId(old(db.checkIns), id)
    ensures forall i :: 0 <= i < |old(db.checkIns)| ==> old(db.checkIns)[i].id < id
    ensures db.checkIns == old(db.checkIns) + [NewRow(id, content, mediaFiles, createdAt, ipAddress, nickname, email, qq, url, avatar)]
    ensures db.likes == old(db.likes) && db.nextId == id + 1
    ensures db.Find(id) == Some(NewRow(id, content, mediaFiles, createdAt, ipAddress, nickname, email, qq, url, avatar))
  {
    id := db.nextId;
    var row := NewRow(id, content, mediaFiles, createdAt, ipAddress, nickname, email, qq, url, avatar);
    db.checkIns := db.checkIns + [row];
    db.nextId := id + 1;
    LookupAt(db.checkIns, |db.checkIns| - 1);
  }

  /** A new row starts with love 0 and no likes, so the like counts stay in step. */
  lemma CreateKeepsLoveMatching(rows: seq<Row>, likes: set<(int, string)>, row: Row)
    requires Likes.LoveMatches(rows, likes)
    requires row.love == Some(0) && forall p :: p in likes ==> p.0 != row.id
    ensures Likes.LoveMatches(rows + [row], likes)
  {
    assert Likes.LikesOf(likes, row.id) == {};
    assert forall i :: 0 <= i < |rows| ==> (rows + [row])[i] == rows[i];
  }

  /** The search options of `get_list`. */
  datatype Query = Query(
    nickname: Option<string>,
    email: Option<string>,
    contentKeyword: Option<string>,
    excludeDefaultNickname: bool,
    minContentLength: Option<int>)

  /** The defaults of `get_list`: no filter at all. */
  const NoFilter: Query := Query(None, None, None, false, None)

  /** `column LIKE '%keyword%'`, as plain substring search; NULL never matches. */
  predicate LikeSubstring(column: Option<string>, keyword: string) {
    column.Some? && Contains(column.value, keyword)
  }

  /**
   * The WHERE clause: each option that is given adds one condition, and a row
   * must meet all of them. A NULL column fails every condition on it,
   * including `nickname != '用户0721'`.
   */
  predicate Matches(row: Row, q: Query) {
    && (Truthy(q.nickname) ==> LikeSubstring(row.nickname, q.nickname.value))
    && (Truthy(q.email) ==> row.email == q.email)
    && (Truthy(q.contentKeyword) ==> Contains(row.content, q.contentKeyword.value))
    && (q.excludeDefaultNickname ==> row.nickname.Some? && row.nickname.value != DefaultNickname)
    && (q.minContentLength.Some? && q.minContentLength.value > 0 ==> |row.content| >= q.minContentLength.value)
  }

  /** SQL ordering of a nullable integer: NULL first. */
  predicate LoveLe(a: Option<int>, b: Option<int>) {
    a.None? || (b.Some? && a.value <= b.value)
  }

  /** `ORDER BY love|id ASC|DESC`: `love` only for `"love"`, ascending only for `"asc"`. */
  function Order(sortBy: string, sortOrder: string): (Row, Row) -> bool {
    if sortBy == "love" then
      if sortOrder == "asc" then (a: Row, b: Row) => LoveLe(a.love, b.love)
      else (a: Row, b: Row) => LoveLe(b.love, a.love)
    else
      if sortOrder == "asc" then (a: Row, b: Row) => a.id <= b.id
      else (a: Row, b: Row) => b.id <= a.id
  }

  lemma OrderIsPreorder(sortBy: string, sortOrder: string)
    ensures TotalPreorder(Order(sortBy, sortOrder))
  {
  }

  /** `LIMIT limit OFFSET offset` in SQLite: a negative offset is 0, a negative limit is no limit. */
  function Page<T>(xs: seq<T>, limit: int, offset: int): (r: seq<T>)
    ensures limit >= 0 ==> |r| <= limit
    ensures var start := if offset < 0 then 0 else if offset > |xs| then |xs| else offset;
      start + |r| <= |xs| && r == xs[start..start + |r|]
    ensures limit < 0 ==> r == xs[(if offset < 0 then 0 else if offset > |xs| then |xs| else offset)..]
  {
    var start := if offset < 0 then 0 else if offset > |xs| then |xs| else offset;
    var rest := xs[start..];
    if limit < 0 || limit >= |rest| then rest else rest[..limit]
  }

  lemma PagesTileAt<T>(xs: seq<T>, limit: nat, a: nat)
    ensures Page(xs, limit, a) + Page(xs, limit, a + limit) == Page(xs, 2 * limit, a)
  {
    if a + limit < |xs| {
      var rest := xs[a..];
      assert Page(xs, limit, a) == rest[..limit];
      var second := Page(xs, limit, a + limit);
      assert second == rest[limit..][..|second|];
      if 2 * limit < |rest| {
        assert Page(xs, 2 * limit, a) == rest[..2 * limit];
        assert rest[..2 * limit] == rest[..limit] + rest[limit..][..limit];
      } else {
        assert Page(xs, 2 * limit, a) == rest;
        assert rest == rest[..limit] + rest[limit..];
      }
    }
  }

  /** Consecutive pages of the same size tile the list: nothing skipped, nothing repeated. */
  lemma PagesTile<T>(xs: seq<T>, limit: nat, page: nat)
    requires page >= 1
    ensures Page(xs, limit, (page - 1) * limit) + Page(xs, limit, page * limit)
         == Page(xs, 2 * limit, (page - 1) * limit)
  {
    var a: nat := (page - 1) * limit;
    assert page * limit == a + limit;
    PagesTileAt(xs, limit, a);
  }

  /** The matching rows, in the order the query sorts them. */
  function Ranked(rows: seq<Row>, q: Query, sortBy: string, sortOrder: string): seq<Row> {
    SortBy(Filter(rows, (r: Row) => Matches(r, q)), Order(sortBy, sortOrder))
  }

  /**
   * `get_list`: the page of matching rows at offset `(page - 1) * limit`, read
   * back through `_row_to_checkin`, and the number of matching rows.
   */
  function GetList(rows: seq<Row>, page: int, limit: int, sortOrder: string, sortBy: string, q: Query): (r: (seq<CheckIn>, nat))
    ensures r.1 == |Filter(rows, (row: Row) => Matches(row, q))| && r.1 <= |rows|
    ensures limit >= 0 ==> |r.0| <= limit
    ensures |r.0| <= r.1
    ensures r.0 == MapCheckIns(Page(Ranked(rows, q, sortBy, sortOrder), limit, (page - 1) * limit))
  {
    var ranked := Ranked(rows, q, sortBy, sortOrder);
    var items := Page(ranked, limit, (page - 1) * limit);
    (MapCheckIns(items), |ranked|)
  }

  function MapCheckIns(rows: seq<Row>): (r: seq<CheckIn>)
    ensures |r| == |rows| && forall i :: 0 <= i < |rows| ==> r[i] == ToCheckIn(rows[i])
  {
    seq(|rows|, i requires 0 <= i < |rows| => ToCheckIn(rows[i]))
  }

  /** Every listed record matches the query and is a row of the table. */
  lemma ListedRowsMatch(rows: seq<Row>, page: int, limit: int, sortOrder: string, sortBy: string, q: Query)
    ensures forall i :: 0 <= i < |GetList(rows, page, limit, sortOrder, sortBy, q).0| ==>
      exists row :: row in rows && Matches(row, q) && GetList(rows, page, limit, sortOrder, sortBy, q).0[i] == ToCheckIn(row)
  {
    var filtered := Filter(rows, (r: Row) => Matches(r, q));
    var ranked := Ranked(rows, q, sortBy, sortOrder);
    SortByMembers(filtered, Order(sortBy, sortOrder));
    var items := Page(ranked, limit, (page - 1) * limit);
    forall i | 0 <= i < |items| ensures items[i] in rows && Matches(items[i], q) {
      var start := if (page - 1) * limit < 0 then 0 else if (page - 1) * limit > |ranked| then |ranked| else (page - 1) * limit;
      assert items[i] == ranked[start + i];
      assert ranked[start + i] in filtered;
    }
  }

  /** Each page lists its rows in the requested order. */
  lemma ListingSorted(rows: seq<Row>, page: int, limit: int, sortOrder: string, sortBy: string, q: Query)
    ensures SortedBy(Page(Ranked(rows, q, sortBy, sortOrder), limit, (page - 1) * limit), Order(sortBy, sortOrder))
  {
    var le := Order(sortBy, sortOrder);
    OrderIsPreorder(sortBy, sortOrder);
    var ranked := Ranked(rows, q, sortBy, sortOrder);
    SortBySorted(Filter(rows, (r: Row) => Matches(r, q)), le);
    var items := Page(ranked, limit, (page - 1) * limit);
    var start := if (page - 1) * limit < 0 then 0 else if (page - 1) * limit > |ranked| then |ranked| else (page - 1) * limit;
    forall i, j | 0 <= i < j < |items| ensures le(items[i], items[j]) {
      assert items[i] == ranked[start + i] && items[j] == ranked[start + j];
    }
  }

  /** `get_by_id`: the record with that id, or nothing. */
  function GetById(rows: seq<Row>, id: int): (r: Option<CheckIn>)
    ensures r.None? <==> !HasId(rows, id)
    ensures r.Some? ==> r.value.id == id && exists row :: row in rows && r.value == ToCheckIn(row)
  {
    match Lookup(rows, id)
    case None => None
    case Some(row) => Some(ToCheckIn(row))
  }
}
