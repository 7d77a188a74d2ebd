/**
 * The command-line maintenance tool (`scripts/db_admin.py`): table display
 * widths, page counts, field updates and the moderation commands (approve,
 * reject or delete, delete a range, ban, batch approve), plus the orphan-file
 * scan of the upload directory. A `confirmed` parameter stands for `--force`
 * or a `y` typed at the prompt.
 */
module DbAdmin {
  import opened Wrappers
  import opened Strings
  import opened Slicing
  import opened Lists
  import opened PyInt
  import opened Store
  import opened Blocklist

  /** How a command ends: the messages it prints, without the text. */
  datatype Outcome = NotFound | NothingToDo | Cancelled | Malformed | Done

  // ---- print_table ----

  const Ellipsis: string := "..."

  /** The text shown for one cell: NULL as empty, text longer than `maxWidth` cut with an ellipsis. */
  function ShownCell(cell: Option<string>, maxWidth: int): (r: string)
    ensures |cell.GetOr([])| <= maxWidth ==> r == cell.GetOr([])
    ensures |cell.GetOr([])| > maxWidth && maxWidth >= 3 ==>
      |r| == maxWidth && r == cell.GetOr([])[..maxWidth - 3] + Ellipsis
    ensures maxWidth >= 3 ==> |r| <= maxWidth
  {
    var s := cell.GetOr([]);
    if |s| > maxWidth then Take(s, maxWidth - 3) + Ellipsis else s
  }

  function Max(a: nat, b: nat): nat {
    if a >= b then a else b
  }

  /** The width of column `k`: the longest of its header and its shown cells. */
  function ColumnWidth(header: string, rows: seq<seq<Option<string>>>, k: nat, maxWidth: int): (w: nat)
    ensures w >= |header|
    ensures forall r :: 0 <= r < |rows| && k < |rows[r]| ==> w >= |ShownCell(rows[r][k], maxWidth)|
    ensures w == |header| || exists r :: 0 <= r < |rows| && k < |rows[r]| && w == |ShownCell(rows[r][k], maxWidth)|
  {
    if rows == [] then |header|
    else
      var init := rows[..|rows| - 1];
      var last := rows[|rows| - 1];
      var prev := ColumnWidth(header, init, k, maxWidth);
      assert forall r :: 0 <= r < |init| ==> init[r] == rows[r];
      if k < |last| then Max(prev, |ShownCell(last[k], maxWidth)|) else prev
  }

  /** With `maxWidth >= 3` no column is wider than its header or `maxWidth`. */
  lemma ColumnWidthBounded(header: string, rows: seq<seq<Option<string>>>, k: nat, maxWidth: int)
    requires maxWidth >= 3
    ensures ColumnWidth(header, rows, k, maxWidth) <= Max(|header|, maxWidth)
  {
    var w := ColumnWidth(header, rows, k, maxWidth);
    if w != |header| {
      var r :| 0 <= r < |rows| && k < |rows[r]| && w == |ShownCell(rows[r][k], maxWidth)|;
    }
  }

  lemma ColumnWidthStep(header: string, rows: seq<seq<Option<string>>>, r: nat, k: nat, maxWidth: int)
    requires r < |rows|
    ensures ColumnWidth(header, rows[..r + 1], k, maxWidth)
         == if k < |rows[r]| then Max(ColumnWidth(header, rows[..r], k, maxWidth), |ShownCell(rows[r][k], maxWidth)|)
            else ColumnWidth(header, rows[..r], k, maxWidth)
  {
    assert rows[..r + 1][..r] == rows[..r];
  }

  /**
   * The width loop of `print_table`: starting from the header lengths, each
   * cell of each row widens its column to the cell's shown length. Rows may
   * not be longer than the header list, where the source would fail.
   */
  method ColumnWidths(headers: seq<string>, rows: seq<seq<Option<string>>>, maxWidth: int) returns (widths: seq<nat>)
    requires forall r :: 0 <= r < |rows| ==> |rows[r]| <= |headers|
    ensures |widths| == |headers|
    ensures forall k :: 0 <= k < |headers| ==> widths[k] == ColumnWidth(headers[k], rows, k, maxWidth)
  {
    widths := seq(|headers|, k requires 0 <= k < |headers| => |headers[k]|);
    var r := 0;
    while r < |rows|
      invariant 0 <= r <= |rows|
      invariant |widths| == |headers|
      invariant forall k :: 0 <= k < |headers| ==> widths[k] == ColumnWidth(headers[k], rows[..r], k, maxWidth)
    {
      var row := rows[r];
      var c := 0;
      while c < |row|
        invariant 0 <= c <= |row|
        invariant |widths| == |headers|
        invariant forall k :: 0 <= k < c ==> widths[k] == ColumnWidth(headers[k], rows[..r + 1], k, maxWidth)
        invariant forall k :: c <= k < |headers| ==> widths[k] == ColumnWidth(headers[k], rows[..r], k, maxWidth)
      {
        ColumnWidthStep(headers[c], rows, r, c, maxWidth);
        widths := widths[c := Max(widths[c], |ShownCell(row[c], maxWidth)|)];
        c := c + 1;
      }
      forall k | |row| <= k < |headers|
        ensures widths[k] == ColumnWidth(headers[k], rows[..r + 1], k, maxWidth)
      {
        ColumnWidthStep(headers[k], rows, r, k, maxWidth);
      }
      r := r + 1;
    }
    assert rows[..r] == rows;
  }

  // ---- page counts ----

  /** `cmd_list`: `(total + size - 1) // size`, the ceiling for a positive size. */
  function ListPages(total: nat, size: int): (p: int)
    requires size != 0
    ensures size > 0 ==> p >= 0 && (total == 0 ==> p == 0) && (total > 0 ==> (p - 1) * size < total <= p * size)
  {
    CeilingPages(total, size);
    FloorDiv(total + size - 1, size)
  }

  /** `cmd_pending`: the same ceiling, but never less than one page. */
  function PendingPages(total: nat, size: int): (p: int)
    requires size != 0
    ensures p >= 1
    ensures size > 0 && total == 0 ==> p == 1
    ensures size > 0 && total > 0 ==> (p - 1) * size < total <= p * size
  {
    CeilingPages(total, size);
    var q := FloorDiv(total + size - 1, size);
    if q > 1 then q else 1
  }

  // ---- cmd_update ----

  /** The optional arguments of `update`; `None` means the option was not given. */
  datatype Fields = Fields(
    content: Option<string>,
    nickname: Option<string>,
    email: Option<string>,
    qq: Option<string>,
    url: Option<string>,
    avatar: Option<string>,
    love: Option<int>)

  predicate NoFields(f: Fields) {
    f.content.None? && f.nickname.None? && f.email.None? && f.qq.None?
    && f.url.None? && f.avatar.None? && f.love.None?
  }

  /** An empty string clears a contact column to NULL. */
  function Clearable(v: string): Option<string> {
    if v == [] then None else Some(v)
  }

  /**
   * The `SET` list of `update`: only the given fields change; an empty email,
   * QQ or URL becomes NULL, any other value is stored as given.
   */
  function Apply(row: Row, f: Fields): Row {
    row.(
      content := if f.content.Some? then f.content.value else row.content,
      nickname := if f.nickname.Some? then f.nickname else row.nickname,
      email := if f.email.Some? then Clearable(f.email.value) else row.email,
      qq := if f.qq.Some? then Clearable(f.qq.value) else row.qq,
      url := if f.url.Some? then Clearable(f.url.value) else row.url,
      avatar := if f.avatar.Some? then f.avatar else row.avatar,
      love := if f.love.Some? then f.love else row.love)
  }

  /** Columns outside the field list keep their values; an empty contact clears its column. */
  lemma ApplyChangesOnlyGiven(row: Row, f: Fields)
    ensures var r := Apply(row, f);
      && r.id == row.id && r.mediaFiles == row.mediaFiles && r.createdAt == row.createdAt
      && r.approved == row.approved && r.reviewedAt == row.reviewedAt && r.fingerprint == row.fingerprint
      && r.ipAddress == row.ipAddress && r.reviewReason == row.reviewReason
      && (f.content.None? ==> r.content == row.content)
      && (f.nickname.None? ==> r.nickname == row.nickname)
      && (f.email.None? ==> r.email == row.email)
      && (f.qq.None? ==> r.qq == row.qq)
      && (f.url.None? ==> r.url == row.url)
      && (f.avatar.None? ==> r.avatar == row.avatar)
      && (f.love.None? ==> r.love == row.love)
      && (f.email == Some([]) ==> r.email.None?)
      && (f.qq == Some([]) ==> r.qq.None?)
      && (f.url == Some([]) ==> r.url.None?)
      && (f.content.Some? ==> r.content == f.content.value)
      && (f.nickname.Some? ==> r.nickname == f.nickname)
      && (f.email.Some? && f.email.value != [] ==> r.email == f.email)
      && (f.qq.Some? && f.qq.value != [] ==> r.qq == f.qq)
      && (f.url.Some? && f.url.value != [] ==> r.url == f.url)
      && (f.avatar.Some? ==> r.avatar == f.avatar)
      && (f.love.Some? ==> r.love == f.love)
  {
  }

  /** Running the same update twice is the same as running it once. */
  lemma ApplyIdempotent(row: Row, f: Fields)
    ensures Apply(Apply(row, f), f) == Apply(row, f)
  {
  }

  /** `cmd_update`: an unknown id or an empty field list changes nothing. */
  method Update(db: Database, id: int, f: Fields) returns (outcome: Outcome)
    requires db.Valid()
    modifies db
    ensures db.Valid() && db.likes == old(db.likes) && db.nextId == old(db.nextId)
    ensures old(db.Find(id)).None? ==> outcome == NotFound
    ensures old(db.Find(id)).Some? && NoFields(f) ==> outcome == NothingToDo
    ensures outcome != Done ==> db.checkIns == old(db.checkIns)
    ensures outcome == Done <==> old(db.Find(id)).Some? && !NoFields(f)
    ensures outcome == Done ==> db.checkIns == UpdateWhere(old(db.checkIns), (r: Row) => r.id == id, (r: Row) => Apply(r, f))
  {
    if db.Find(id).None? {
      return NotFound;
    }
    if NoFields(f) {
      return NothingToDo;
    }
    UpdateKeepsIds(db.checkIns, (r: Row) => r.id == id, (r: Row) => Apply(r, f));
    db.checkIns := UpdateWhere(db.checkIns, (r: Row) => r.id == id, (r: Row) => Apply(r, f));
    outcome := Done;
  }

  // ---- moderation ----

  /** The approval stamp: approved, with the review time. */
  function Approved(row: Row, now: string): Row {
    row.(approved := Some(1), reviewedAt := Some(now))
  }

  /** `cmd_approve`: stamps an existing record as approved, even one already approved. */
  method Approve(db: Database, id: int, confirmed: bool, now: string) returns (outcome: Outcome)
    requires db.Valid()
    modifies db
    ensures db.Valid() && db.likes == old(db.likes) && db.nextId == old(db.nextId)
    ensures old(db.Find(id)).None? ==> outcome == NotFound
    ensures old(db.Find(id)).Some? && !confirmed ==> outcome == Cancelled
    ensures outcome != Done ==> db.checkIns == old(db.checkIns)
    ensures outcome == Done <==> old(db.Find(id)).Some? && confirmed
    ensures outcome == Done ==> db.checkIns == UpdateWhere(old(db.checkIns), (r: Row) => r.id == id, (r: Row) => Approved(r, now))
    ensures outcome == Done ==> db.Find(id) == Some(Approved(old(db.Find(id)).value, now))
  {
    if db.Find(id).None? {
      return NotFound;
    }
    if !confirmed {
      return Cancelled;
    }
    ghost var before := db.checkIns;
    ghost var k :| 0 <= k < |before| && before[k].id == id;
    LookupAt(before, k);
    UpdateKeepsIds(before, (r: Row) => r.id == id, (r: Row) => Approved(r, now));
    db.checkIns := UpdateWhere(db.checkIns, (r: Row) => r.id == id, (r: Row) => Approved(r, now));
    LookupAt(db.checkIns, k);
    outcome := Done;
  }

  /** `cmd_reject` (and `cmd_delete`): removes exactly the row with that id. */
  method Reject(db: Database, id: int, confirmed: bool) returns (outcome: Outcome)
    requires db.Valid()
    modifies db
    ensures db.Valid() && db.likes == old(db.likes) && db.nextId == old(db.nextId)
    ensures old(db.Find(id)).None? ==> outcome == NotFound
    ensures old(db.Find(id)).Some? && !confirmed ==> outcome == Cancelled
    ensures outcome != Done ==> db.checkIns == old(db.checkIns)
    ensures outcome == Done <==> old(db.Find(id)).Some? && confirmed
    ensures outcome == Done ==> db.checkIns == DeleteWhere(old(db.checkIns), (r: Row) => r.id == id)
  {
    if db.Find(id).None? {
      return NotFound;
    }
    if !confirmed {
      return Cancelled;
    }
    DeleteKeepsOrder(db.checkIns, (r: Row) => r.id == id);
    db.checkIns := DeleteWhere(db.checkIns, (r: Row) => r.id == id);
    outcome := Done;
  }

  predicate InRange(row: Row, start: int, end: int) {
    start <= row.id <= end
  }

  /** After deleting `[start, end]`, an id is still present exactly when it was and lies outside the range. */
  lemma DeleteRangeExact(rows: seq<Row>, start: int, end: int, id: int)
    ensures HasId(DeleteWhere(rows, (r: Row) => InRange(r, start, end)), id)
        <==> HasId(rows, id) && !(start <= id <= end)
  {
    var after := DeleteWhere(rows, (r: Row) => InRange(r, start, end));
    if HasId(after, id) {
      var i :| 0 <= i < |after| && after[i].id == id;
      var j :| 0 <= j < |rows| && rows[j] == after[i];
    }
    if HasId(rows, id) && !(start <= id <= end) {
      var j :| 0 <= j < |rows| && rows[j].id == id;
      assert rows[j] in after;
      var i :| 0 <= i < |after| && after[i] == rows[j];
    }
  }

  /**
   * `cmd_delete_range`: counts the ids in `[start, end]`; with none it does
   * nothing, otherwise it deletes exactly those rows.
   */
  method DeleteRange(db: Database, start: int, end: int, confirmed: bool) returns (outcome: Outcome, count: nat)
    requires db.Valid()
    modifies db
    ensures db.Valid() && db.likes == old(db.likes) && db.nextId == old(db.nextId)
    ensures count == |Filter(old(db.checkIns), (r: Row) => InRange(r, start, end))|
    ensures count == 0 ==> outcome == NothingToDo
    ensures outcome != Done ==> db.checkIns == old(db.checkIns)
    ensures outcome == Done <==> count > 0 && confirmed
    ensures outcome == Done ==> db.checkIns == DeleteWhere(old(db.checkIns), (r: Row) => InRange(r, start, end))
  {
    count := |Filter(db.checkIns, (r: Row) => InRange(r, start, end))|;
    if count == 0 {
      return NothingToDo, count;
    }
    if !confirmed {
      return Cancelled, count;
    }
    DeleteKeepsOrder(db.checkIns, (r: Row) => InRange(r, start, end));
    db.checkIns := DeleteWhere(db.checkIns, (r: Row) => InRange(r, start, end));
    outcome := Done;
  }

  /**
   * `cmd_ban`: a record without a fingerprint is only deleted. With one, the
   * fingerprint and a newline are appended to the blacklist file when the
   * write succeeds (`appendSucceeds`), and the record is deleted either way.
   */
  method Ban(db: Database, blocklist: BlocklistFile, id: int, confirmed: bool, appendSucceeds: bool)
    returns (outcome: Outcome)
    requires db.Valid()
    modifies db, blocklist
    ensures db.Valid() && db.likes == old(db.likes) && db.nextId == old(db.nextId)
    ensures old(db.Find(id)).None? ==> outcome == NotFound
    ensures outcome == Done <==> old(db.Find(id)).Some? && confirmed
    ensures outcome != Done ==> db.checkIns == old(db.checkIns) && blocklist.content == old(blocklist.content)
    ensures outcome == Done ==> db.checkIns == DeleteWhere(old(db.checkIns), (r: Row) => r.id == id)
    ensures outcome == Done ==>
      var fp := old(db.Find(id)).value.fingerprint;
      blocklist.content == if Truthy(fp) && appendSucceeds
        then Some(old(blocklist.content).GetOr([]) + fp.value + "\n")
        else old(blocklist.content)
    ensures outcome == Done && Truthy(old(db.Find(id)).value.fingerprint) && appendSucceeds
            && CleanEntry(old(db.Find(id)).value.fingerprint.value) && EndsWithNewline(old(blocklist.content)) ==>
      Entries(blocklist.content) == Entries(old(blocklist.content)) + {old(db.Find(id)).value.fingerprint.value}
  {
    var row := db.Find(id);
    if row.None? {
      return NotFound;
    }
    if !confirmed {
      return Cancelled;
    }
    if Truthy(row.value.fingerprint) && appendSucceeds {
      blocklist.Add(row.value.fingerprint.value);
    }
    DeleteKeepsOrder(db.checkIns, (r: Row) => r.id == id);
    db.checkIns := DeleteWhere(db.checkIns, (r: Row) => r.id == id);
    outcome := Done;
  }

  /** `[int(x.strip()) for x in parts]`, or `None` where `int` raises. */
  function ParseAll(parts: seq<string>): (r: Option<seq<int>>)
    ensures r.Some? <==> forall i :: 0 <= i < |parts| ==> ParseInt(parts[i]).Some?
    ensures r.Some? ==> |r.value| == |parts| && forall i :: 0 <= i < |parts| ==> ParseInt(parts[i]) == Some(r.value[i])
  {
    MapAll(parts, ParseInt)
  }

  predicate PendingIn(row: Row, ids: seq<int>) {
    row.id in ids && row.approved == Some(0)
  }

  /**
   * `cmd_batch_approve`: ids come from the comma-separated text (a piece that
   * is not an integer aborts the command); only listed rows still pending
   * (`approved = 0`) are stamped, and with none of those nothing changes.
   */
  method BatchApprove(db: Database, idsText: string, confirmed: bool, now: string) returns (outcome: Outcome, count: nat)
    requires db.Valid()
    modifies db
    ensures db.Valid() && db.likes == old(db.likes) && db.nextId == old(db.nextId)
    ensures ParseAll(Split(idsText, ',')).None? ==> outcome == Malformed
    ensures outcome != Done ==> db.checkIns == old(db.checkIns)
    ensures ParseAll(Split(idsText, ',')).Some? ==>
      var ids := ParseAll(Split(idsText, ',')).value;
      && count == |Filter(old(db.checkIns), (r: Row) => PendingIn(r, ids))|
      && (outcome == Done <==> count > 0 && confirmed)
      && (outcome == Done ==> db.checkIns == UpdateWhere(old(db.checkIns), (r: Row) => PendingIn(r, ids), (r: Row) => Approved(r, now)))
  {
    var parsed := ParseAll(Split(idsText, ','));
    if parsed.None? {
      return Malformed, 0;
    }
    var ids := parsed.value;
    count := |Filter(db.checkIns, (r: Row) => PendingIn(r, ids))|;
    if count == 0 {
      return NothingToDo, count;
    }
    if !confirmed {
      return Cancelled, count;
    }
    UpdateKeepsIds(db.checkIns, (r: Row) => PendingIn(r, ids), (r: Row) => Approved(r, now));
    db.checkIns := UpdateWhere(db.checkIns, (r: Row) => PendingIn(r, ids), (r: Row) => Approved(r, now));
    outcome := Done;
  }

  // ---- cmd_orphan_files ----

  const UploadsMarker: string := "/uploads/"

  /**
   * `re.search(r'/uploads/(.+)$', url)`: the text after the first `/uploads/`
   * when it is not empty.
   */
  function ReferencedPath(url: string): (r: Option<string>)
    ensures r.Some? ==>
      && r.value != [] && |r.value| + |UploadsMarker| <= |url|
      && OccursAt(url, UploadsMarker, |url| - |r.value| - |UploadsMarker|)
      && url[|url| - |r.value|..] == r.value
    ensures r.None? ==> forall k :: 0 <= k && k + |UploadsMarker| < |url| ==> !OccursAt(url, UploadsMarker, k)
    decreases |url|
  {
    if |url| <= |UploadsMarker| then None
    else if url[..|UploadsMarker|] == UploadsMarker then
      assert OccursAt(url, UploadsMarker, 0);
      Some(url[|UploadsMarker|..])
    else
      var r := ReferencedPath(url[1..]);
      OccursShift(url, UploadsMarker);
      r
  }

  lemma OccursShift(s: string, sub: string)
    requires |s| >= 1
    ensures forall k :: 1 <= k ==> (OccursAt(s, sub, k) <==> OccursAt(s[1..], sub, k - 1))
  {
    forall k | 1 <= k
      ensures OccursAt(s, sub, k) <==> OccursAt(s[1..], sub, k - 1)
    {
      if k <= |s| - |sub| {
        var a := s[k..k + |sub|];
        var b := s[1..][k - 1..k - 1 + |sub|];
        assert forall j :: 0 <= j < |a| ==> a[j] == b[j];
        assert a == b;
      }
    }
  }

  /**
   * The path found is the one after the FIRST `/uploads/`, as `re.search`
   * finds it: when nothing before `rest` starts an occurrence, it is `rest`.
   */
  lemma {:induction false} ReferencedAfter(prefix: string, rest: string)
    requires rest != []
    requires forall k :: 0 <= k < |prefix| ==> !OccursAt(prefix + UploadsMarker + rest, UploadsMarker, k)
    ensures ReferencedPath(prefix + UploadsMarker + rest) == Some(rest)
    decreases |prefix|
  {
    var marker := UploadsMarker;
    var url := prefix + marker + rest;
    if prefix == [] {
      assert url == marker + rest;
      assert url[..|marker|] == marker;
      assert url[|marker|..] == rest;
    } else {
      assert !OccursAt(url, marker, 0);
      assert url[..|marker|] != marker by {
        assert url[0..0 + |marker|] == url[..|marker|];
      }
      var shorter := prefix[1..];
      assert url[1..] == shorter + marker + rest;
      OccursShift(url, marker);
      forall k | 0 <= k < |shorter|
        ensures !OccursAt(shorter + marker + rest, marker, k)
      {
        assert !OccursAt(url, marker, k + 1);
      }
      ReferencedAfter(shorter, rest);
    }
  }

  /** The path one URL refers to, as a set of at most one element. */
  function UrlRef(url: string): set<string> {
    match ReferencedPath(url)
    case None => {}
    case Some(p) => {p}
  }

  /** The upload paths one row refers to; a row whose JSON does not parse refers to none. */
  function RowRefs(row: Row): set<string> {
    match row.mediaFiles
    case Unparsable => {}
    case Urls(urls) => UnionOver(urls, UrlRef)
  }

  /** Every upload path some row of the table refers to. */
  function Referenced(rows: seq<Row>): set<string> {
    UnionOver(rows, RowRefs)
  }

  /** A path is referenced exactly when some stored URL of some row yields it. */
  lemma ReferencedByUrl(rows: seq<Row>, p: string)
    ensures p in Referenced(rows) <==>
      exists i, j :: 0 <= i < |rows| && rows[i].mediaFiles.Urls? && 0 <= j < |rows[i].mediaFiles.urls|
                     && ReferencedPath(rows[i].mediaFiles.urls[j]) == Some(p)
  {
    UnionOverMembers(rows, RowRefs, p);
    forall i | 0 <= i < |rows| && rows[i].mediaFiles.Urls?
      ensures p in RowRefs(rows[i]) <==> exists j :: 0 <= j < |rows[i].mediaFiles.urls| && ReferencedPath(rows[i].mediaFiles.urls[j]) == Some(p)
    {
      var urls := rows[i].mediaFiles.urls;
      UnionOverMembers(urls, UrlRef, p);
      assert forall j :: 0 <= j < |urls| ==> (p in UrlRef(urls[j]) <==> ReferencedPath(urls[j]) == Some(p));
    }
  }

  /** The loop collecting `referenced_files` over the rows and their URLs. */
  method CollectReferenced(rows: seq<Row>) returns (referenced: set<string>)
    ensures referenced == Referenced(rows)
  {
    referenced := {};
    var i := 0;
    while i < |rows|
      invariant 0 <= i <= |rows|
      invariant referenced == UnionOver(rows[..i], RowRefs)
    {
      UnionOverStep(rows, i, RowRefs);
      if rows[i].mediaFiles.Urls? {
        var urls := rows[i].mediaFiles.urls;
        var j := 0;
        ghost var before := referenced;
        while j < |urls|
          invariant 0 <= j <= |urls|
          invariant referenced == before + UnionOver(urls[..j], UrlRef)
        {
          UnionOverStep(urls, j, UrlRef);
          var path := ReferencedPath(urls[j]);
          if path.Some? {
            referenced := referenced + {path.value};
          }
          j := j + 1;
        }
        assert urls[..j] == urls;
      }
      i := i + 1;
    }
    assert rows[..i] == rows;
  }

  function TotalSize(files: seq<(string, nat)>): nat {
    if files == [] then 0 else TotalSize(files[..|files| - 1]) + files[|files| - 1].1
  }

  predicate Unreferenced(file: (string, nat), referenced: set<string>) {
    file.0 !in referenced
  }

  /** The files of the scan that no record references, in scan order. */
  function Orphans(files: seq<(string, nat)>, referenced: set<string>): (orphans: seq<(string, nat)>)
    ensures forall i :: 0 <= i < |orphans| ==> orphans[i] in files && orphans[i].0 !in referenced
    ensures forall i :: 0 <= i < |files| && files[i].0 !in referenced ==> files[i] in orphans
  {
    Filter(files, (f: (string, nat)) => Unreferenced(f, referenced))
  }

  /** One more scanned file: the loop step of the orphan scan. */
  lemma OrphansStep(files: seq<(string, nat)>, i: nat, referenced: set<string>)
    requires i < |files|
    ensures Orphans(files[..i + 1], referenced)
         == Orphans(files[..i], referenced) + (if files[i].0 !in referenced then [files[i]] else [])
  {
    FilterStep(files, i, (f: (string, nat)) => Unreferenced(f, referenced));
  }

  /** The orphan size never exceeds the size of the whole upload directory. */
  lemma {:induction false} OrphanSizeBounded(files: seq<(string, nat)>, referenced: set<string>)
    ensures TotalSize(Orphans(files, referenced)) <= TotalSize(files)
    decreases |files|
  {
    if files != [] {
      var n := |files| - 1;
      var init := files[..n];
      OrphanSizeBounded(init, referenced);
      OrphansStep(files, n, referenced);
      assert files[..n + 1] == files;
      var prev := Orphans(init, referenced);
      assert TotalSize(files) == TotalSize(init) + files[n].1;
      if files[n].0 !in referenced {
        TotalSizeSnoc(prev, files[n]);
        assert Orphans(files, referenced) == prev + [files[n]];
      } else {
        assert Orphans(files, referenced) == prev + [];
        assert prev + [] == prev;
      }
    }
  }

  /**
   * The orphan loop: in scan order, the files whose relative path is not
   * referenced, and the sum of their sizes.
   */
  method FindOrphans(files: seq<(string, nat)>, referenced: set<string>) returns (orphans: seq<(string, nat)>, orphanSize: nat)
    ensures orphans == Orphans(files, referenced)
    ensures orphanSize == TotalSize(orphans) && orphanSize <= TotalSize(files)
  {
    orphans := [];
    orphanSize := 0;
    var i := 0;
    while i < |files|
      invariant 0 <= i <= |files|
      invariant orphans == Orphans(files[..i], referenced)
      invariant orphanSize == TotalSize(orphans)
    {
      OrphansStep(files, i, referenced);
      if files[i].0 !in referenced {
        TotalSizeSnoc(orphans, files[i]);
        orphans := orphans + [files[i]];
        orphanSize := orphanSize + files[i].1;
      }
      i := i + 1;
    }
    assert files[..i] == files;
    OrphanSizeBounded(files, referenced);
  }

  lemma TotalSizeSnoc(files: seq<(string, nat)>, file: (string, nat))
    ensures TotalSize(files + [file]) == TotalSize(files) + file.1
  {
    assert (files + [file])[..|files|] == files;
  }

  /** `cmd_orphan_files` analysis: no referenced file is ever reported as an orphan. */
  method OrphanFiles(db: Database, files: seq<(string, nat)>) returns (orphans: seq<(string, nat)>, orphanSize: nat)
    ensures orphans == Orphans(files, Referenced(db.checkIns))
    ensures orphanSize == TotalSize(orphans) && orphanSize <= TotalSize(files)
  {
    var referenced := CollectReferenced(db.checkIns);
    orphans, orphanSize := FindOrphans(files, referenced);
  }
}
