/**
 * The public API's request helpers: classifying an upload by its extension,
 * the checks and storage path of a single upload, the upload loop of a new
 * check-in, and the clamping of the listing parameters. The uploaded bytes,
 * the uuid generator and the clock are inputs.
 */
module Routes {
  import opened Wrappers
  import opened Strings
  import opened Paths
  import opened Lists
  import opened PyInt
  import opened Store
  import CheckIns
  import DbAdmin

  const MaxFileSize: nat := 20 * 1024 * 1024
  const ImageExtensions: seq<string> := [".jpg", ".jpeg", ".png", ".gif", ".webp"]
  const VideoExtensions: seq<string> := [".mp4", ".webm", ".mov", ".avi"]

  const UnsupportedMessage: string := "不支持的文件格式"
  const TooLargeMessage: string := "文件大小超过20MB限制"

  datatype FileType = Image | Video | Unknown

  /** `Path(filename).suffix.lower()`. */
  function Extension(filename: string): string {
    ToLower(Suffix(filename))
  }

  /** `get_file_type`: images first, then videos, otherwise unknown. */
  function GetFileType(filename: string): (t: FileType)
    ensures t == Image <==> Extension(filename) in ImageExtensions
    ensures t == Video <==> Extension(filename) in VideoExtensions
  {
    var ext := Extension(filename);
    VideoIsNotImage(ext);
    if ext in ImageExtensions then Image
    else if ext in VideoExtensions then Video
    else Unknown
  }

  /** No extension is both an image and a video extension. */
  lemma VideoIsNotImage(ext: string)
    ensures ext in VideoExtensions ==> ext !in ImageExtensions
  {
    if ext in VideoExtensions {
      assert ext[|ext| - 1] in "4mvi";
    }
  }

  /** `is_allowed_file`: the extension is one of the image or video extensions. */
  function IsAllowedFile(filename: string): bool {
    Extension(filename) in ImageExtensions + VideoExtensions
  }

  /** A file may be uploaded exactly when its type is known. */
  lemma AllowedIffKnown(filename: string)
    ensures IsAllowedFile(filename) <==> GetFileType(filename) != Unknown
  {
  }

  /** A file without an extension is never accepted: an empty name, a dotfile, a bare name. */
  lemma NoSuffixNotAllowed(filename: string)
    requires Suffix(filename) == []
    ensures !IsAllowedFile(filename)
  {
    assert Extension(filename) == [];
  }

  /** One uploaded file: its name, its size in bytes, the uuid drawn for it and the date read while storing it. */
  datatype Upload = Upload(filename: string, size: nat, uuid: string, year: nat, month: nat)

  /** The JSON answer of `upload_file`. */
  datatype UploadResult = Rejected(message: string) | Stored(filename: string, url: string, fileType: FileType)

  /** The `YYYY-MM` directory of an upload. */
  function DateDir(year: nat, month: nat): string {
    NatToString(year) + "-" + TwoDigits(month)
  }

  const UrlPrefix: string := "/static/uploads/"

  /** Where a stored upload lives below the upload directory: `YYYY-MM/<uuid><ext>`. */
  function StoredPath(file: Upload): string {
    DateDir(file.year, file.month) + "/" + file.uuid + Extension(file.filename)
  }

  /** `upload_file`: the checks, then the name and the URL of the stored file. */
  function UploadFile(file: Upload): UploadResult {
    if !IsAllowedFile(file.filename) then Rejected(UnsupportedMessage)
    else if file.size > MaxFileSize then Rejected(TooLargeMessage)
    else Stored(file.uuid + Extension(file.filename), UrlPrefix + StoredPath(file), GetFileType(file.filename))
  }

  /**
   * The extension is checked before the size, a file of exactly 20 MiB is
   * accepted, and a stored file is renamed to its uuid and keeps its type.
   */
  lemma UploadChecks(file: Upload)
    ensures var r := UploadFile(file);
      && (!IsAllowedFile(file.filename) ==> r == Rejected(UnsupportedMessage))
      && (IsAllowedFile(file.filename) && file.size > MaxFileSize ==> r == Rejected(TooLargeMessage))
      && (r.Stored? <==> IsAllowedFile(file.filename) && file.size <= MaxFileSize)
      && (r.Stored? ==>
        && r.filename == file.uuid + Extension(file.filename)
        && r.url == UrlPrefix + StoredPath(file)
        && r.fileType != Unknown)
  {
    AllowedIffKnown(file.filename);
  }

  /** Under `/static/uploads/`, the orphan scan finds exactly the path below the upload directory. */
  lemma UploadUrlIsReferenced(rest: string)
    requires rest != []
    ensures DbAdmin.ReferencedPath(UrlPrefix + rest) == Some(rest)
  {
    var marker := DbAdmin.UploadsMarker;
    var url := "/static" + marker + rest;
    assert UrlPrefix + rest == url;
    forall k | 0 <= k < |"/static"|
      ensures !OccursAt(url, marker, k)
    {
      if k == 0 {
        assert url[1] == 's';
        assert url[k..k + |marker|][1] != marker[1];
      } else {
        assert url[k] == "/static"[k] != '/';
        assert url[k..k + |marker|][0] != marker[0];
      }
    }
    DbAdmin.ReferencedAfter("/static", rest);
  }

  /** The URL `upload_file` returns names its stored file for the orphan scan. */
  lemma StoredUrlIsReferenced(file: Upload)
    requires UploadFile(file).Stored?
    ensures DbAdmin.ReferencedPath(UploadFile(file).url) == Some(StoredPath(file))
  {
    var path := StoredPath(file);
    assert path != [] by {
      assert |DateDir(file.year, file.month)| > 0;
    }
    UploadUrlIsReferenced(path);
  }

  /**
   * One turn of the upload loop of `create_checkin_record`: a file with a
   * name goes through `upload_file`, and the URL of a stored one is kept.
   */
  function Uploaded(file: Upload): Option<string> {
    if file.filename == [] then None
    else
      match UploadFile(file)
      case Stored(_, url, _) => Some(url)
      case Rejected(_) => None
  }

  predicate Kept(file: Upload) {
    Uploaded(file).Some?
  }

  function StoredUrl(file: Upload): string {
    Uploaded(file).GetOr([])
  }

  /**
   * `create_checkin_record`: upload every named file, keep the URLs of the
   * ones stored, and create the record with them; `mediaCount` is the
   * number of files stored.
   */
  method CreateCheckinRecord(db: Database, content: string, files: seq<Upload>, clientIp: Option<string>, createdAt: string)
    returns (id: int, mediaUrls: seq<string>, mediaCount: nat)
    requires db.Valid()
    modifies db
    ensures db.Valid()
    ensures mediaUrls == FilterMap(files, Kept, StoredUrl)
    ensures mediaCount == |mediaUrls| && mediaCount <= |files|
    ensures !HasId(old(db.checkIns), id)
    ensures db.checkIns == old(db.checkIns) + [CheckIns.NewRow(id, content, mediaUrls, createdAt, clientIp,
      DefaultNickname, None, None, None, DefaultAvatar)]
    ensures db.likes == old(db.likes)
  {
    mediaUrls := [];
    var i := 0;
    while i < |files|
      invariant 0 <= i <= |files|
      invariant mediaUrls == FilterMap(files[..i], Kept, StoredUrl)
      invariant db.Valid() && unchanged(db)
    {
      FilterMapStep(files, i, Kept, StoredUrl);
      var uploaded := Uploaded(files[i]);
      if uploaded.Some? {
        mediaUrls := mediaUrls + [uploaded.value];
      }
      i := i + 1;
    }
    assert files[..i] == files;
    id := CheckIns.Create(db, content, mediaUrls, createdAt, clientIp, DefaultNickname, None, None, None, DefaultAvatar);
    mediaCount := |mediaUrls|;
  }

  /**
   * Every file `create_checkin_record` stored is referenced by the new
   * record, so the orphan scan of the admin tool never lists it.
   */
  lemma StoredFilesReferenced(rows: seq<Row>, row: Row, files: seq<Upload>, i: nat)
    requires row.mediaFiles == Urls(FilterMap(files, Kept, StoredUrl))
    requires i < |files| && Kept(files[i])
    ensures StoredPath(files[i]) in DbAdmin.Referenced(rows + [row])
  {
    var file := files[i];
    var urls := FilterMap(files, Kept, StoredUrl);
    FilterMapKeeps(files, Kept, StoredUrl, i);
    var j :| 0 <= j < |urls| && urls[j] == StoredUrl(file);
    UploadChecks(file);
    StoredUrlIsReferenced(file);
    var table := rows + [row];
    assert table[|rows|] == row;
    assert DbAdmin.ReferencedPath(table[|rows|].mediaFiles.urls[j]) == Some(StoredPath(file));
    DbAdmin.ReferencedByUrl(table, StoredPath(file));
  }

  /** `get_checkin_list`: a page below 1 becomes 1. */
  function ClampPage(page: int): (p: int)
    ensures p >= 1
    ensures page >= 1 ==> p == page
  {
    if page < 1 then 1 else page
  }

  /** `get_checkin_list`: a limit outside 1..100 becomes 20. */
  function ClampLimit(limit: int): (l: int)
    ensures 1 <= l <= 100
    ensures 1 <= limit <= 100 ==> l == limit
    ensures !(1 <= limit <= 100) ==> l == 20
  {
    if limit < 1 || limit > 100 then 20 else limit
  }

  /** The answer of `get_checkin_list`. */
  datatype Listing = Listing(data: seq<CheckIns.CheckIn>, total: nat, page: int, limit: int, pages: int)

  /** `json.loads` succeeds on the `media_files` of every record. */
  predicate AllParsed(data: seq<CheckIns.CheckIn>) {
    forall i :: 0 <= i < |data| ==> data[i].mediaFiles.Urls?
  }

  /** The answer of `get_checkin_list` for clamped parameters, once every record has parsed. */
  function PagedListing(rows: seq<Row>, page: int, limit: int): (r: Listing)
    requires page >= 1 && 1 <= limit <= 100
    ensures r.page == page && r.limit == limit
    ensures |r.data| <= limit && r.total <= |rows|
    ensures r.pages >= 0 && (r.total == 0 ==> r.pages == 0)
    ensures r.total > 0 ==> (r.pages - 1) * limit < r.total <= r.pages * limit
    ensures (r.data, r.total) == CheckIns.GetList(rows, page, limit, "desc", "id", CheckIns.NoFilter)
  {
    var (data, total) := CheckIns.GetList(rows, page, limit, "desc", "id", CheckIns.NoFilter);
    CeilingPages(total, limit);
    Listing(data, total, page, limit, FloorDiv(total + limit - 1, limit))
  }

  /**
   * `get_checkin_list`: the clamped page of the newest-first listing, with
   * `pages = (total + limit - 1) // limit`. Each listed record's `media_files`
   * goes through `json.loads`; `None` is the request failing because one of
   * them does not parse.
   */
  function GetCheckinList(rows: seq<Row>, page: int, limit: int): (r: Option<Listing>)
    ensures r.None? <==>
      !AllParsed(CheckIns.GetList(rows, ClampPage(page), ClampLimit(limit), "desc", "id", CheckIns.NoFilter).0)
    ensures r.Some? ==> r.value == PagedListing(rows, ClampPage(page), ClampLimit(limit)) && AllParsed(r.value.data)
  {
    var listing := PagedListing(rows, ClampPage(page), ClampLimit(limit));
    if AllParsed(listing.data) then Some(listing) else None
  }
}
