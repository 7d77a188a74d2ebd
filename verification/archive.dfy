/**
 * Archive screening from `src/utils/archive_handler.py`. An archive is its
 * path and the listing its library reports: every entry's name and declared
 * uncompressed size, or the error raised when the file cannot be read.
 */
module Archive {
  import opened Wrappers
  import opened Strings
  import opened Paths
  import opened Slicing
  import opened Lists

  const ImageExtensions: set<string> := {".jpg", ".jpeg", ".png", ".gif", ".webp", ".bmp"}

  const ArchiveExtensions: set<string> := {".zip", ".7z"}

  /** 500 MiB. */
  const MaxExtractedSize: int := 500 * 1024 * 1024

  const MaxEntries: int := 10000

  const DangerousExtensions: set<string> := {
    ".exe", ".bat", ".cmd", ".com", ".msi", ".scr", ".pif",
    ".app", ".dmg", ".pkg",
    ".sh", ".bin", ".run",
    ".js", ".vbs", ".vbe", ".jse", ".ws", ".wsf", ".wsc", ".wsh",
    ".ps1", ".psm1", ".psd1",
    ".py", ".pyw", ".pyc", ".pyo",
    ".rb", ".pl", ".php",
    ".docm", ".xlsm", ".pptm", ".dotm", ".xltm", ".potm",
    ".jar", ".class",
    ".dll", ".sys", ".drv",
    ".lnk", ".url",
    ".reg",
    ".hta", ".html", ".htm",
    ".svg"
  }

  /** `Path(p).suffix.lower()`. */
  function Ext(path: string): string {
    ToLower(Suffix(path))
  }

  datatype ArchiveType = Zip | SevenZip

  datatype Result<T> = Ok(value: T) | Err(message: string)

  function UnsupportedMessage(ext: string): string {
    "不支持的压缩包格式: " + ext
  }

  /** `_get_archive_type`: only `.zip` and `.7z`, in any letter case; anything else raises. */
  function GetArchiveType(path: string): (r: Result<ArchiveType>)
    ensures r == Ok(Zip) <==> Ext(path) == ".zip"
    ensures r == Ok(SevenZip) <==> Ext(path) == ".7z"
    ensures r.Err? <==> Ext(path) !in ArchiveExtensions
    ensures r.Err? ==> r.message == UnsupportedMessage(Ext(path))
  {
    var ext := Ext(path);
    if ext == ".zip" then Ok(Zip)
    else if ext == ".7z" then Ok(SevenZip)
    else Err(UnsupportedMessage(ext))
  }

  /** `is_archive_file`. */
  function IsArchiveFile(filename: string): (b: bool)
    ensures b <==> Ext(filename) in ArchiveExtensions
  {
    Ext(filename) in ArchiveExtensions
  }

  /** A file is an archive exactly when an archive handler can be built for it. */
  lemma ArchiveFileIffHandled(filename: string)
    ensures IsArchiveFile(filename) <==> GetArchiveType(filename).Ok?
  {
  }

  /** One entry of the listing: its name inside the archive and its declared size. */
  datatype Entry = Entry(name: string, size: nat)

  /** What the archive library reports: the entries, or the error it raised. */
  datatype Listing = Listed(entries: seq<Entry>) | Unreadable(error: string)

  function Names(entries: seq<Entry>): (names: seq<string>)
    ensures |names| == |entries|
    ensures forall i :: 0 <= i < |entries| ==> names[i] == entries[i].name
  {
    seq(|entries|, i requires 0 <= i < |entries| => entries[i].name)
  }

  predicate IsDirectory(name: string) {
    EndsWith(name, "/")
  }

  /** An entry `list_images` keeps: not a directory, with an image suffix. */
  predicate IsImage(name: string) {
    !IsDirectory(name) && Ext(name) in ImageExtensions
  }

  /** The image entries of a listing, in listing order. */
  function ImagesOf(files: seq<string>): (images: seq<string>)
    ensures |images| <= |files|
    ensures forall i :: 0 <= i < |images| ==> IsImage(images[i]) && images[i] in files
    ensures forall i :: 0 <= i < |files| && IsImage(files[i]) ==> files[i] in images
  {
    Filter(files, IsImage)
  }

  /** Filtering distributes over concatenation, so the listing order is kept. */
  lemma ImagesOfAppend(a: seq<string>, b: seq<string>)
    ensures ImagesOf(a + b) == ImagesOf(a) + ImagesOf(b)
  {
    FilterAppend(a, b, IsImage);
  }

  /** `list_images`: a loop over the listing keeping the image entries. */
  method ListImages(files: seq<string>) returns (images: seq<string>)
    ensures images == ImagesOf(files)
  {
    images := [];
    var i := 0;
    while i < |files|
      invariant 0 <= i <= |files|
      invariant images == Filter(files[..i], IsImage)
    {
      var filePath := files[i];
      FilterStep(files, i, IsImage);
      if EndsWith(filePath, "/") {
        i := i + 1;
        continue;
      }
      var ext := Ext(filePath);
      if ext in ImageExtensions {
        images := images + [filePath];
      }
      i := i + 1;
    }
    assert files[..i] == files;
  }

  /**
   * The name `extract_file` writes under: only the final component of the
   * entry's path, so an entry such as `../../etc/x.jpg` lands inside `outputDir`.
   */
  function SafeFilename(filePath: string): (name: string)
    ensures '/' !in name
  {
    Name(filePath)
  }

  /** A plain file name is kept as it is; only the directories are dropped. */
  lemma SafeFilenameKeepsName(dirs: string, name: string)
    requires '/' !in name && name != "." && name != []
    ensures SafeFilename(name) == name
    ensures SafeFilename(dirs + "/" + name) == name
  {
    NameOfPlainName(name);
    SplitConcat(dirs, name, '/');
    SplitJoin([name], '/');
    assert dirs + "/" + name == dirs + ['/'] + name;
  }

  /** `output_dir / safe_filename`. */
  function ExtractTarget(outputDir: string, filePath: string): (target: string)
    ensures exists name :: '/' !in name && target == outputDir + "/" + name
  {
    var name := SafeFilename(filePath);
    outputDir + "/" + name
  }

  /**
   * The name is not checked further: `..` is kept as a name, so the target is
   * the parent of the output directory, and an empty path names the output
   * directory itself.
   */
  lemma ExtractTargetEdgeNames(outputDir: string)
    ensures ExtractTarget(outputDir, "..") == outputDir + "/.."
    ensures ExtractTarget(outputDir, "a/..") == outputDir + "/.."
    ensures ExtractTarget(outputDir, "") == outputDir + "/"
  {
    SafeFilenameKeepsName("a", "..");
  }

  datatype Metadata = Metadata(filename: string, size: nat, totalFiles: nat, imageCount: nat)

  /** The message `list_files` raises with when the library fails. */
  function ReadFailure(error: string): string {
    "无法读取压缩包: " + error
  }

  /** `get_metadata`: the counts of all entries and of image entries. */
  method GetMetadata(path: string, fileSize: nat, listing: Listing) returns (r: Result<Metadata>)
    ensures listing.Unreadable? ==> r == Err(ReadFailure(listing.error))
    ensures listing.Listed? ==>
      && r.Ok?
      && r.value.filename == Name(path) && r.value.size == fileSize
      && r.value.totalFiles == |listing.entries|
      && r.value.imageCount == |ImagesOf(Names(listing.entries))|
      && r.value.imageCount <= r.value.totalFiles
  {
    match listing
    case Unreadable(error) =>
      r := Err(ReadFailure(error));
    case Listed(entries) =>
      var allFiles := Names(entries);
      var images := ListImages(allFiles);
      r := Ok(Metadata(Name(path), fileSize, |allFiles|, |images|));
  }

  /** One element of `get_thumbnails`: the path, its file name and the thumbnail if one was made. */
  datatype Thumbnail = Thumbnail(path: string, name: string, thumbnail: Option<string>)

  /**
   * `get_thumbnails`: the first `maxCount` images (Python slicing), each with
   * its thumbnail; `makeThumbnail` stands for the image library, `None` when it fails.
   */
  method GetThumbnails(imageList: seq<string>, maxCount: int, makeThumbnail: string -> Option<string>)
    returns (result: seq<Thumbnail>)
    ensures |result| == |Take(imageList, maxCount)|
    ensures maxCount >= 0 ==> |result| <= maxCount
    ensures forall i :: 0 <= i < |result| ==>
      result[i] == Thumbnail(imageList[i], Name(imageList[i]), makeThumbnail(imageList[i]))
  {
    var chosen := Take(imageList, maxCount);
    result := [];
    var i := 0;
    while i < |chosen|
      invariant 0 <= i <= |chosen|
      invariant |result| == i
      invariant forall j :: 0 <= j < i ==>
        result[j] == Thumbnail(imageList[j], Name(imageList[j]), makeThumbnail(imageList[j]))
    {
      var imgPath := chosen[i];
      var thumbnail := makeThumbnail(imgPath);
      result := result + [Thumbnail(imgPath, Name(imgPath), thumbnail)];
      i := i + 1;
    }
  }

  /** An entry the danger scan flags: not a directory, with a denylisted suffix. */
  predicate IsDangerous(name: string) {
    !IsDirectory(name) && Ext(name) in DangerousExtensions
  }

  /** One turn of the danger scan: the file name of a flagged entry, nothing otherwise. */
  function Flagged(filePath: string): seq<string> {
    if IsDangerous(filePath) then [Name(filePath)] else []
  }

  /** The file names of the flagged entries, in listing order. */
  function DangerousNames(files: seq<string>): (names: seq<string>)
    ensures |names| <= |files|
    ensures names == [] <==> forall i :: 0 <= i < |files| ==> !IsDangerous(files[i])
    ensures forall i :: 0 <= i < |names| ==> '/' !in names[i]
  {
    FilterMap(files, IsDangerous, Name)
  }

  /** `", ".join(parts)`. */
  function JoinComma(parts: seq<string>): string {
    if parts == [] then []
    else if |parts| == 1 then parts[0]
    else parts[0] + ", " + JoinComma(parts[1..])
  }

  const TooManyMessage: string := "压缩包文件数量过多（超过10000个）"
  const TooLargeMessage: string := "解压后大小超过限制（500MB）"

  const DangerPrefix: string := "压缩包包含可能有危险的文件类型: "

  /** The count appended when names were left out of the refusal. */
  function CountNote(total: nat): string {
    "等 " + NatToString(total) + " 个"
  }

  /** The refusal for flagged entries: at most five names, then the total when there are more. */
  function DangerMessage(names: seq<string>): (message: string)
  {
    var shown := Take(names, 5);
    var more := if |names| > 5 then CountNote(|names|) else "";
    DangerPrefix + JoinComma(shown) + more
  }

  /**
   * Up to five flagged names are all listed; beyond five only the first five
   * are, followed by the total count.
   */
  lemma DangerMessageShowsFive(names: seq<string>)
    ensures |names| <= 5 ==> DangerMessage(names) == DangerPrefix + JoinComma(names)
    ensures |names| > 5 ==>
      DangerMessage(names) == DangerPrefix + JoinComma(names[..5]) + CountNote(|names|)
  {
    if |names| <= 5 {
      assert Take(names, 5) == names;
    } else {
      assert Take(names, 5) == names[..5];
    }
  }

  function TotalSize(entries: seq<Entry>): nat {
    if entries == [] then 0 else TotalSize(entries[..|entries| - 1]) + entries[|entries| - 1].size
  }

  function ValidationFailure(message: string): string {
    "压缩包验证失败: " + message
  }

  /** Whether the archive passes every check of `validate_archive`. */
  predicate Acceptable(path: string, listing: Listing) {
    Ext(path) in ArchiveExtensions
    && listing.Listed?
    && |listing.entries| <= MaxEntries
    && DangerousNames(Names(listing.entries)) == []
    && (Ext(path) == ".zip" ==> TotalSize(listing.entries) <= MaxExtractedSize)
  }

  /** The danger scan of `validate_archive`: a loop collecting the names of flagged entries. */
  method DangerScan(files: seq<string>) returns (dangerousFiles: seq<string>)
    ensures dangerousFiles == DangerousNames(files)
  {
    dangerousFiles := [];
    var i := 0;
    while i < |files|
      invariant 0 <= i <= |files|
      invariant dangerousFiles == FilterMap(files[..i], IsDangerous, Name)
    {
      FilterMapStep(files, i, IsDangerous, Name);
      dangerousFiles := dangerousFiles + Flagged(files[i]);
      i := i + 1;
    }
    assert files[..i] == files;
  }

  /**
   * `validate_archive`: the suffix, the listing, the entry cap, the danger
   * scan and, for zip only, the declared total size, in that order; every
   * failure, a library error included, comes back as `(false, message)`.
   */
  method ValidateArchive(path: string, listing: Listing) returns (ok: bool, message: string)
    ensures ok <==> Acceptable(path, listing)
    ensures ok ==> message == ""
    ensures Ext(path) !in ArchiveExtensions ==> message == UnsupportedMessage(Ext(path))
    ensures Ext(path) in ArchiveExtensions && listing.Unreadable? ==>
      message == ValidationFailure(ReadFailure(listing.error))
    ensures Ext(path) in ArchiveExtensions && listing.Listed? && |listing.entries| > MaxEntries ==>
      message == TooManyMessage
    ensures Ext(path) in ArchiveExtensions && listing.Listed? && |listing.entries| <= MaxEntries
            && DangerousNames(Names(listing.entries)) != [] ==>
      message == DangerMessage(DangerousNames(Names(listing.entries)))
    ensures Ext(path) == ".zip" && listing.Listed? && |listing.entries| <= MaxEntries
            && DangerousNames(Names(listing.entries)) == [] && TotalSize(listing.entries) > MaxExtractedSize ==>
      message == TooLargeMessage
    ensures !ok && Ext(path) == ".7z" ==> message != TooLargeMessage
  {
    var ext := Ext(path);
    if ext !in ArchiveExtensions {
      ok, message := false, UnsupportedMessage(ext);
    } else if listing.Unreadable? {
      ok, message := false, ValidationFailure(ReadFailure(listing.error));
    } else if |listing.entries| > MaxEntries {
      ok, message := false, TooManyMessage;
    } else {
      var dangerousFiles := DangerScan(Names(listing.entries));
      if dangerousFiles != [] {
        ok, message := false, DangerMessage(dangerousFiles);
      } else if ext == ".zip" && TotalSize(listing.entries) > MaxExtractedSize {
        ok, message := false, TooLargeMessage;
      } else {
        ok, message := true, "";
      }
    }
  }

  /** One flagged entry rejects the archive, whatever the other entries are. */
  lemma OneDangerousEntryRejects(path: string, entries: seq<Entry>, k: nat)
    requires k < |entries| && IsDangerous(entries[k].name)
    ensures !Acceptable(path, Listed(entries))
  {
    assert Names(entries)[k] == entries[k].name;
  }

  /** A `.7z` archive is never refused for its size. */
  lemma SevenZipHasNoSizeCap(path: string, entries: seq<Entry>)
    requires Ext(path) == ".7z" && |entries| <= MaxEntries
    requires DangerousNames(Names(entries)) == []
    ensures Acceptable(path, Listed(entries))
  {
  }
}
