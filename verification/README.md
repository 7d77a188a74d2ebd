# lianlol check-in board: submission defence and record keeping, in Dafny

lianlol is a small check-in board. Visitors post a check-in: a text, optional
uploaded images, videos or archives, and a nickname, email, QQ number, URL and
avatar emoji. They like other people's posts, and an administrator moderates
them. This project models the parts of the service that decide things and
proves properties about them:

- the **security gate** every submission passes (`src/utils/security.py`):
  - the IP blocklist file;
  - the offline China IP-range fallback and the country block;
  - the per-IP rate limiter with its automatic ban;
  - the five-minute duplicate-content cache;
  - the honeypot and the fill-time check;
  - the order of these checks in `security_check`.
- the **field validators** (`src/utils/validators.py`): email, URL, QQ number,
  nickname, avatar emoji and content.
- the **archive handler** (`src/utils/archive_handler.py`):
  - archive type detection and image listing;
  - safe extraction names and metadata;
  - the smart preview selection;
  - archive validation: entry cap, dangerous extensions, zip size cap.
- the **repositories** over the `check_ins` and `likes` tables:
  - liking, with the `love` counter kept equal to the number of likes;
  - creation of a check-in, the filtered, sorted and paginated listing, and lookup by id.
- the **schema migrations** from version 1.0 to 5.0 (`src/db/migrations.py`).
- the **admin command-line tool** (`scripts/db_admin.py`):
  - table column widths and the page counts;
  - update, approve, reject, ranged delete, ban and batch approve;
  - the orphaned-upload scan.
- the **HTTP endpoints' own logic** (`src/api/routes.py`, `src/api/admin.py`):
  - file-type checks and storage paths of uploads;
  - the upload loop of a new check-in;
  - parameter clamping and page counts;
  - the admin-key check and the moderation endpoints.

**Data.** The two SQLite tables are values:

- `check_ins` is a sequence of `Store.Row` in rowid order.
- `likes` is a set of (check-in id, ip) pairs.
- `Store.Database` is the class that holds both, with the AUTOINCREMENT counter.

Functions read these tables; methods that write to the database take the class
and change it in place. The security state lives in classes whose fields the
source mutates:

- `RateLimit.Limiter` holds the request history and the ban list.
- `Duplicates.ContentCache` holds the content cache.
- `Blocklist.BlocklistFile` holds the blocklist file's text.

**Inputs instead of effects.** The clock is a `now` parameter. Each upload's
uuid and date are fields of the upload. GeoIP lookups and archive listings
come in as data. The outcomes of repository calls not shown in the
repository's source are inputs too.

Shared helpers model the Python built-ins the code relies on:

- `Strings`: `strip`, `isdigit`, `int()`, `str()`, `split`/`join`, `lower`;
- `Paths`: `PurePosixPath` name, suffix and stem;
- `PyInt`: floor division;
- `Slicing`: list slicing;
- `Sorting`: a stable sort, matching Python's `sorted`;
- `Lists`: list comprehensions.

## Model

| member | source | states |
|---|---|---|
| Blocklist.BlocklistFile.Load | src/utils/security.py:26-37 | The loaded blocklist is exactly the stripped, non-empty lines that do not start with `#`, lines ending at `\n`, `\r\n` or a lone `\r` as in text mode; a missing file gives the empty set |
| Blocklist.CarriageReturnEndsLine | src/utils/security.py:32-33 | Reading in text mode, a lone `\r` ends a line and `\r\n` ends only one |
| Blocklist.BlocklistFile.IsBlacklisted | src/utils/security.py:46-49 | An ip is blacklisted iff it is one of the entries read from the current file contents, split into lines as text mode reads them |
| Blocklist.BlocklistFile.Add | src/utils/security.py:40-43 | Adding appends the ip and a newline; for a clean ip and a file ending in a newline, the entries become the old entries plus the ip |
| Blocklist.AppendAddsEntry | src/utils/security.py:40-49 | Appending a clean ip (stripped, non-empty, free of `\n` and `\r`, not `#`) to a file that is absent, empty or ends in a newline makes the next lookup list it and keeps every earlier entry |
| Region.IpToIntMalformed | src/utils/security.py:98-104 | Text with fewer than four dot-separated parts, or with one of the first four parts rejected by `int()`, reads as 0 |
| Region.IpToIntOfQuad | src/utils/security.py:98-104 | The text `a.b.c.d` of any four whole numbers (octets are not range-checked) reads as a·2^24 + b·2^16 + c·2^8 + d |
| Region.ChinaRangesOrdered | src/utils/security.py:118-193 | The fallback table has 72 ranges; each starts at or before its end and ends before the next one starts |
| Region.ChinaRangeUnique | src/utils/security.py:118-193 | No address lies in two ranges of the fallback table |
| Region.InRanges | src/utils/security.py:204-207 | The scan succeeds iff some range covers the address |
| Region.CheckChinaIpRange | src/utils/security.py:197-208 | The fallback answers CN iff the ip parses to a non-zero number inside some range, and None otherwise |
| Region.GetCountryCode | src/utils/security.py:75-95 | Local addresses are LOCAL before any lookup; without a GeoIP database the answer is the fallback table's |
| Region.IsBlockedCountry | src/utils/security.py:217-232 | An ip is blocked iff its country code is CN, and the code reported is the one `get_country_code` gives |
| Region.LocalNeverBlocked | src/utils/security.py:217-232 | `127.0.0.1`, `localhost`, `::1`, `192.168.*` and `10.*` (the LOCAL answer at lines 83-84) are never blocked, whatever the GeoIP database says |
| Region.FallbackBlocksTable | src/utils/security.py:86-89 | Without a GeoIP database, a non-local address is blocked iff it parses to a non-zero number inside a range of the China table |
| RateLimit.Recent | src/utils/security.py:274-277 | The pruned history is no longer than before and keeps only events younger than the window |
| RateLimit.RecentMembers | src/utils/security.py:274-277 | Pruning keeps only recorded events, and keeps every recorded event that is within the window |
| RateLimit.WriteCount | src/utils/security.py:280 | The write count never exceeds the number of requests, and equals it iff every request was a write |
| RateLimit.Truncate | src/utils/security.py:268 | `int()` of a non-negative remaining time is the largest whole number of seconds not above it |
| RateLimit.Limiter.CheckRateLimit | src/utils/security.py:249-290 | A banned ip is refused with its remaining time and nothing else changes; an expired ban is lifted; reads always pass; a write passes iff fewer than the limit were recorded in the window, otherwise the ip is banned for the ban duration |
| RateLimit.Limiter.RecordWrite | src/utils/security.py:273-290 | Under the limit the write is appended to the pruned history and any expired ban is dropped; at the limit the pruned history is kept and a 300-second ban is set |
| RateLimit.RecordedInWindow | src/utils/security.py:282-290 | A write admitted under the limit leaves a history of at most 10 writes, all inside the window |
| Duplicates.Purge | src/utils/security.py:309-312 | Purging keeps exactly the entries younger than the window |
| Duplicates.ExpiredIsAdmitted | src/utils/security.py:307-323 | Content last seen longer ago than the window is accepted again |
| Duplicates.RecentIsRefused | src/utils/security.py:315-318 | Content seen within the window is refused, also when it differs only in surrounding whitespace |
| Duplicates.ContentCache.CheckDuplicate | src/utils/security.py:300-323 | The cache is purged; a recent duplicate is refused without refreshing its time; a fresh text is accepted and recorded at `now` |
| Honeypot.ParseFloatOfNat | src/utils/security.py:346 | `float()` reads `str(n)` back as n for every whole number n |
| Honeypot.ParseFloatOfInt | src/utils/security.py:346 | Every text `int()` accepts is read by `float()` as the same number |
| Honeypot.CheckHoneypot | src/utils/security.py:328-360 | A filled hidden field is refused whatever the timestamp; otherwise a submission passes iff its load time is unreadable or lies 3 to 3600 seconds before `now`, with the too-fast or expired message otherwise |
| Honeypot.UnreadableTimestampIgnored | src/utils/security.py:357-358 | An unreadable load timestamp is treated exactly like a missing one |
| Honeypot.TimelySubmissionPasses | src/utils/security.py:344-360 | A form served at a whole second and submitted 3 to 3600 seconds later with the hidden field blank passes |
| Gate.SecurityCheck | src/utils/security.py:365-413 | The checks run in this order: blocklist (403), region (451), then for writes only rate limit (429), honeypot (400) and, for non-empty content, duplicates (400); reads change no state |
| Archive.GetArchiveType | src/utils/archive_handler.py:57-65 | `.zip` and `.7z` (any case) are recognised; anything else is an error naming the suffix |
| Archive.ArchiveFileIffHandled | src/utils/archive_handler.py:440-450 | A file counts as an archive iff its type is recognised |
| Archive.ImagesOf | src/utils/archive_handler.py:83-102 | The listed images are exactly the non-directory entries with an image suffix, in listing order |
| Archive.ImagesOfAppend | src/utils/archive_handler.py:83-102 | Listing images distributes over concatenated listings, so order is preserved |
| Archive.ListImages | src/utils/archive_handler.py:83-102 | The loop returns exactly the image entries, in listing order |
| Archive.SafeFilename | src/utils/archive_handler.py:116-118 | An extracted file is named by its last path component, with no `/` in it |
| Archive.SafeFilenameKeepsName | src/utils/archive_handler.py:116-118 | A name that already has no directory part is kept unchanged |
| Archive.ExtractTarget | src/utils/archive_handler.py:117-118 | The target is the output directory, a `/`, and a single name with no `/` in it: the archive's directories are dropped |
| Archive.ExtractTargetEdgeNames | src/utils/archive_handler.py:117-118 | That name is not checked further: an entry `..` or `a/..` targets the parent of the output directory, and an empty path the output directory itself |
| Archive.GetMetadata | src/utils/archive_handler.py:144-158 | The metadata counts the entries and their images (images never outnumber entries); a listing failure is the error that `list_files` raised (lines 80-81) |
| Archive.GetThumbnails | src/utils/archive_handler.py:204-222 | One result per image of `images[:max_count]`, in order, each with its path, its file name and its thumbnail (none when the image library fails) |
| Archive.DangerousNames | src/utils/archive_handler.py:412-419 | The flagged names come from the listing, none contains a `/`, and there are none iff no entry has a dangerous suffix |
| Archive.DangerScan | src/utils/archive_handler.py:413-419 | The scanning loop collects exactly the flagged names |
| Archive.DangerMessageShowsFive | src/utils/archive_handler.py:421-425 | The refusal names all flagged files when there are at most five; beyond five, only the first five, followed by the total |
| Archive.ValidateArchive | src/utils/archive_handler.py:388-437 | An archive is accepted iff it has a known suffix, is readable, has at most 10000 entries, has no flagged entry and, for zip only, declares at most 500 MB; each failure carries the message of the first check it fails |
| Archive.OneDangerousEntryRejects | src/utils/archive_handler.py:412-425 | A single flagged entry rejects the archive whatever else it holds |
| Archive.SevenZipHasNoSizeCap | src/utils/archive_handler.py:427-434 | A readable `.7z` with few enough entries and none flagged is accepted whatever its size |
| Preview.FirstDigitRun | src/utils/archive_handler.py:293-301 | There is a number iff the stem holds a digit, and that number is written in digits only |
| Preview.FirstRunStartsAtFirstDigit | src/utils/archive_handler.py:293-301 | The number read is the maximal run of digits starting at the stem's first digit |
| Preview.NumberedImages | src/utils/archive_handler.py:292-304 | Every numbered entry is an input image whose stem holds a digit, tagged with that number; there are none iff no stem holds a digit |
| Preview.Selection | src/utils/archive_handler.py:285-313 | The selection is empty for no images, the whole list when it fits in `count`, and never more than `count` images |
| Preview.SelectionFromInput | src/utils/archive_handler.py:285-313 | Every selected image is one of the input images |
| Preview.CollectNumbered | src/utils/archive_handler.py:292-304 | The loop collects exactly the numbered images with their numbers, in input order |
| Preview.SmartSelect | src/utils/archive_handler.py:270-313 | The method returns the specified selection of the archive's images, and the images themselves when they fit |
| Preview.NumberedSelection | src/utils/archive_handler.py:306-309 | When some stem holds a digit, the first `count` numbered images sorted by number are chosen; all are numbered and their numbers ascend |
| Preview.NumberedSelectionStable | src/utils/archive_handler.py:308 | Images with equal numbers keep their input order |
| Preview.NamedSelection | src/utils/archive_handler.py:311-313 | When no stem holds a digit, exactly `count` paths are chosen, the first in lexicographic order, sorted |
| Preview.StrLeOrders | src/utils/archive_handler.py:312 | Lexicographic string order is a total preorder, so that sort is well defined |
| Validators.EmailRecogniser | src/utils/validators.py:23-25 | The recogniser accepts exactly the strings that match the email pattern |
| Validators.ValidateEmail | src/utils/validators.py:6-31 | Blank input passes; otherwise the stripped text passes iff it matches the pattern and has at most 254 characters, with the format message before the length message |
| Validators.ValidateUrl | src/utils/validators.py:34-65 | Blank input passes; otherwise the stripped text passes iff it has an http(s) scheme, matches the pattern and has at most 2048 characters, each failure with its own message in that order, and success with the empty message |
| Validators.LabelledUrlMatches | src/utils/validators.py:54-57 | `https://` followed by dot-separated valid labels and an optional single-line path starting with `/` matches the pattern |
| Validators.ValidateQq | src/utils/validators.py:68-90 | Blank input passes; otherwise the stripped text passes iff it is all digits and 5 to 11 long, the digit check first; success carries the empty message |
| Validators.ValidateNickname | src/utils/validators.py:93-124 | Blank input passes; otherwise the stripped name passes iff it has at most 20 characters and none of the forbidden ones, and a refusal names the first forbidden character in list order |
| Validators.EmojiRangesCollapse | src/utils/validators.py:146-161 | The eleven listed ranges amount to three blocks, so U+1F650..U+1F67F is refused |
| Validators.ValidateEmoji | src/utils/validators.py:127-171 | Absent or empty input passes; otherwise it passes iff every character lies in the emoji ranges and there are at most 10, the range check first; success carries the empty message |
| Validators.ValidateContent | src/utils/validators.py:174-195 | Content passes iff its stripped text has 1 to 10000 characters; blank content gets the empty-content message, and passing content the empty message |
| Likes.BumpOnlyTouchesTarget | src/db/repositories/like.py:35-37 | Adjusting `love` changes only the target row's counter and keeps every id |
| Likes.LikeKeepsLoveMatching | src/db/repositories/like.py:29-43 | Liking keeps every row's `love` equal to its number of likes |
| Likes.Add | src/db/repositories/like.py:8-51 | A missing check-in gives (False, 0) and a repeated like (False, current love), both without change; otherwise the pair is stored, the record's love goes up by one, `check` then holds, and love stays equal to the number of likes |
| Likes.Check | src/db/repositories/like.py:54-71 | True iff the (check-in id, ip) pair is stored, that is, iff it is one of the likes the record's love counts |
| Likes.LikedRecordIsLoved | src/db/repositories/like.py:29-43 | While love counts the likes, a record that `check` reports as liked has a love of at least one |
| Likes.GetLikedIds | src/db/repositories/like.py:74-90 | The result holds exactly the ids this ip has liked, each once |
| CheckIns.ToCheckIn | src/db/repositories/checkin.py:138-152 | An empty or NULL nickname or avatar reads as its default, a NULL love as 0, and every other column is carried over |
| CheckIns.Create | src/db/repositories/checkin.py:10-38 | The new row gets a fresh id above every existing one, is appended with the given fields and column defaults, and is then found by that id; the likes table is unchanged |
| CheckIns.CreateKeepsLoveMatching | src/db/repositories/checkin.py:30-38 | Creating a check-in keeps every `love` counter equal to its number of likes |
| CheckIns.OrderIsPreorder | src/db/repositories/checkin.py:94-95 | Each supported ordering is a total preorder on rows |
| CheckIns.Page | src/db/repositories/checkin.py:106-115 | `LIMIT`/`OFFSET`: at most `limit` rows starting at the offset clamped to the list; a negative limit means no limit |
| CheckIns.PagesTile | src/db/repositories/checkin.py:106-115 | Two consecutive pages together are the double-size page at the first one's offset: nothing skipped, nothing repeated |
| CheckIns.GetList | src/db/repositories/checkin.py:41-119 | The total counts the matching rows; the page is the sorted matching rows at offset `(page-1)·limit`, never more than the limit or the total |
| CheckIns.ListedRowsMatch | src/db/repositories/checkin.py:68-118 | Every listed record comes from a row of the table that matches all given filters |
| CheckIns.ListingSorted | src/db/repositories/checkin.py:94-115 | Each page is sorted by the requested key and direction |
| CheckIns.MapCheckIns | src/db/repositories/checkin.py:118 | Conversion keeps the number and order of rows |
| CheckIns.GetById | src/db/repositories/checkin.py:122-135 | A record is found iff a row has that id, and it is that row's record |
| Store.Lookup | src/db/repositories/checkin.py:126-133 | `WHERE id = ?` finds the row with that id, and nothing iff there is none |
| Store.DeleteWhere | scripts/db_admin.py:572 | Deleting keeps exactly the rows that do not match, in order |
| DbAdmin.ShownCell | scripts/db_admin.py:51-53 | A NULL cell shows as empty; text that fits is shown whole, longer text is cut to exactly the width, ending in `...` |
| DbAdmin.ColumnWidth | scripts/db_admin.py:48-54 | A column is exactly as wide as its header or its widest shown cell |
| DbAdmin.ColumnWidthBounded | scripts/db_admin.py:48-54 | No column is wider than the larger of its header and the cell cap |
| DbAdmin.ColumnWidths | scripts/db_admin.py:48-54 | The loop computes every column's width |
| DbAdmin.ListPages | scripts/db_admin.py:98 | The page count is the least number of pages that holds all rows |
| DbAdmin.PendingPages | scripts/db_admin.py:502 | The pending listing counts at least one page, even when nothing is pending, and otherwise the least number that holds all |
| DbAdmin.ApplyChangesOnlyGiven | scripts/db_admin.py:200-220 | Given columns take the given value and columns not given keep theirs; the id, ip, media, creation time, fingerprint and the moderation columns never change; an empty email, QQ or URL clears its column |
| DbAdmin.ApplyIdempotent | scripts/db_admin.py:228-230 | Applying the same update twice is the same as once |
| DbAdmin.Update | scripts/db_admin.py:184-234 | No fields means no change; a missing id reports not found without change; otherwise only that row is updated and the likes are kept |
| DbAdmin.Approve | scripts/db_admin.py:511-544 | A missing record is not found; without confirmation nothing changes; confirmed, only that record is stamped approved with the review time |
| DbAdmin.Reject | scripts/db_admin.py:547-576 | A missing record is not found; a record is deleted only when confirmed, and only that record |
| DbAdmin.DeleteRangeExact | scripts/db_admin.py:177 | The range delete removes exactly the rows whose id lies in the range and keeps the rest in order |
| DbAdmin.DeleteRange | scripts/db_admin.py:156-181 | Nothing changes unless confirmed; confirmed, the rows in the range go and the count says how many |
| DbAdmin.Ban | scripts/db_admin.py:579-635 | A missing record is not found; a confirmed ban deletes only that record, appends its fingerprint to the blocklist when it has one, and a clean fingerprint then reads back as an entry |
| DbAdmin.ParseAll | scripts/db_admin.py:643 | The id list parses iff every item is an integer, giving one id per item in order |
| DbAdmin.BatchApprove | scripts/db_admin.py:638-670 | Unparsable ids change nothing; otherwise the count is the number of listed records still pending, and when confirmed exactly those are stamped approved |
| DbAdmin.ReferencedPath | scripts/db_admin.py:735-737 | A found path is the non-empty rest of the URL after a `/uploads/`; nothing is found only when no `/uploads/` is followed by text |
| DbAdmin.ReferencedAfter | scripts/db_admin.py:735-737 | The path found is the text after the first `/uploads/`, as `re.search` finds it, even when later occurrences follow |
| DbAdmin.ReferencedByUrl | scripts/db_admin.py:729-739 | A path is referenced iff some row's media list has a URL naming it |
| DbAdmin.CollectReferenced | scripts/db_admin.py:729-739 | The loop collects exactly the referenced paths |
| DbAdmin.Orphans | scripts/db_admin.py:759-762 | The orphans are exactly the files on disk that no record references, in scan order |
| DbAdmin.OrphanSizeBounded | scripts/db_admin.py:755-762 | The orphans' total size never exceeds that of all files |
| DbAdmin.FindOrphans | scripts/db_admin.py:755-762 | The loop finds the orphans and their total size |
| DbAdmin.OrphanFiles | scripts/db_admin.py:712-762 | The command reports exactly the files no record references, with their total size, which never exceeds that of all files |
| Migrations.FillAfterExtend | src/db/migrations.py:33-34 | Filling NULLs right after adding a column with a default changes nothing |
| Migrations.SchemaTableColumns | src/db/schema.py:13-31 | A freshly created table has the V2, V3, V4 and `approved` columns but lacks `review_reason`, so only that is added |
| Migrations.FirstReleaseLacksUserColumns | src/db/migrations.py:24-25 | A version 1.0 table lacks the user columns, so the first step applies |
| Migrations.Database.AddColumn | src/db/migrations.py:28-32 | Adding a missing column appends it, with its default in every row; adding an existing one fails without change |
| Migrations.Database.FillNull | src/db/migrations.py:33-34 | NULLs of the column become the default and nothing else changes |
| Migrations.Database.MigrateV1ToV2 | src/db/migrations.py:22-36 | The step adds the five user columns when missing and is a no-op otherwise |
| Migrations.Database.MigrateV2ToV3 | src/db/migrations.py:39-54 | When `love` is missing the step adds it with 0 in every row and creates the likes table; otherwise it is a no-op |
| Migrations.Database.CreateLikesTable | src/db/migrations.py:57-72 | The likes table exists afterwards |
| Migrations.Database.EnsureLikesTable | src/db/migrations.py:75-81 | The likes table is created only when it does not exist |
| Migrations.Database.MigrateV3ToV4 | src/db/migrations.py:84-99 | The step adds the archive columns when missing and is a no-op otherwise |
| Migrations.Database.MigrateV4ToV5 | src/db/migrations.py:102-126 | The step adds the three moderation columns, existing rows counting as approved; with `approved` present it adds only a missing `review_reason` |
| Migrations.Database.RunMigrations | src/db/migrations.py:129-141 | A successful run leaves the schema up to date; on an up-to-date database it changes nothing, so a second run is a no-op; a first-release table gains all added columns and a fresh table only `review_reason` |
| Routes.GetFileType | src/api/routes.py:29-36 | The lower-cased suffix decides image, then video, otherwise unknown |
| Routes.AllowedIffKnown | src/api/routes.py:39-43 | A file is allowed iff its type is known |
| Routes.NoSuffixNotAllowed | src/api/routes.py:39-43 | A name without a suffix is never allowed |
| Routes.UploadChecks | src/api/routes.py:46-89 | The type check comes before the size check, 20 MiB exactly is accepted, and a stored file is renamed to its uuid under its month directory with a known type |
| Routes.UploadUrlIsReferenced | src/api/routes.py:82 | Under `/static/uploads/` the orphan scan (scripts/db_admin.py:735) finds exactly the path below the upload directory |
| Routes.StoredUrlIsReferenced | src/api/routes.py:82 | The URL of a stored upload names its stored file for the orphan scan |
| Routes.CreateCheckinRecord | src/api/routes.py:92-126 | The record keeps the URLs of exactly the named, accepted uploads, in order, and is appended with the default nickname and avatar |
| Routes.StoredFilesReferenced | src/api/routes.py:103-119 | Every file stored for a new check-in is referenced by it, so the orphan scan never lists it |
| Routes.ClampPage | src/api/routes.py:132-133 | The page is at least 1, and a valid page is kept |
| Routes.ClampLimit | src/api/routes.py:134-135 | The limit is in 1..100; a valid limit is kept and any other becomes 20 |
| Routes.GetCheckinList | src/api/routes.py:129-154 | The request fails iff a listed record's `media_files` does not parse; otherwise the answer is the listing for the clamped page and limit, every record with its parsed URLs |
| Routes.PagedListing | src/api/routes.py:137-154 | The listing is the newest-first page of at most `limit` records, and the page count is the least that holds the total |
| AdminApi.RequireAdminKey | src/api/admin.py:23-39 | No configured key fails with 500; otherwise a request passes iff its header equals the key, else 401 |
| AdminApi.TotalPages | src/api/admin.py:68 | Zero rows give 0 pages; otherwise the least page count that holds them, failing only for a zero limit |
| AdminApi.Moderate | src/api/admin.py:73-127 | The key is checked first and a missing record is a 404; the repository is called iff both pass, and its result decides the answer |
| AdminApi.BatchModerate | src/api/admin.py:130-173 | An empty id list is a 400; otherwise the count is the number of successful calls, equal to the total iff all succeeded |
| AdminApi.StatusListing | src/api/admin.py:184-189 | `pending` and `approved` select their listing, and every other status lists all |
| Strings.ParseIntOfNat | src/utils/security.py:102 | `int()` reads back any number written in decimal |
| Strings.ParseIntOfDigits | src/utils/security.py:102 | `int()` of a text whose stripped form is all digits is that decimal value |
| Strings.StripEmptyIff | src/utils/validators.py:16-19 | A text strips to empty iff it is all whitespace |
| Strings.StripIdempotent | src/utils/validators.py:16-19 | Stripping twice is stripping once |
| Strings.JoinSplit | src/utils/security.py:101 | Joining the parts of a split with its separator gives back the text |
| Strings.SplitJoin | src/utils/security.py:101 | Splitting a join of separator-free parts gives back the parts |
| Strings.SplitConcat | src/utils/security.py:101 | Splitting a concatenation at a separator splits both halves |
| Paths.SuffixShape | src/utils/archive_handler.py:98 | A suffix is empty or starts with its only dot, and the name is its stem plus its suffix |
| Paths.HiddenNameHasNoSuffix | src/utils/archive_handler.py:417 | A dot-file such as `.bashrc` has no suffix |
| PyInt.CeilingPages | scripts/db_admin.py:98 | `(n + k - 1) // k` is the least page count that holds n items of k per page |
| Sorting.SortBySorted | src/utils/archive_handler.py:308 | The sort returns its input in sorted order |
| Sorting.SortByStable | src/utils/archive_handler.py:308 | For every key, the elements equivalent to it appear in the output exactly as in the input, so the output is a permutation and ties keep their order |

## Left out

- Strings and text: only ASCII is handled for whitespace, digits, `lower()`
  and regex `\d`/`\w`. `int()` does not accept underscores, and `float()`
  reads plain decimals only: no exponents, `inf` or `nan`.
- Strings.ParseInt: ASCII digits only, while Python's `int()` also accepts
  other Unicode decimal digits.
- Preview.FirstDigitRun: ASCII digits only, while Python's `\d` also matches
  other Unicode decimal digits.
- Archive.ExtractTarget: the source does not reject `..` or empty entry
  names, so such an entry can target the parent of the output directory or
  the directory itself. The model keeps this behaviour and states it in
  Archive.ExtractTargetEdgeNames; it does not promise that every target
  lies inside the output directory.
- Regex `$` also matches before a trailing newline; the model does not treat
  a final newline specially. This affects the email, URL and `/uploads/(.+)$`
  patterns. For URLs, the model takes the text after the first `/uploads/`.
- SQL `LIKE` in the search filters is modelled as a case-sensitive plain
  substring test, without the `%` and `_` wildcards inside the search text.
- When `love` values tie, SQLite's order is unspecified. The model keeps ties
  in id order.
- There is no ON DELETE CASCADE: deleting a check-in leaves its likes rows,
  and the model keeps them too.
- JSON: `media_files` is either a list of URL strings or unparsable. Lists
  with non-string elements and JSON text formatting are not modelled.
  The `file_type` and `archive_metadata` columns are not fields of the
  modelled check-in row: only the migrations add them, as column names.
- The duplicate cache is keyed by the stripped text, not by its MD5 digest.
  Hash collisions are not modelled.
- GeoIP lookups, PIL thumbnailing, the zipfile/py7zr listing and extraction
  byte copies are inputs or result parameters. Their own behaviour is not
  part of this model.
- The clock, `uuid4()` and the upload date are parameters. File system
  writes of uploads and extracted files are not modelled.
- Concurrency between requests sharing the module-level dictionaries is not
  modelled; every operation is atomic.
- Likes.Add: the generic `except Exception` path, which answers 点赞失败 on a
  database error, is not modelled, because the store cannot fail.
- The admin tool's `input()` confirmations are a `confirmed` parameter. A
  failing blocklist append is an `appendSucceeds` parameter.
- DbAdmin.Ban: assumes a `fingerprint` column, which the schema files do not
  define; the tool reads it if present.
- The admin API calls repository functions (`approve`, `reject`, `ban`,
  `get_pending_list`, `get_list(approved_only=…)`) that are not defined in
  `src/db/repositories/checkin.py`. Their outcomes are inputs of
  AdminApi.Moderate and AdminApi.BatchModerate.
- `src/db/database.py` passes `file_type`, `archive_metadata` and `approved`
  to a `create` that does not accept them. Routes.CreateCheckinRecord calls
  CheckIns.Create with the arguments it does accept.
- CheckIns.ToCheckIn: the `CheckIn` dataclass of `src/db/models.py` has only
  id, content, media_files, created_at and ip_address. So `_row_to_checkin`,
  which also passes nickname, email, qq, url, avatar and love, raises
  TypeError as written; so does every `get_list` or `get_by_id` that finds a
  row, the admin 404 guard included. The model returns the full record the
  repository evidently means. Likewise, the records in Routes.GetCheckinList
  keep every field, where `to_dict()` would give only those five keys.
- Migrations.Database.RunMigrations: a failing step stops with `ok == false`
  and keeps the columns added so far. The source raises instead; SQLite
  transaction rollback is not modelled.
- DbAdmin.ColumnWidths: cells are already-stringified optional values, and no
  row has more cells than there are headers.
- DbAdmin.ListPages, DbAdmin.PendingPages: a page size of 0, which crashes
  `cmd_list` and `cmd_pending` with a division by zero, is excluded by a
  precondition.
- Not modelled, being display or maintenance only:
  - the `cmd_show`, `cmd_search`, `cmd_stats`, `cmd_vacuum`, `cmd_sql` and
    `cmd_review_stats` commands;
  - `format_size` and other float formatting;
  - `extract_preview_images`, `get_image_thumbnail` and `get_full_image`.
- `scripts/db_seed.py`, `src/main.py`, the Pydantic models and the rest of
  `src/db/database.py` are not part of this model. Of the schema DDL only
  the column lists are modelled.
