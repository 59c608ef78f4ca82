# KodeKloud course downloader — a verified model of its core

The downloader logs in to KodeKloud, lists the course catalogue, lets the
user pick courses and modules, and saves every lesson of the chosen modules
as a Markdown page. Images and PDFs referenced by a lesson are saved next to
the page. A JSON progress ledger records which lessons are done. This
project models the logic of `kodekloud_downloader.py` that decides what
happens. Every network, HTML-library and file-system call is an input or a
parameter.

Modules (one file each):

- `Text` (`text.dfy`): Python's `str.strip`, `str.split` / `join`, `str(n)`
  and `int(s)`, on strings as sequences of characters.
- `Names` (`names.dfy`):
  - `sanitize_filename`;
  - `os.path.basename`, `os.path.splitext` and `os.path.join`;
  - `unquote`, for ASCII percent-escapes;
  - the local names of images and PDFs;
  - the collision rename of the image-tag pass;
  - the numbered module directory name.
- `Markdown` (`markdown.dfy`): the two regular expressions of
  `download_lesson`, each written as a left-to-right scanner:
  - the image reference `!\[(.*?)\]\((.*?)\)`, rewritten by `replace_image`;
  - the PDF link `\[.*?\]\((.*?\.pdf)\)`, case-insensitive.
- `Ledger` (`ledger.dfy`): the `courses` part of the progress record, with
  `_is_lesson_completed` and `_mark_lesson_completed` as functions on values.
- `Catalogue` (`catalogue.dfy`): the `get_all_courses` walk as a recursive
  definition over a remote given as a function from page number to response.
- `Disk` (`disk.dfy`): the file system, as a map from path to entry, and
  `os.makedirs(..., exist_ok=True)`.
- `Layout` (`layout.dfy`): the loop in `main` that creates every module
  directory and fills `module_dir_map`.
- `Selection` (`selection.dfy`): `parse_selection_input`.
- `Downloader` (`downloader.dfy`):
  - the `Downloader` class: ledger, saved ledger versions and session
    requests as fields, with methods for `_mark_lesson_completed`,
    `_download_file`, the image-tag loop, `download_lesson` and
    `get_all_courses`;
  - the value-level effect of one lesson run (`LessonEffect`), which the
    methods are proved against.

Some functions take a parameter where the downloader calls a fixed
function:

- The image-tag pass (`TagPass`, `DownloadImageTags`) takes the image-name
  derivation as `derive`.
- The reference rewrite (`Rewrite`, `Localize`, `ImageFetches`) takes it
  as `name`.
- `Store` and `StoreLesson` pass `ImageName` to both.
- `DirMap` takes the list of module directories; `CreateModuleDirs` passes
  `ModulePaths`.
- `urljoin(BASE_URL, ·)` is always the parameter `join`.
- The outcome of each file transfer is the parameter `transport`.
- The catalogue's page responses are the parameter `fetch`.

Three behaviours of the code that a reader might not expect, all kept as written:

- A transfer that breaks off after the file was opened leaves a partial
  file behind (`Download(url, false)`). Later runs skip that file because
  it exists.
- An existing lesson page is marked completed without being fetched again.
- A missing page is fetched whatever the ledger says.

## Model

| member | source | states |
|---|---|---|
| Text.Strip | kodekloud_downloader.py:125 | the stripped text neither starts nor ends with whitespace and is the slice of the input that follows the leading whitespace |
| Text.StripCuts | kodekloud_downloader.py:125 | everything `strip` removes at either end is whitespace |
| Text.StripIdempotent | kodekloud_downloader.py:125 | stripping twice is stripping once |
| Text.StripEmptyIffAllSpace | kodekloud_downloader.py:359 | `not s.strip()` holds exactly when every character of `s` is whitespace |
| Text.SplitPiecesFree | kodekloud_downloader.py:363 | no piece of `s.split(sep)` contains the separator |
| Text.JoinSplit | kodekloud_downloader.py:363 | joining the pieces of a split with the separator gives the input back |
| Text.SplitOnce | kodekloud_downloader.py:370 | `split('-', 1)` gives a head without `-` and a tail, and head, `-` and tail make up the input |
| Text.DecimalInjective | kodekloud_downloader.py:98-99 | different integers print differently, so stringified ids identify their ids |
| Text.ParseDecimal | kodekloud_downloader.py:371 | `int(str(n)) == n` for every integer |
| Names.DropForbidden | kodekloud_downloader.py:125 | a character is in the result exactly when it is in the input and is not one of the nine forbidden characters; text without them is unchanged |
| Names.DropForbiddenAppend | kodekloud_downloader.py:125 | the kept characters keep their order: filtering a concatenation filters each part and concatenates the results |
| Names.SanitizeClean | kodekloud_downloader.py:124-125 | a sanitized name holds none of `\ / * ? : " < > \|` and has no whitespace at either end |
| Names.SanitizeIdempotent | kodekloud_downloader.py:124-125 | sanitizing a sanitized name changes nothing |
| Names.Basename | kodekloud_downloader.py:233 | the basename is the suffix after the last `/` and contains no `/` |
| Names.SplitExt | kodekloud_downloader.py:235 | base and extension concatenate to the name; the extension is non-empty exactly when the last path component has a dot preceded by some other character, and it then runs from the last dot to the end, with no further dot and no `/` |
| Names.RenamedDiffers | kodekloud_downloader.py:234-236 | a renamed image name is longer than, and so different from, the name it replaces |
| Names.RenamedKeepsExtension | kodekloud_downloader.py:234-236 | `f"{base}_{n}{ext}"` has the same `splitext` extension as the name it was built from |
| Names.Unquote | kodekloud_downloader.py:233 | unquoting never lengthens a string and leaves text without `%` unchanged |
| Names.UnquoteQuote | kodekloud_downloader.py:233 | unquoting undoes percent-escaping of ASCII text |
| Names.BeforeQuery | kodekloud_downloader.py:233 | `url.split('?')[0]` is the longest prefix of the URL without `?` |
| Names.BeforeQueryOf | kodekloud_downloader.py:278 | everything from the first `?` on is ignored |
| Names.ImageNameOfPlainUrl | kodekloud_downloader.py:278 | an image URL whose last path component is a clean name is saved under that component, whatever its query |
| Names.ImageNameExample | kodekloud_downloader.py:278 | `https://host/path/img.png?x=1` is saved as `img.png` |
| Names.PdfName | kodekloud_downloader.py:300 | a PDF's local name contains no `/` |
| Names.JoinInside | kodekloud_downloader.py:187 | joining a directory without a trailing `/` and a name without `/` adds one separator, and the basename of the result is the name |
| Names.ModuleDirOrdinal | kodekloud_downloader.py:496 | the text before the first dot of a module directory name parses as the module's 1-based position |
| Names.ModuleDirNamesDistinct | kodekloud_downloader.py:496 | modules at different positions get different directory names, even with equal titles |
| Markdown.CloseParenFirst | kodekloud_downloader.py:247 | the lazy URL group closes at the first `)` reachable on the same line (for the PDF pattern, the first one after text ending in `.pdf`), and no such `)` exists when it fails |
| Markdown.CloseBracketFirst | kodekloud_downloader.py:247 | the lazy alt-text group closes at the first `](` on the same line whose URL group can close, and at none when it fails |
| Markdown.ImageMatchAtExact | kodekloud_downloader.py:247 | the match found at a position is the one the backtracking engine reports there (shortest alt text, then shortest URL), and none is found exactly when the pattern cannot match there |
| Markdown.ScanFromSkips | kodekloud_downloader.py:283 | where the pattern matches at no position of a stretch, `re.sub` passes that stretch through character by character |
| Markdown.ScanFromMatch | kodekloud_downloader.py:283 | where the engine's match starts, it becomes one piece with its two groups, and scanning resumes after its `)` |
| Markdown.ScanFindsReference | kodekloud_downloader.py:247-283 | a reference `![alt](url)` in running text, with no `]` in the alt text and no `)` in the URL, is found when no match starts before it: the text before it passes through, then comes the reference, then the rest |
| Markdown.ScanFromOneLine | kodekloud_downloader.py:247 | no matched group spans a line, and no URL group holds `)` |
| Markdown.ScanFromRender | kodekloud_downloader.py:283 | the scanner loses and invents nothing: rendering the pieces gives back the scanned text |
| Markdown.ScanRender | kodekloud_downloader.py:283 | the same for the whole text |
| Markdown.Unbackslash | kodekloud_downloader.py:266 | `replace('\\' + c, c)` never lengthens a string and leaves text without backslashes unchanged |
| Markdown.UnescapeRecoversUrl | kodekloud_downloader.py:266 | undoing `\_` and `\*` recovers a URL from the converter's escaped form |
| Markdown.Resolve | kodekloud_downloader.py:266-276 | a resolved URL starts with `http`; after unescaping, an `http` URL is used as it is; a root-relative URL or another scheme's `://` URL is left alone; any other URL is fetched exactly when `urljoin` makes it `http`, and then from the joined URL |
| Markdown.Localize | kodekloud_downloader.py:249-281 | text outside matches is kept; a match keeps its alt text; an unresolved match is kept as it is; a resolved one points to the image's local name |
| Markdown.LocalizeAll | kodekloud_downloader.py:283 | every piece is localized on its own, in order |
| Markdown.ImageFetchesAppend | kodekloud_downloader.py:278-283 | the downloads of consecutive parts of the text are those of each part, in order |
| Markdown.ImageFetchesPiece | kodekloud_downloader.py:268-279 | one piece asks for one download, its resolved URL under its derived name, when it is a reference whose URL resolves, and for none otherwise |
| Markdown.RewriteFindsReference | kodekloud_downloader.py:249-283 | such a reference whose URL resolves is rewritten to `![alt](localname)`, the text before it is kept, and the rest is rewritten on its own |
| Markdown.FetchesFindReference | kodekloud_downloader.py:278-283 | and its image is the first download, before those of the rest of the text |
| Markdown.RewriteUnchanged | kodekloud_downloader.py:268-276 | text in which no reference resolves is rewritten byte for byte the same, and nothing is fetched |
| Markdown.ScanOneReference | kodekloud_downloader.py:247 | a lone reference with no `]` in its alt text and no `)` in its URL is one match |
| Markdown.RewriteOneReference | kodekloud_downloader.py:249-283 | a lone resolving reference becomes `![alt](localname)` with the same alt text, and its image is the one download |
| Markdown.RewriteHttpReference | kodekloud_downloader.py:266-281 | `![alt](https://host/path/img.png?q)` becomes `![alt](img.png)` and is fetched from the full URL |
| Markdown.PdfMatchAtExact | kodekloud_downloader.py:305 | the PDF link found at a position is the one the engine reports there (shortest text, then the shortest URL ending in `.pdf` in any letter case), and none is found exactly when the pattern cannot match there |
| Markdown.PdfLinksSkips | kodekloud_downloader.py:306 | `findall` moves on one character where the pattern cannot match |
| Markdown.PdfLinksMatch | kodekloud_downloader.py:306 | where the engine's match starts, its URL group is listed and the search resumes after its `)` |
| Markdown.PdfLinksNone | kodekloud_downloader.py:306 | text in which the pattern matches nowhere has no PDF links |
| Markdown.PdfFindsLink | kodekloud_downloader.py:305-306 | a link `[text](url.pdf)` in running text, with no `]` in the text and no `)` in the URL, is found when no match starts before it: its URL is listed first, then the links after it |
| Catalogue.Next | kodekloud_downloader.py:138-152 | the walk goes on only after a 200 response with courses and a truthy `next_page`, to that page |
| Catalogue.Visited | kodekloud_downloader.py:134-158 | the walk starts at the first page and makes at most `fuel` requests |
| Catalogue.CollectIsConcat | kodekloud_downloader.py:134-158 | the catalogue is the concatenation, in request order, of the course lists of the pages requested |
| Catalogue.CollectFuelIndependent | kodekloud_downloader.py:134 | once the walk is known to stop, a larger request bound changes neither the pages nor the catalogue |
| Catalogue.StopsAtFailure | kodekloud_downloader.py:138-145 | a failed, non-200 or empty page is the last request and contributes nothing |
| Catalogue.ConcatContains | kodekloud_downloader.py:147 | every course on a requested page is in the catalogue |
| Ledger.MarkedCompletes | kodekloud_downloader.py:95-122 | after marking, the lesson reads as completed |
| Ledger.MarkedExactly | kodekloud_downloader.py:95-122 | marking keeps every completed lesson and completes no lesson but the one marked |
| Ledger.MarkedWhenCompleted | kodekloud_downloader.py:116-120 | marking a completed lesson leaves the ledger as it was |
| Ledger.MarkedIdempotent | kodekloud_downloader.py:101-122 | marking twice is marking once, whatever title the second call passes |
| Ledger.MarkedWellFormed | kodekloud_downloader.py:119-120 | lesson lists stay free of repeats |
| Ledger.MarkedLeavesRest | kodekloud_downloader.py:103-117 | the title is written only when the course entry is created; `completed_modules`, other courses and other modules are left alone |
| Disk.MakeDir | kodekloud_downloader.py:498 | the path exists afterwards and existing entries are kept |
| Disk.MakeDirsHas | kodekloud_downloader.py:494-498 | every path asked for exists afterwards |
| Disk.MakeDirsKeeps | kodekloud_downloader.py:494-498 | existing entries are kept; whatever is new is a directory that was asked for |
| Layout.CreateModuleDirs | kodekloud_downloader.py:493-499 | the loop leaves the map and the files described by `DirMap` and `Created` |
| Layout.DirMapKeys | kodekloud_downloader.py:499 | the map has an entry for the id of every module and for no other id |
| Layout.DirMapLastWins | kodekloud_downloader.py:499 | an id maps to the directory of the last module carrying it |
| Layout.ModuleDirOfLast | kodekloud_downloader.py:494-499 | the directory recorded for an id is the numbered directory of the last module with that id |
| Layout.DirMapSource | kodekloud_downloader.py:499 | every entry of the map comes from a module with that id |
| Layout.CreatedDirs | kodekloud_downloader.py:494-498 | every module gets its directory, selected or not; existing entries are kept; anything new is a module directory |
| Layout.DirMapCreated | kodekloud_downloader.py:506 | the directory looked up for a module id exists |
| Layout.ModuleDirsDistinct | kodekloud_downloader.py:496-497 | modules at different positions get different directories, under any course directory |
| Selection.Range | kodekloud_downloader.py:375 | `range(lo, hi)` holds exactly the integers from `lo` up to but not including `hi` |
| Selection.PartIndices | kodekloud_downloader.py:366-382 | every index a part selects lies in `[0, max)` |
| Selection.SpanIndices | kodekloud_downloader.py:371-375 | every index a range selects lies in `[0, max)` |
| Selection.SingleIndices | kodekloud_downloader.py:378-382 | a single number selects an index in `[0, max)` |
| Selection.OutcomesAt | kodekloud_downloader.py:366 | the `k`-th outcome is that of the `k`-th part |
| Selection.Ascending | kodekloud_downloader.py:384 | `sorted` gives a strictly increasing list holding exactly the members in range |
| Selection.ParseSelection | kodekloud_downloader.py:349-387 | `None` exactly when the selection fails; otherwise a strictly increasing list of indices in `[0, max)` holding exactly the selected indices |
| Selection.Gather | kodekloud_downloader.py:362-383 | the loop gives the union of the parts' indices, or `None` from the first failing part |
| Selection.OutcomesFail | kodekloud_downloader.py:372-381 | one failing part fails the whole input, whatever follows it |
| Selection.CombineNone | kodekloud_downloader.py:366-382 | the parts fail together exactly when one of them fails |
| Selection.CombineMembers | kodekloud_downloader.py:375-382 | on success an index is selected exactly when some part selects it |
| Selection.SelectedNone | kodekloud_downloader.py:359-387 | `None` exactly for blank input or when some part is malformed or out of range |
| Selection.SelectedMembers | kodekloud_downloader.py:362-384 | on success the selection is the union of what the parts select |
| Selection.PartNumber | kodekloud_downloader.py:378-382 | `n` selects `n - 1` when `1 <= n <= max` and fails otherwise |
| Selection.PartRange | kodekloud_downloader.py:368-375 | `a-b` selects `a - 1 .. b - 1` when `1 <= a <= b <= max` and fails otherwise |
| Selection.SplitRange | kodekloud_downloader.py:370 | `"a-b"` splits at its first `-` into the two numbers |
| Selection.ParseStripped | kodekloud_downloader.py:371 | `int(str(n).strip()) == n` |
| Downloader.Fetch | kodekloud_downloader.py:329-346 | an existing path is neither requested nor touched; otherwise the URL is requested once, a completed transfer leaves the full download at the path, a broken-off one a partial download, and a refused one no file; no other file changes |
| Downloader.FetchAllKeeps | kodekloud_downloader.py:329-332 | a list of downloads leaves the ledger alone, only appends requests and alters no existing file |
| Downloader.FetchAllComplete | kodekloud_downloader.py:336-344 | every download that completes leaves its file in place |
| Downloader.FetchAllOnlyJobs | kodekloud_downloader.py:329-346 | only paths of the download list appear |
| Downloader.TagName | kodekloud_downloader.py:233-236 | the derived name is kept exactly when no earlier image holds it; otherwise the image gets `base_<len(image_map)>ext` of the derived name |
| Downloader.TagNameKeepsExtension | kodekloud_downloader.py:235-236 | the name given to an image keeps the derived name's extension |
| Downloader.TagPass | kodekloud_downloader.py:225-239 | the pass performs at most one download per tag |
| Downloader.TagPassCounts | kodekloud_downloader.py:227-239 | there is exactly one download per tag with a non-empty `src` |
| Downloader.TagPassNames | kodekloud_downloader.py:233-236 | each recorded name is the URL's derived name or that name renamed with a counter |
| Downloader.TagPassExtension | kodekloud_downloader.py:233-236 | each recorded name keeps the extension of the URL's derived name |
| Downloader.TagPassRecorded | kodekloud_downloader.py:238-239 | every URL in `image_map` was downloaded to the path of its recorded name |
| Downloader.TagNameCollides | kodekloud_downloader.py:234-236 | when both the derived name and its rename are taken, the tag gets a name some URL already holds |
| Downloader.TagPassCollides | kodekloud_downloader.py:234-239 | in that case the tag's download targets the path of an earlier download |
| Downloader.PdfSavedInDir | kodekloud_downloader.py:300-301 | each PDF is saved directly in the module directory under a name without `/` |
| Downloader.StagesRequests | kodekloud_downloader.py:222-312 | the steps for delivered content only append requests |
| Downloader.StagesPage | kodekloud_downloader.py:285-312 | the page written before the PDF downloads is still there at the end |
| Downloader.StagesLedger | kodekloud_downloader.py:290 | the ledger changes once, by this lesson, and is saved once |
| Downloader.StagesFile | kodekloud_downloader.py:329-332 | any other file that was there before is still there, unchanged |
| Downloader.LessonSkipsExisting | kodekloud_downloader.py:189-195 | an existing page means no request and no file change, and the lesson ends up marked (saved only if it was not marked before) |
| Downloader.LessonFetchesMissing | kodekloud_downloader.py:197-206 | a missing page is always requested first, whatever the ledger says |
| Downloader.LessonNotDelivered | kodekloud_downloader.py:208-216 | without delivered content (failure, other status, empty body) only the lesson request happens |
| Downloader.LessonDelivered | kodekloud_downloader.py:285-290 | delivered content is written as the title heading plus the rewritten Markdown, and the lesson is marked and saved once |
| Downloader.LessonKeepsFiles | kodekloud_downloader.py:190-195 | a lesson run never alters a file that was there before |
| Downloader.LessonLedger | kodekloud_downloader.py:193-194 | the ledger only grows, and by this lesson at most |
| Downloader.Downloader.constructor | kodekloud_downloader.py:76-84 | a missing or unreadable progress file gives an empty ledger; nothing is saved or requested yet |
| Downloader.Downloader.MarkLessonCompleted | kodekloud_downloader.py:101-122 | the ledger becomes `Marked` of the old one, is saved once, and the lesson reads as completed |
| Downloader.Downloader.DownloadFile | kodekloud_downloader.py:329-346 | the new state is `Fetch` of the old one |
| Downloader.Downloader.DownloadAll | kodekloud_downloader.py:307-312 | the new state is `FetchAll` of the old one |
| Downloader.Downloader.DownloadImageTags | kodekloud_downloader.py:224-239 | `image_map` and the downloads are those of `TagPass` |
| Downloader.Downloader.DownloadLesson | kodekloud_downloader.py:174-201 | the new state is `LessonEffect` of the old one |
| Downloader.Downloader.FetchLesson | kodekloud_downloader.py:203-216 | the new state is `Fetched` of the old one |
| Downloader.Downloader.StoreLesson | kodekloud_downloader.py:216-312 | the new state is `Store` of the old one |
| Downloader.Downloader.GetAllCourses | kodekloud_downloader.py:127-158 | the result is `Collect` of the remote and one request is issued per visited page, in order |

## Left out

- HTTP transport, streaming and progress bars in `_download_file`. The outcome of each transfer is the parameter `transport`; the bytes are not modelled.
- Foreign libraries: BeautifulSoup's HTML detection, `find_all` of `img` and PDF anchors, and `markdownify`. Their results are fields of `LessonBody`.
- `urljoin(BASE_URL, ·)`. It is the parameter `join`, and nothing is assumed about the URL it returns. It is assumed never to raise. `urljoin` raises `ValueError` for a malformed host such as `//[x` (lines 231, 273, 298, 309). The lesson-level `except` at lines 319-320 then ends the lesson after the downloads already made: no page is written, the lesson is not marked, and later images and PDFs are not fetched. The model always completes `Store`.
- Names.Unquote: only `%XX` escapes of ASCII characters are decoded. Multi-byte UTF-8 escapes are kept as they are.
- Text.ParseInt: only ASCII digits are accepted. Python's `int` also accepts other Unicode decimal digits.
- `_save_progress`: the timestamp and the JSON encoding. Each save is recorded as the ledger version written (`saved`).
- Malformed progress files beyond "missing or unreadable". A record whose `courses` part has the wrong shape is not modelled.
- Cookie and token loading, and session headers. These are authentication glue with no behaviour to state.
- `main`'s prompts, menus and summary, and `get_course_details`. Only the module-directory loop is modelled.
- Errors raised by file writes and by `os.makedirs`. The model treats them as succeeding.
- Lessons, modules or courses without an `id` or `title` key. Ids are integers and titles are strings in the model. The defaults `'Unknown Lesson'` (line 176) and `'Unknown Module'` (lines 495, 503) are not modelled.
- Directories above the course directory, which `os.makedirs` would also create. Only the module directories are tracked.
- Downloader.Downloader.GetAllCourses: it requires a bound within which the remote ends the walk, because the source does not guard against a `next_page` that cycles. The contract covers only remotes that stop.
- Remote answers are deterministic: `fetch` and `transport` are functions, so asking twice gives the same answer.
- The bytes and size of a partial file. It is recorded only as `Download(url, false)`.
- The image-tag rename does not check the renamed name again. The model keeps this as written. `TagPassCollides` shows the resulting overwrite of an earlier image's path, or the skip when that path exists.
- Downloader.Fetch: paths are compared as literal strings, where `os.path.exists` (line 330) resolves them. A download path `dir/`, `dir/.` or `dir/..` names an existing directory to the source, so the source skips it. In the model it is a new key, so the model requests it and writes a file there. This happens for an image whose derived name is empty, `.` or `..`, for example a URL ending in `/`.
