# tululu crawler, modelled in Dafny

The crawler downloads free books from tululu.org in two ways.

- **By id (`main.py`).** For every id in `range(start_id, end_id)` it
  - fetches the book page `/b{id}/`;
  - rejects error statuses (`raise_for_status`) and redirects (`raise_if_redirect`);
  - parses the page into a `ParsedBook` (title, author, genre, cover, comments);
  - downloads the text `"{id}. {title}.txt"` into `BOOKS_PATH`;
  - downloads the cover into `IMAGES_PATH`.

  A redirect skips the rest of that id. Any other exception ends the run.
- **By category (`parse_tululu_category.py`).**
  - It checks the page range.
  - It walks the category's listing pages `/l{category}/{page}/` from `start_page` to `end_page` and collects each book's link, resolved against the page URL. A redirect ends the walk. An HTTP or connection error skips the page.
  - For every link it reads the book id from the path, fetches and parses the book page, and downloads the text and the cover unless `--skip_txt` or `--skip_imgs` says otherwise. It keeps the record only when that whole block succeeds.
  - Finally it writes all kept records to `books_metadata.json` under `dest_folder`.

## Modules

- `PyStr` (pystr.dfy): the Python string and path primitives the crawler uses, each specified by what it means:
  - `str.strip`;
  - `str.split(sep)[0]`;
  - `str(int)`, with its inverse;
  - `os.path.split(p)[1]`;
  - POSIX `os.path.join`.
- `Http` (http.dfy): the outcome of a `requests.get` and how the crawler turns it into an exception.
  - `raise_for_status` raises for 4xx and 5xx only.
  - `raise_if_redirect` raises when there is a redirect history.
  - The exception hierarchy is modelled, with `RedirectDetectedError` as a subclass of `HTTPError`.
  - Python's top-to-bottom choice of `except` clause is `FirstMatch`.
- `Downloads` (downloads.dfy): `download_txt` and `download_image`.
  - The local disk is a `Disk` object whose folders and files the methods change in place.
  - The pure functions `TxtDownload` and `ImageDownload` list the effects of one call.
  - `Apply` says what those effects do to the disk.
- `ParsedBook` (parsed_book.dfy): the properties of `ParsedBook` on the text that the DOM queries return.
- `OptionSeqs` (option_seqs.dfy): the present values of a sequence of options, with their positions, used to state which books a run keeps and in what order.
- `BookRange` (book_range.dfy): main.py's `main`.
  - `MainRun` is the whole run as a function.
  - `DownloadRange` is the loop on the disk, proved equal to it.
- `CategoryWalk` (category_walk.dfy): the page checks and `parse_category`.
  - `WalkFrom` specifies the walk.
  - `ParseCategory` is the `for` loop, proved equal to it.
- `CategoryBatch` (category_batch.dfy): the download loop, the manifest, and the whole of the category script's `main`.
  - `CategoryMain` specifies the script.
  - `DownloadCategory` performs it on the disk.

The network and the DOM are parameters.
- A fetch is a `Fetch` value: a connection failure, or a response with status, redirect history, text and content.
- Each page, text and cover request gets its `Fetch` from a function the caller supplies.
- `soup.select(...)`, `urljoin`, `urlsplit(...).path`, `sanitize_filename`, `parse_book_page` and `json.dump` are function parameters.

## Model

| member | source | states |
|---|---|---|
| PyStr.Strip | main.py:87 | the result is a contiguous slice of the input with only whitespace cut from both ends, and it neither starts nor ends with whitespace |
| PyStr.StripIdempotent | main.py:87 | stripping twice gives the same string as stripping once |
| PyStr.Find | main.py:87 | the result is the first position where the separator occurs, or -1 exactly when it does not occur |
| PyStr.BeforeFirst | main.py:87 | `split(sep)[0]` is a prefix that contains no separator and at no position of which a separator starts, so it is cut at the first occurrence; it is the whole string when there is no separator, and otherwise a separator follows it |
| PyStr.IntToString | main.py:49 | `str(n)` is non-empty and all digits, with a leading minus for negative `n`; it has no leading zero, and starts with `0` exactly when `n` is zero |
| PyStr.ParseIntToString | main.py:58 | `int(str(n)) == n` for every integer |
| PyStr.IntToStringInjective | parse_tululu_category.py:100 | distinct integers print differently |
| PyStr.Basename | main.py:100 | the last path component contains no `/`, and the path is a prefix ending in `/` (or empty) followed by it |
| PyStr.PathJoin | main.py:142 | joining an absolute name gives the name, and so does joining onto an empty folder; otherwise the result is the folder, then exactly one `/`, then the name, with no `/` added when the folder already ends in one |
| PyStr.JoinCases | parse_tululu_category.py:27 | joining a relative name gives the name onto an empty folder, folder and name when the folder ends in `/`, and folder, `/`, name otherwise |
| PyStr.BasenameOfJoin | main.py:142 | the last component of `os.path.join(folder, name)` is `name` when `name` contains no `/` |
| Http.FirstMatch | parse_tululu_category.py:116-128 | the chosen clause is the first whose class the exception is an instance of; no earlier clause matches; `None` means no clause matches |
| Http.RaiseForStatus | main.py:50 | raises `HTTPError` exactly for status codes 400 to 599 |
| Http.RaiseIfRedirect | main.py:184-185 | raises `RedirectDetectedError` exactly when the response history is non-empty |
| Http.GetChecked | main.py:49-51 | get, status check, redirect check: a connection failure, an error status, a redirect and success are told apart exactly, in that order of priority, and success returns the response |
| Http.GetStatusChecked | main.py:168-169 | get and status check only: a connection error, an `HTTPError` exactly on error statuses, and otherwise the response, redirected or not |
| Http.StatusOnlyDiffersOnRedirect | main.py:168-169 | the image fetch agrees with the fully checked fetch except that it accepts a redirected response, and it never raises `RedirectDetectedError` |
| Http.ErrorStatusWinsOverRedirect | main.py:50-51 | a redirected response with an error status raises `HTTPError`, not `RedirectDetectedError` |
| Http.ClauseOrderMatters | parse_tululu_category.py:116-124 | with the redirect clause first it catches the redirect; with `HTTPError` first that clause would take it; a plain `HTTPError` goes to the second clause |
| Downloads.ApplyAppend | main.py:141-148 | performing two runs of file-system effects one after the other equals performing their concatenation |
| Downloads.ApplyGrows | main.py:141-148 | folder creation and file writes never remove a folder or a file, and every written path exists afterwards |
| Downloads.WriteLast | parse_tululu_category.py:76-79 | after a run that ends with a write, the written path exists and holds exactly the data written last |
| Downloads.Disk.Mkdir | main.py:141 | the disk afterwards is the disk before with the folder added |
| Downloads.Disk.Write | main.py:147-148 | the disk afterwards is the disk before with the file written |
| Downloads.TxtDownload | main.py:126-149 | the folder is created first, even on failure; a returned path is `os.path.join(folder, filename)` and was written; a call that raised wrote no file; it succeeds exactly when the checked fetch does and raises that fetch's exception otherwise |
| Downloads.ImageDownload | main.py:152-174 | like the text download but status-checked only: it succeeds exactly when the status is not an error, raises the status check's exception otherwise, and never raises `RedirectDetectedError` |
| Downloads.DownloadEffects | main.py:126-174 | each download's effects are exactly: create the folder, then, only on success, write the fetched content to the returned path |
| Downloads.DownloadTxt | main.py:126-149 | the method's result and its change to the disk are those of `TxtDownload` |
| Downloads.DownloadImage | main.py:152-174 | the method's result and its change to the disk are those of `ImageDownload` |
| Downloads.DownloadedFileExists | main.py:142-149 | after a successful text download the returned path exists on disk, and its last component is the requested file name |
| ParsedBook.RawTitle | main.py:87 | the title contains no `::` and has no surrounding whitespace; a heading without `::` gives the stripped heading |
| ParsedBook.TitleOfHeading | main.py:87 | for a heading `name::rest` whose name contains no `::` and does not end in `:`, the title is the stripped name, whatever the rest is |
| ParsedBook.TitleExample | main.py:87 | the heading "Война :: и мир" gives the title "Война" |
| ParsedBook.ImageOf | main.py:96-104 | the cover URL is `src` joined onto the site root, and the file name is the last path component of `src` |
| ParsedBook.CommentTexts | main.py:106-110 | one text per comment block, the first span's text, in block order; `None` (the `AttributeError`) exactly when some block has no span |
| BookRange.BookIds | main.py:47 | `range(start, end)` holds exactly the ids from start up to but excluding end, in increasing order, and is empty when `start >= end` |
| BookRange.TxtFilenameStartsWithId | main.py:58 | the id can be read back from the text file name: the part before the first `". "` is `str(id)`, whatever the title |
| BookRange.ProcessId | main.py:48-63 | a book is appended exactly when the page fetch passes both checks, and it is the parse of that page; a step that raises nothing has a book |
| BookRange.ProcessIdRaises | main.py:48-63 | the step raises nothing exactly when page, text and cover all succeed; a failed page raises its exception with no book and no effect |
| BookRange.TextFailureSkipsCover | main.py:57-60 | a failed text download after a loaded page leaves only the created books folder, raises that download's exception, and requests no cover |
| BookRange.CoverFailureAfterText | main.py:57-63 | after the text is written as `"{id}. {title}.txt"` in the books folder, a failed cover adds only the images folder and raises the cover's exception |
| BookRange.TextThenCover | main.py:57-63 | when everything succeeds the effects are, in order: books folder, text `"{id}. {title}.txt"` in it, images folder, cover under its own file name in it |
| BookRange.UncaughtEndsRun | main.py:46-65 | once an exception escapes, later ids change nothing |
| BookRange.BooksComeFromFetchedPages | main.py:49-55 | there are no more books than ids, and every book is the parse of a page that some processed id fetched without error or redirect |
| BookRange.RunKeepsLoadedPages | main.py:46-55 | a run that has not ended holds, in id order, the parse of every page that loaded, whatever happened to the downloads after it |
| BookRange.BooksAreLoadedPagesInOrder | main.py:46-55 | in a run that has not ended, the `j`-th book comes from the `j`-th id whose page loaded, these ids are taken in increasing position, and every id whose page loaded has a book |
| BookRange.EmptyAndInvertedRanges | main.py:40-47 | `start_id == end_id` processes nothing; `start_id > end_id` raises the `ValueError` before any request |
| BookRange.RedirectHandling | main.py:54-65 | a redirect on the page skips the id with no book and no disk change; a redirect on the text keeps the appended book, leaves only the created folder, and skips the cover |
| BookRange.OtherErrorsEndRun | main.py:64-65 | any exception other than a redirect ends the run as uncaught; no exception, or a redirect, continues |
| BookRange.TryId | main.py:48-63 | one id's `try` block on the disk yields the book, the exception and the disk change of `ProcessId` |
| BookRange.DownloadRange | main.py:39-65 | the books, the exit and the final disk of `main` are those of `MainRun` |
| CategoryWalk.CheckPages | parse_tululu_category.py:20-23 | the range is accepted exactly when `0 < start <= end`; an inverted range gives the order message first, and otherwise the positivity message |
| CategoryWalk.CategoryUrlInjective | parse_tululu_category.py:100 | distinct (category, page) pairs have distinct listing URLs |
| CategoryWalk.CategoryHandlersCatchAll | parse_tululu_category.py:116-128 | every exception a page fetch raises is caught, and the redirect clause takes exactly the redirects |
| CategoryWalk.ResolveLinksAt | parse_tululu_category.py:111-115 | the link at each position is the `href` at that position resolved against the page URL |
| CategoryWalk.VisitPageFollowsClauses | parse_tululu_category.py:102-128 | a failed page stops the walk exactly when the first matching clause is the redirect clause, and is skipped otherwise |
| CategoryWalk.WalkVisitsConsecutivePages | parse_tululu_category.py:96-120 | the pages requested are `start..last` in order, each once, with `last <= end_page`; at least one page is requested when the range is non-empty |
| CategoryWalk.VisitedStep | parse_tululu_category.py:96-120 | the walk requests the current page and then, unless that page redirected, the pages of the walk from the next one |
| CategoryWalk.WalkStaysInRange | parse_tululu_category.py:96-97 | no page outside `start_page..end_page` is requested |
| CategoryWalk.WalkWithoutRedirectVisitsAll | parse_tululu_category.py:96-128 | without a redirect every page in the range is requested |
| CategoryWalk.WalkSplits | parse_tululu_category.py:95-115 | when no page up to `mid` redirects, the links are those up to `mid` followed by those after it |
| CategoryWalk.RedirectEndsWalk | parse_tululu_category.py:116-120 | a redirect on page `k` ends the walk: the links are those of the pages before `k`, and `k` is the last page requested |
| CategoryWalk.FailedPageIsSkipped | parse_tululu_category.py:121-128 | an HTTP or connection error adds no links, and the walk goes on with the next page |
| CategoryWalk.LinksComeFromLoadedPages | parse_tululu_category.py:103-115 | every collected link is an `href` of a page in range that loaded, resolved against that page's URL |
| CategoryWalk.ReadPage | parse_tululu_category.py:100-128 | the `try` block for one page, with its link loop, gives the page's outcome `VisitPage` |
| CategoryWalk.ParseCategory | parse_tululu_category.py:82-129 | the links and the pages requested by the loop are those of `WalkFrom` |
| CategoryBatch.BookId | parse_tululu_category.py:38 | `re.search(r"\d+", path).group()` is absent exactly when the path has no digit; otherwise it is a non-empty run of digits with no digit before it and none right after it |
| CategoryBatch.BookIdOfBookPagePath | parse_tululu_category.py:38 | for a non-negative id, the id read from a book page path `/b{id}/` is `str(id)` |
| CategoryBatch.ProcessBook | parse_tululu_category.py:39-59 | a record is kept exactly when the page loads and every download the flags ask for succeeds; an exception is raised exactly when no record is kept; a failed page touches no file |
| CategoryBatch.ReshapeFields | parse_tululu_category.py:46-58 | `book_path` is set when the text is downloaded; with a cover, `image_url` and `image_filename` are removed and `img_src` is set; every other field stays as parsed |
| CategoryBatch.KeptRecord | parse_tululu_category.py:39-59 | the kept record is the parsed record with `book_path` `os.path.join(<books folder>, "<title>.txt")` unless the text is skipped, and with `img_src` `os.path.join(<images folder>, <image_filename>)` in place of the image fields unless covers are skipped, and it is kept exactly when the block completes |
| CategoryBatch.KeptPathsWritten | parse_tululu_category.py:46-58 | `book_path` and `img_src` of a kept record are present unless skipped, and name files the block wrote |
| CategoryBatch.TryBook | parse_tululu_category.py:39-59 | the block on the disk, with the record changed in place, yields the record and the disk change of `ProcessBook` |
| CategoryBatch.StepStaysInFolders | parse_tululu_category.py:46-58 | one link's downloads create only the two download folders and write only paths `os.path.join`-ed onto them |
| CategoryBatch.BatchCatchesEveryException | parse_tululu_category.py:60-75 | every exception of the block is caught by one of its three clauses |
| CategoryBatch.CrashAtFirstLinkWithoutDigits | parse_tululu_category.py:37-38 | the loop ends early exactly when some link's path has no digit, and then at the first such link |
| CategoryBatch.CrashEndsBatch | parse_tululu_category.py:37-38 | once the loop has ended on a link without digits, later links change nothing |
| CategoryBatch.BatchKeepsCompleted | parse_tululu_category.py:36-75 | a loop that does not end early collects, in link order, the kept record of every link whose block completes, dropping the others |
| CategoryBatch.BooksAreCompletedLinksInOrder | parse_tululu_category.py:36-75 | `downloaded_books` has one record per completed link, in increasing link order, and the `j`-th record is the one kept from the `j`-th completed link's page |
| CategoryBatch.RecordPathsWritten | parse_tululu_category.py:46-59 | every `book_path` and `img_src` in `downloaded_books` is present unless skipped, and names a file the loop wrote |
| CategoryBatch.BatchStaysInFolders | parse_tululu_category.py:37-75 | the loop creates only the two download folders and writes only paths `os.path.join`-ed onto them |
| CategoryBatch.DownloadBooks | parse_tululu_category.py:36-75 | the records, the link the loop ended on and the final disk are those of `RunBatch` |
| CategoryBatch.OptionsOf | parse_tululu_category.py:25-29 | the skip flags are the arguments' flags; each download folder is its `BOOKS_PATH` or `IMAGES_PATH` name (or default) placed inside `dest_folder` after exactly one `/` (the one `dest_folder` ends in, if any), or the name itself when it is absolute or `dest_folder` is empty |
| CategoryBatch.DefaultLayout | parse_tululu_category.py:25-29 | with no environment settings the folders and the manifest are `downloaded_books`, `downloaded_images` and `books_metadata.json` for an empty `dest_folder` (the default); `dest_folder` followed directly by those names when it ends in `/`; and `dest_folder/` followed by them otherwise |
| CategoryBatch.PagesCheckedBeforeWalk | parse_tululu_category.py:20-35 | a rejected range requests no page and touches no file; an accepted one requests only positive pages inside it |
| CategoryBatch.ManifestWrittenOnceAtEnd | parse_tululu_category.py:76-79 | a finished run's effects are exactly the download loop's followed by one write of the manifest with the collected records, and the file then holds them; the loop's effects create the two download folders or write paths `os.path.join`-ed onto them; a run ended by a link without digits has exactly the loop's effects, so it writes no manifest |
| CategoryBatch.CategoryMainAfterWalk | parse_tululu_category.py:32-36 | an accepted range runs the download loop on the walk's links |
| CategoryBatch.DownloadCategory | parse_tululu_category.py:17-79 | how the script ends, the pages it requested, the records and the final disk are those of `CategoryMain` |

## Left out

- I/O is modelled as data.
  - The network is modelled by `Fetch` values. Request URLs, the `params={"id": book_id}` query and the timeout are not tracked.
  - The HTML DOM is not modelled. `BeautifulSoup` queries are parameters or fields of `BookPage`.
  - `urljoin`, `urlsplit(...).path`, `sanitize_filename` and `json.dump` are opaque function parameters.
- An `AttributeError` from a missing DOM element (a page without `h1`, without a cover, or an entry without `a`) is not modelled. The queries are assumed to find their elements. The exception is a comment block without a `span`, which `CommentTexts` models.
- `parse_book_page`: parse_tululu_category.py:13 imports it from main.py, which does not define it. It is a parameter of the model. `ParserShape` requires that its record holds string fields `title`, `image_url` and `image_filename`, so a missing key, and the `KeyError` it would raise, is not modelled. It also requires that the record's other fields never use the names `title`, `image_url`, `image_filename`, `book_path` or `img_src`.
- Only ASCII digits match `\d` in `BookId`. Python 3's `\d` also matches other Unicode decimal digits.
- `time.sleep` is left out: it has no effect on what is collected.
  - `CONNECTION_TIMEOUT` read from the environment is a string, which `time.sleep` would reject. That failure is not modelled.
- The `requests` exceptions modelled are `ConnectionError`, `HTTPError` and `RedirectDetectedError`. Timeouts and other `RequestException`s are not modelled.
- Argument parsing and `load_dotenv` are left out, as are the progress bars and console output (`tqdm`, `print`, the `--list` flag) and `ParsedBook.__str__`. The model starts from parsed arguments and an environment map.
- `parse_category`'s `end_page=None` default is never used by `main` and is not modelled.
- The manifest's `open` assumes `dest_folder` exists. A missing folder, which `open` would reject, is not modelled.
- A record is a map, so the key order of the dicts that `json.dump` writes to the manifest is not modelled: the parsed fields first, then `book_path` and `img_src`, with the image fields removed. Only the keys and values are.
- `os.makedirs` creates intermediate folders too. `MakeDirs` records only the folder named.
- `Disk.Write` and `Disk.Mkdir` always succeed. An `OSError` from `open` or `makedirs` is not modelled, for example an empty cover file name from a `src` ending in `/`, or a `/` left in a title.
- A parsed title or cover file name that is an absolute path is joined as `os.path.join` does, so it can name a file outside the download folders. The folder properties state this case as it is.
- `ParsedBook.Title`, `ParsedBook.Author` and `ParsedBook.Genre` have no contracts of their own. They only apply `sanitize_filename` to the extracted text, and their properties are stated through `RawTitle`.
- `CategoryBatch.ProcessBook` builds the kept record at the end instead of mutating it step by step. `CategoryBatch.TryBook` mutates it in place as the source does, and is proved to agree.
- Behaviour the model follows as the code has it, which a reader of the program's documentation might not expect:
  - only 4xx and 5xx statuses are errors;
  - a connection error in the category script skips the page or the book and does not retry it;
  - the walk does not stop at an empty listing page, only at a redirect;
  - a failed cover download drops the record even though its text file stays on disk;
  - main.py catches only `RedirectDetectedError`;
  - a link whose path has no digit raises outside the `try`, which ends the script without writing the manifest.
