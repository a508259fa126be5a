/** main.py's `main`: download every book whose id lies in
    `range(start_id, end_id)`. For each id the book page is fetched and
    checked, the parsed book is appended to `downloaded_books`, and then its
    text and its cover are downloaded. Only `RedirectDetectedError` is
    caught (and skips the rest of that id); any other exception ends the
    run. */
module BookRange {
  import opened Http
  import opened PyStr
  import opened Downloads
  import opened ParsedBook
  import opened OptionSeqs

  const ORDER_MESSAGE := "End ID must be greater than start ID!"

  /** How `main` ends: normally, with the `ValueError` of the id check, or
      with an exception no clause catches. */
  datatype Exit = Completed | ValueError(message: string) | Uncaught(exception: Exception)

  /** The `except` clauses around each id's work. */
  const MainHandlers: seq<ExceptionClass> := [RedirectDetectedErrorClass]

  /** `os.getenv(key, default)`. */
  function GetEnv(env: map<string, string>, key: string, default: string): string {
    if key in env then env[key] else default
  }

  /** The configuration `main` reads, and the collaborators it calls:
      `extract` stands for the DOM queries of `ParsedBook` on a page's HTML. */
  datatype Config = Config(
    booksFolder: string,
    imagesFolder: string,
    extract: string -> BookPage,
    sanitize: string -> string,
    urljoin: (string, string) -> string)

  function ConfigOf(env: map<string, string>, extract: string -> BookPage,
                    sanitize: string -> string, urljoin: (string, string) -> string): Config
  {
    Config(GetEnv(env, "BOOKS_PATH", "downloaded_books"),
           GetEnv(env, "IMAGES_PATH", "downloaded_images"),
           extract, sanitize, urljoin)
  }

  /** `range(start_id, end_id)`: the ids from `startId` up to but excluding
      `endId`. */
  function BookIds(startId: int, endId: int): (ids: seq<int>)
    ensures |ids| == if startId <= endId then endId - startId else 0
    ensures forall i :: 0 <= i < |ids| ==> ids[i] == startId + i
    ensures forall id :: id in ids <==> startId <= id < endId
  {
    if startId < endId then
      var ids := seq(endId - startId, i => startId + i);
      forall id | startId <= id < endId
        ensures id in ids
      {
        assert ids[id - startId] == id;
      }
      ids
    else []
  }

  /** The path of a book's page, `/b{book_id}/`. */
  function BookPagePath(id: int): string {
    "/b" + IntToString(id) + "/"
  }

  /** The text file's name, `"{book_id}. {title}.txt"`. */
  function TxtFilename(id: int, title: string): string {
    IntToString(id) + ". " + title + ".txt"
  }

  /** The book id can be read back from the front of its text file's name,
      whatever the title. */
  lemma TxtFilenameStartsWithId(id: int, title: string)
    ensures var name := TxtFilename(id, title);
            var head := BeforeFirst(name, ". ");
            head == IntToString(id) && ParseInt(head) == id
  {
    IntToStringChars(id, '.');
    assert TxtFilename(id, title) == IntToString(id) + ". " + (title + ".txt");
    SplitAfterPrefix(IntToString(id), ". ", title + ".txt");
    ParseIntToString(id);
  }

  /** What the network delivers for one id: its page, its text, its cover. */
  datatype IdNet = IdNet(page: Fetch, txt: Fetch, image: Fetch)

  /** What the `try` block for one id does: the book it appends, the file
      system effects of its downloads, and the exception it ends with. */
  datatype IdStep = IdStep(book: Option<BookPage>, effects: seq<Effect>, raised: Option<Exception>)

  function ProcessId(id: int, net: IdNet, cfg: Config): (s: IdStep)
    ensures s.book.Some? <==> GetChecked(net.page).Ok?
    ensures s.book.Some? ==> s.book.value == cfg.extract(GetChecked(net.page).value.text)
    ensures s.raised.None? ==> s.book.Some?
  {
    match GetChecked(net.page)
    case Raised(e) => IdStep(None, [], Some(e))
    case Ok(resp) =>
      var book := cfg.extract(resp.text);
      var txt := TxtDownload(cfg.booksFolder, TxtFilename(id, Title(book, cfg.sanitize)), net.txt);
      if txt.result.Raised? then IdStep(Some(book), txt.effects, Some(txt.result.exception))
      else
        var image := ImageDownload(cfg.imagesFolder, ImageOf(book, cfg.urljoin).filename, net.image);
        IdStep(Some(book), txt.effects + image.effects,
               if image.result.Raised? then Some(image.result.exception) else None)
  }

  /** The id's exception is the first failure of page, text and cover, in
      that order: the step raises nothing exactly when all three succeed, and
      a page that fails raises before anything is appended or downloaded. */
  lemma ProcessIdRaises(id: int, net: IdNet, cfg: Config)
    ensures var s := ProcessId(id, net, cfg);
            s.raised.None? <==> GetChecked(net.page).Ok? && GetChecked(net.txt).Ok? && GetStatusChecked(net.image).Ok?
    ensures GetChecked(net.page).Raised? ==>
              ProcessId(id, net, cfg) == IdStep(None, [], Some(GetChecked(net.page).exception))
  {
  }

  /** A text download that fails after the page loaded leaves only the
      created books folder, and the cover is not requested. */
  lemma TextFailureSkipsCover(id: int, net: IdNet, cfg: Config)
    requires GetChecked(net.page).Ok? && GetChecked(net.txt).Raised?
    ensures var s := ProcessId(id, net, cfg);
            s.effects == [MakeDirs(cfg.booksFolder)] && s.raised == Some(GetChecked(net.txt).exception)
  {
    var book := cfg.extract(GetChecked(net.page).value.text);
    DownloadEffects(cfg.booksFolder, TxtFilename(id, Title(book, cfg.sanitize)), net.txt);
  }

  /** With the text saved as `"{id}. {title}.txt"` in the books folder, the
      cover is requested next; when it fails, only its folder is added. */
  lemma CoverFailureAfterText(id: int, net: IdNet, cfg: Config)
    requires GetChecked(net.page).Ok? && GetChecked(net.txt).Ok? && GetStatusChecked(net.image).Raised?
    ensures var book := cfg.extract(GetChecked(net.page).value.text);
            var txtPath := PathJoin(cfg.booksFolder, TxtFilename(id, Title(book, cfg.sanitize)));
            var s := ProcessId(id, net, cfg);
            s.effects == [MakeDirs(cfg.booksFolder), WriteFile(txtPath, net.txt.response.content), MakeDirs(cfg.imagesFolder)] &&
            s.raised == Some(GetStatusChecked(net.image).exception)
  {
    var book := cfg.extract(GetChecked(net.page).value.text);
    DownloadEffects(cfg.booksFolder, TxtFilename(id, Title(book, cfg.sanitize)), net.txt);
    DownloadEffects(cfg.imagesFolder, ImageOf(book, cfg.urljoin).filename, net.image);
  }

  /** When everything succeeds, the text `"{id}. {title}.txt"` is written in
      the books folder, and then the cover under its own file name in the
      images folder, each after its folder is created. */
  lemma TextThenCover(id: int, net: IdNet, cfg: Config)
    requires GetChecked(net.page).Ok? && GetChecked(net.txt).Ok? && GetStatusChecked(net.image).Ok?
    ensures var book := cfg.extract(GetChecked(net.page).value.text);
            var txtPath := PathJoin(cfg.booksFolder, TxtFilename(id, Title(book, cfg.sanitize)));
            var imagePath := PathJoin(cfg.imagesFolder, ImageOf(book, cfg.urljoin).filename);
            ProcessId(id, net, cfg).effects ==
              [MakeDirs(cfg.booksFolder), WriteFile(txtPath, net.txt.response.content),
               MakeDirs(cfg.imagesFolder), WriteFile(imagePath, net.image.response.content)]
  {
    var book := cfg.extract(GetChecked(net.page).value.text);
    var txtName := TxtFilename(id, Title(book, cfg.sanitize));
    var imageName := ImageOf(book, cfg.urljoin).filename;
    var txt := TxtDownload(cfg.booksFolder, txtName, net.txt);
    var image := ImageDownload(cfg.imagesFolder, imageName, net.image);
    assert ProcessId(id, net, cfg).effects == txt.effects + image.effects;
    DownloadEffects(cfg.booksFolder, txtName, net.txt);
    DownloadEffects(cfg.imagesFolder, imageName, net.image);
    var writeTxt := WriteFile(PathJoin(cfg.booksFolder, txtName), net.txt.response.content);
    var writeImage := WriteFile(PathJoin(cfg.imagesFolder, imageName), net.image.response.content);
    assert txt.effects == [MakeDirs(cfg.booksFolder), writeTxt];
    assert image.effects == [MakeDirs(cfg.imagesFolder), writeImage];
    ConcatPairs(MakeDirs(cfg.booksFolder), writeTxt, MakeDirs(cfg.imagesFolder), writeImage);
  }

  lemma ConcatPairs<T>(a: T, b: T, c: T, d: T)
    ensures [a, b] + [c, d] == [a, b, c, d]
  {
  }

  /** The state of the run: `downloaded_books`, the effects so far, and
      whether it has ended. */
  datatype Run = Run(books: seq<BookPage>, effects: seq<Effect>, exit: Exit)

  /** The run after the ids `ids`, in order. */
  function RunIds(ids: seq<int>, net: int -> IdNet, cfg: Config): Run
    decreases |ids|
  {
    if ids == [] then Run([], [], Completed)
    else
      var prev := RunIds(ids[..|ids| - 1], net, cfg);
      if prev.exit != Completed then prev
      else NextId(prev, ids[|ids| - 1], net, cfg)
  }

  function NextId(prev: Run, id: int, net: int -> IdNet, cfg: Config): Run {
    Advance(prev, ProcessId(id, net(id), cfg))
  }

  /** The loop's bookkeeping after one id's `try` block: append the book if
      there is one, and end the run if the exception escapes. */
  function Advance(prev: Run, step: IdStep): Run {
    var books := prev.books + if step.book.Some? then [step.book.value] else [];
    var effects := prev.effects + step.effects;
    match step.raised
    case None => Run(books, effects, Completed)
    case Some(e) =>
      if FirstMatch(e, MainHandlers).Some? then Run(books, effects, Completed)
      else Run(books, effects, Uncaught(e))
  }

  /** The whole of `main`, from the id check to the end of the loop. */
  function MainRun(startId: int, endId: int, net: int -> IdNet, cfg: Config): Run {
    if startId > endId then Run([], [], ValueError(ORDER_MESSAGE))
    else RunIds(BookIds(startId, endId), net, cfg)
  }

  /** Once an exception escapes, no later id is looked at. */
  lemma {:induction false} UncaughtEndsRun(ids: seq<int>, later: seq<int>, net: int -> IdNet, cfg: Config)
    requires RunIds(ids, net, cfg).exit != Completed
    ensures RunIds(ids + later, net, cfg) == RunIds(ids, net, cfg)
    decreases |later|
  {
    if later == [] {
      assert ids + later == ids;
    } else {
      var init := later[..|later| - 1];
      assert (ids + later)[..|ids + later| - 1] == ids + init;
      UncaughtEndsRun(ids, init, net, cfg);
    }
  }

  /** Every book in `downloaded_books` is the parse of a page that one of
      the processed ids fetched without error or redirect, and there are no
      more books than ids. */
  lemma {:induction false} BooksComeFromFetchedPages(ids: seq<int>, net: int -> IdNet, cfg: Config)
    ensures |RunIds(ids, net, cfg).books| <= |ids|
    ensures forall b :: b in RunIds(ids, net, cfg).books ==>
              exists id :: id in ids && GetChecked(net(id).page).Ok? &&
                           b == cfg.extract(GetChecked(net(id).page).value.text)
    decreases |ids|
  {
    if ids != [] {
      var init := ids[..|ids| - 1];
      var id := ids[|ids| - 1];
      BooksComeFromFetchedPages(init, net, cfg);
      assert forall x :: x in init ==> x in ids;
      var prev := RunIds(init, net, cfg);
      if prev.exit == Completed {
        var step := ProcessId(id, net(id), cfg);
        forall b | b in RunIds(ids, net, cfg).books
          ensures exists x :: x in ids && GetChecked(net(x).page).Ok? &&
                              b == cfg.extract(GetChecked(net(x).page).value.text)
        {
          if b !in prev.books {
            assert b == step.book.value;
          }
        }
      }
    }
  }

  /** The book an id contributes: the parse of its page when the page
      loads without error or redirect. */
  function PageBook(id: int, net: int -> IdNet, cfg: Config): Option<BookPage> {
    if GetChecked(net(id).page).Ok? then Some(cfg.extract(GetChecked(net(id).page).value.text)) else None
  }

  /** The contribution of every id, position by position. */
  function PageBooks(ids: seq<int>, net: int -> IdNet, cfg: Config): (r: seq<Option<BookPage>>)
    ensures |r| == |ids|
  {
    seq(|ids|, k requires 0 <= k < |ids| => PageBook(ids[k], net, cfg))
  }

  /** A run that has not ended holds the book of every id whose page loaded,
      in id order, whatever happened to its downloads. */
  lemma {:induction false} RunKeepsLoadedPages(ids: seq<int>, net: int -> IdNet, cfg: Config)
    ensures RunIds(ids, net, cfg).exit == Completed ==> RunIds(ids, net, cfg).books == Somes(PageBooks(ids, net, cfg))
    decreases |ids|
  {
    if ids != [] {
      var init := ids[..|ids| - 1];
      var id := ids[|ids| - 1];
      RunKeepsLoadedPages(init, net, cfg);
      if RunIds(init, net, cfg).exit == Completed {
        var pbs := PageBooks(ids, net, cfg);
        assert pbs[..|ids| - 1] == PageBooks(init, net, cfg);
        assert pbs[|ids| - 1] == ProcessId(id, net(id), cfg).book;
      }
    }
  }

  /** `downloaded_books` of a run that has not ended holds one book per id
      whose page loaded, in increasing id position, and the `j`-th book is the
      parse of the `j`-th such page. */
  lemma BooksAreLoadedPagesInOrder(ids: seq<int>, net: int -> IdNet, cfg: Config)
    ensures var run := RunIds(ids, net, cfg);
            var ps := SomePositions(PageBooks(ids, net, cfg));
            run.exit == Completed ==>
              && (forall k: nat :: k in ps <==> k < |ids| && GetChecked(net(ids[k]).page).Ok?)
              && (forall i, j :: 0 <= i < j < |ps| ==> ps[i] < ps[j])
              && |run.books| == |ps|
              && forall j :: 0 <= j < |ps| ==> ps[j] < |ids| && GetChecked(net(ids[ps[j]]).page).Ok? &&
                                               run.books[j] == cfg.extract(GetChecked(net(ids[ps[j]]).page).value.text)
  {
    RunKeepsLoadedPages(ids, net, cfg);
    SomesAt(PageBooks(ids, net, cfg));
  }

  /** `start_id == end_id` processes no id at all, and `start_id > end_id`
      is rejected before any request. */
  lemma EmptyAndInvertedRanges(startId: int, endId: int, net: int -> IdNet, cfg: Config)
    ensures startId == endId ==> MainRun(startId, endId, net, cfg) == Run([], [], Completed)
    ensures startId > endId ==> MainRun(startId, endId, net, cfg) == Run([], [], ValueError(ORDER_MESSAGE))
  {
  }

  /** The book is appended before its downloads: a redirect on the text
      download keeps the book in the list and moves on to the next id
      without fetching the cover, while a redirect on the page skips the id
      without a book and without touching the disk. */
  lemma RedirectHandling(prev: Run, id: int, net: int -> IdNet, cfg: Config)
    requires prev.exit == Completed
    ensures GetChecked(net(id).page) == Raised(RedirectDetectedError) ==>
              NextId(prev, id, net, cfg) == prev
    ensures GetChecked(net(id).page).Ok? && GetChecked(net(id).txt) == Raised(RedirectDetectedError) ==>
              NextId(prev, id, net, cfg) ==
                Run(prev.books + [cfg.extract(GetChecked(net(id).page).value.text)],
                    prev.effects + [MakeDirs(cfg.booksFolder)], Completed)
  {
    if GetChecked(net(id).page) == Raised(RedirectDetectedError) {
      assert prev.books + [] == prev.books && prev.effects + [] == prev.effects;
    }
  }

  /** Any other failure ends the run; a failing page leaves no book. */
  lemma OtherErrorsEndRun(prev: Run, step: IdStep)
    requires prev.exit == Completed
    ensures step.raised.Some? && step.raised != Some(RedirectDetectedError) ==>
              Advance(prev, step).exit == Uncaught(step.raised.value)
    ensures step.raised.None? || step.raised == Some(RedirectDetectedError) ==>
              Advance(prev, step).exit == Completed
  {
    if step.raised.Some? && step.raised != Some(RedirectDetectedError) {
      assert !IsInstance(step.raised.value, RedirectDetectedErrorClass);
      assert FirstMatch(step.raised.value, MainHandlers) == None;
    }
  }

  /** Extending the processed ids by one id performs that id's step. */
  lemma RunIdsSnoc(ids: seq<int>, id: int, net: int -> IdNet, cfg: Config)
    ensures RunIds(ids, net, cfg).exit == Completed ==>
              RunIds(ids + [id], net, cfg) == Advance(RunIds(ids, net, cfg), ProcessId(id, net(id), cfg))
  {
    assert (ids + [id])[..|ids|] == ids;
  }

  /** The run over `range(startId, id + 1)` is the run over
      `range(startId, id)` followed by id `id`. */
  lemma RunNextId(startId: int, id: int, net: int -> IdNet, cfg: Config)
    requires startId <= id
    ensures RunIds(BookIds(startId, id), net, cfg).exit == Completed ==>
              RunIds(BookIds(startId, id + 1), net, cfg) ==
              Advance(RunIds(BookIds(startId, id), net, cfg), ProcessId(id, net(id), cfg))
  {
    BookIdsSplit(startId, id, id + 1);
    assert BookIds(id, id + 1) == [id];
    RunIdsSnoc(BookIds(startId, id), id, net, cfg);
  }

  lemma BookIdsSplit(startId: int, mid: int, endId: int)
    requires startId <= mid <= endId
    ensures BookIds(startId, endId) == BookIds(startId, mid) + BookIds(mid, endId)
  {
  }

  /** One id's `try` block, performed step by step on the disk. */
  method TryId(disk: Disk, id: int, net: IdNet, cfg: Config) returns (book: Option<BookPage>, raised: Option<Exception>)
    modifies disk
    ensures book == ProcessId(id, net, cfg).book
    ensures raised == ProcessId(id, net, cfg).raised
    ensures disk.State() == Apply(old(disk.State()), ProcessId(id, net, cfg).effects)
  {
    var response := GetChecked(net.page);
    if response.Raised? {
      return None, Some(response.exception);
    }
    var page := cfg.extract(response.value.text);
    book := Some(page);
    var txt := DownloadTxt(disk, cfg.booksFolder, TxtFilename(id, Title(page, cfg.sanitize)), net.txt);
    if txt.Raised? {
      return book, Some(txt.exception);
    }
    var image := DownloadImage(disk, cfg.imagesFolder, ImageOf(page, cfg.urljoin).filename, net.image);
    ApplyAppend(old(disk.State()),
                TxtDownload(cfg.booksFolder, TxtFilename(id, Title(page, cfg.sanitize)), net.txt).effects,
                ImageDownload(cfg.imagesFolder, ImageOf(page, cfg.urljoin).filename, net.image).effects);
    raised := if image.Raised? then Some(image.exception) else None;
  }

  /** main.py's `main`, after argument parsing. */
  method DownloadRange(disk: Disk, startId: int, endId: int, env: map<string, string>, net: int -> IdNet,
              extract: string -> BookPage, sanitize: string -> string, urljoin: (string, string) -> string)
    returns (books: seq<BookPage>, exit: Exit)
    modifies disk
    ensures var run := MainRun(startId, endId, net, ConfigOf(env, extract, sanitize, urljoin));
            books == run.books && exit == run.exit &&
            disk.State() == Apply(old(disk.State()), run.effects)
  {
    var cfg := ConfigOf(env, extract, sanitize, urljoin);
    if startId > endId {
      return [], ValueError(ORDER_MESSAGE);
    }
    books := [];
    exit := Completed;
    ghost var effects: seq<Effect> := [];
    for id := startId to endId
      invariant RunIds(BookIds(startId, id), net, cfg) == Run(books, effects, Completed)
      invariant disk.State() == Apply(old(disk.State()), effects)
    {
      ghost var step := ProcessId(id, net(id), cfg);
      RunNextId(startId, id, net, cfg);
      var book, raised := TryId(disk, id, net(id), cfg);
      ApplyAppend(old(disk.State()), effects, step.effects);
      ghost var next := Advance(Run(books, effects, Completed), step);
      if book.Some? {
        books := books + [book.value];
      }
      effects := effects + step.effects;
      if raised.Some? && FirstMatch(raised.value, MainHandlers).None? {
        exit := Uncaught(raised.value);
        BookIdsSplit(startId, id + 1, endId);
        UncaughtEndsRun(BookIds(startId, id + 1), BookIds(id + 1, endId), net, cfg);
        return;
      }
    }
  }
}
