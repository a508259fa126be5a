/** The second half of parse_tululu_category.py's `main`: for every
    collected link, read the book id from the link's path, fetch and parse
    the book page, download its text and its cover unless the flags skip
    them, and keep the book record when all of that succeeds; then write the
    records to `books_metadata.json`. `parse_book_page` is passed in as a
    function returning a record, `urlsplit(...).path` as `pathOf` and
    `json.dump` as `dump`. */
module CategoryBatch {
  import opened Http
  import opened PyStr
  import opened Downloads
  import opened OptionSeqs
  import BookRange
  import CategoryWalk

  /** A value of a book record: a string, or a list of strings. */
  datatype Value = Str(s: string) | Strs(items: seq<string>)

  /** A key of a book record: the five keys the loop reads or writes
      (`title`, `image_url`, `image_filename`, `book_path`, `img_src`), and
      any other key `parse_book_page` may set. */
  datatype Key = Title | ImageUrl | ImageFilename | BookPath | ImgSrc | Other(name: string)

  /** The Python names of the five keys that have their own constructor. */
  const NAMED_KEYS: set<string> := {"title", "image_url", "image_filename", "book_path", "img_src"}

  /** A book record, the dictionary `parse_book_page` returns. */
  type Book = map<Key, Value>

  predicate HasStr(b: Book, key: Key) {
    key in b && b[key].Str?
  }

  /** `parse_book_page` returns a record with the string fields the loop
      reads: `title`, `image_url` and `image_filename`; and each Python key
      has one model key, so no `Other` key carries one of the five names. */
  ghost predicate ParserShape(parse: (string, string) -> Book) {
    && (forall html, url :: HasStr(parse(html, url), Title) && HasStr(parse(html, url), ImageUrl) &&
                            HasStr(parse(html, url), ImageFilename))
    && (forall html, url, name :: Other(name) in parse(html, url) ==> name !in NAMED_KEYS)
  }

  // ---------------------------------------------------------------- book id

  /** The first index at or after `i` that holds a digit, or `|s|`. */
  function SkipNonDigits(s: string, i: nat): (j: nat)
    requires i <= |s|
    ensures i <= j <= |s|
    ensures forall k :: i <= k < j ==> !IsDigit(s[k])
    ensures j < |s| ==> IsDigit(s[j])
    decreases |s| - i
  {
    if i < |s| && !IsDigit(s[i]) then SkipNonDigits(s, i + 1) else i
  }

  /** The end of the run of digits that starts at `i`. */
  function DigitRunEnd(s: string, i: nat): (j: nat)
    requires i <= |s|
    ensures i <= j <= |s|
    ensures forall k :: i <= k < j ==> IsDigit(s[k])
    ensures j < |s| ==> !IsDigit(s[j])
    decreases |s| - i
  {
    if i < |s| && IsDigit(s[i]) then DigitRunEnd(s, i + 1) else i
  }

  /** `run` occurs in `path` at `i`, no digit comes before it, and no digit
      directly after it. */
  predicate FirstDigitRunAt(path: string, i: nat, run: string) {
    && i + |run| <= |path|
    && path[i..i + |run|] == run
    && (forall k :: 0 <= k < i ==> !IsDigit(path[k]))
    && (i + |run| < |path| ==> !IsDigit(path[i + |run|]))
  }

  /** `re.search(r"\d+", path).group()`: the first maximal run of digits
      of `path`; `None` when `path` has no digit, where `.group()` is called
      on `None` and raises `AttributeError`. */
  function BookId(path: string): (r: Option<string>)
    ensures r.None? <==> forall k :: 0 <= k < |path| ==> !IsDigit(path[k])
    ensures r.Some? ==> r.value != [] && AllDigits(r.value)
    ensures r.Some? ==> exists i: nat :: FirstDigitRunAt(path, i, r.value)
  {
    var i := SkipNonDigits(path, 0);
    if i == |path| then None
    else
      var j := DigitRunEnd(path, i);
      var r := path[i..j];
      assert AllDigits(r) by {
        forall k | 0 <= k < |r| ensures IsDigit(r[k]) {
          assert r[k] == path[i + k];
        }
      }
      assert FirstDigitRunAt(path, i, r);
      Some(r)
  }

  /** The id read back from a book page's path `/b{id}/` is the id. */
  lemma BookIdOfBookPagePath(id: nat)
    ensures BookId(BookRange.BookPagePath(id)) == Some(NatToString(id))
  {
    var digits := NatToString(id);
    var path := BookRange.BookPagePath(id);
    assert path == "/b" + digits + "/";
    assert path[2] == digits[0];
    assert !IsDigit(path[0]) && !IsDigit(path[1]);
    assert SkipNonDigits(path, 0) == 2;
    forall k | 2 <= k < 2 + |digits|
      ensures IsDigit(path[k])
    {
      assert path[k] == digits[k - 2];
    }
    assert !IsDigit(path[2 + |digits|]);
    assert DigitRunEnd(path, 2) == 2 + |digits|;
    assert path[2..2 + |digits|] == digits;
  }

  // ------------------------------------------------------------- one link

  /** What the network delivers for the link at one position: its page,
      the text (the GET of `txt.php` with the book id) and the cover. */
  datatype ItemNet = ItemNet(page: Fetch, txt: Fetch, image: Fetch)

  /** The flags and the two download folders, already joined under
      `dest_folder`. */
  datatype Options = Options(skipTxt: bool, skipImgs: bool, booksFolder: string, imagesFolder: string)

  /** What the `try` block for one link does: the record it appends, the
      file-system effects of its downloads, and the exception that ended it. */
  datatype BookStep = BookStep(book: Option<Book>, effects: seq<Effect>, raised: Option<Exception>)

  /** The `try` block runs to the end: the page loads without error or
      redirect, and so does each download the flags do not skip. */
  predicate Completes(net: ItemNet, opts: Options) {
    && GetChecked(net.page).Ok?
    && (opts.skipTxt || GetChecked(net.txt).Ok?)
    && (opts.skipImgs || GetStatusChecked(net.image).Ok?)
  }

  /** `key` is present in `r` exactly when it is present in `b`, with the
      same value. */
  predicate SameAt(r: Book, b: Book, key: Key) {
    (key in r <==> key in b) && (key in b ==> r[key] == b[key])
  }

  /** The record the `try` block builds from the parsed record `b`:
      `book_path` set to the text's path when there is one; when there is a
      cover path, `image_url` and `image_filename` removed and `img_src` set
      to it. */
  function Reshape(b: Book, bookPath: Option<string>, imgSrc: Option<string>): Book {
    var withText := if bookPath.Some? then b[BookPath := Str(bookPath.value)] else b;
    if imgSrc.Some? then (withText - {ImageUrl, ImageFilename})[ImgSrc := Str(imgSrc.value)] else withText
  }

  /** What `Reshape` does key by key: every other field stays as parsed. */
  lemma ReshapeFields(b: Book, bookPath: Option<string>, imgSrc: Option<string>)
    ensures var r := Reshape(b, bookPath, imgSrc);
            && (forall key :: key !in {BookPath, ImageUrl, ImageFilename, ImgSrc} ==> SameAt(r, b, key))
            && (bookPath.Some? ==> HasStr(r, BookPath) && r[BookPath] == Str(bookPath.value))
            && (bookPath.None? ==> SameAt(r, b, BookPath))
            && (imgSrc.Some? ==> ImageUrl !in r && ImageFilename !in r && HasStr(r, ImgSrc) &&
                                 r[ImgSrc] == Str(imgSrc.value))
            && (imgSrc.None? ==> SameAt(r, b, ImageUrl) && SameAt(r, b, ImageFilename) && SameAt(r, b, ImgSrc))
  {
  }

  /** The record kept for the parsed record `b`: the text saved as
      `<books folder>/<title>.txt` unless skipped, the cover saved under its
      own file name in the images folder unless skipped. */
  function KeptFrom(b: Book, opts: Options): Book
    requires HasStr(b, Title) && HasStr(b, ImageFilename)
  {
    Reshape(b, if opts.skipTxt then None else Some(PathJoin(opts.booksFolder, b[Title].s + ".txt")),
               if opts.skipImgs then None else Some(PathJoin(opts.imagesFolder, b[ImageFilename].s)))
  }

  /** The record `parse_book_page` makes of a loaded page. */
  function Parsed(link: string, net: ItemNet, parse: (string, string) -> Book): Book
    requires GetChecked(net.page).Ok?
  {
    parse(GetChecked(net.page).value.text, link)
  }

  /** The `try` block of the loop for one link. */
  function ProcessBook(link: string, net: ItemNet, opts: Options, parse: (string, string) -> Book): (s: BookStep)
    requires ParserShape(parse)
    ensures s.book.Some? <==> Completes(net, opts)
    ensures s.raised.None? <==> s.book.Some?
    ensures GetChecked(net.page).Raised? ==> s.effects == []
  {
    match GetChecked(net.page)
    case Raised(e) => BookStep(None, [], Some(e))
    case Ok(resp) =>
      var b := parse(resp.text, link);
      var txt := TxtDownload(opts.booksFolder, b[Title].s + ".txt", net.txt);
      if !opts.skipTxt && txt.result.Raised? then BookStep(None, txt.effects, Some(txt.result.exception))
      else
        var bookPath := if opts.skipTxt then None else Some(txt.result.value);
        var textEffects := if opts.skipTxt then [] else txt.effects;
        if opts.skipImgs then BookStep(Some(Reshape(b, bookPath, None)), textEffects, None)
        else
          var image := ImageDownload(opts.imagesFolder, b[ImageFilename].s, net.image);
          if image.result.Raised? then BookStep(None, textEffects + image.effects, Some(image.result.exception))
          else BookStep(Some(Reshape(b, bookPath, Some(image.result.value))), textEffects + image.effects, None)
  }

  /** The `try` block keeps a record exactly when it runs to the end, and
      the record it keeps has the shape the flags ask for. */
  lemma KeptRecord(link: string, net: ItemNet, opts: Options, parse: (string, string) -> Book)
    requires ParserShape(parse)
    ensures ProcessBook(link, net, opts, parse).book == Outcome(link, net, opts, parse)
  {
  }

  /** Each path a kept record reports names a file its `try` block wrote. */
  lemma KeptPathsWritten(link: string, net: ItemNet, opts: Options, parse: (string, string) -> Book)
    requires ParserShape(parse)
    ensures var s := ProcessBook(link, net, opts, parse);
            s.book.Some? ==>
              && (!opts.skipTxt ==> HasStr(s.book.value, BookPath) &&
                                    exists data :: WriteFile(s.book.value[BookPath].s, data) in s.effects)
              && (!opts.skipImgs ==> HasStr(s.book.value, ImgSrc) &&
                                     exists data :: WriteFile(s.book.value[ImgSrc].s, data) in s.effects)
  {
    var s := ProcessBook(link, net, opts, parse);
    if s.book.Some? {
      var b := Parsed(link, net, parse);
      var txt := TxtDownload(opts.booksFolder, b[Title].s + ".txt", net.txt);
      var bookPath := if opts.skipTxt then None else Some(txt.result.value);
      if opts.skipImgs {
        ReshapeFields(b, bookPath, None);
      } else {
        var image := ImageDownload(opts.imagesFolder, b[ImageFilename].s, net.image);
        ReshapeFields(b, bookPath, Some(image.result.value));
      }
    }
  }

  /** The `try` block performed step by step on the disk, changing the
      record in place as the source does. */
  method TryBook(disk: Disk, link: string, net: ItemNet, opts: Options, parse: (string, string) -> Book)
    returns (book: Option<Book>)
    requires ParserShape(parse)
    modifies disk
    ensures book == ProcessBook(link, net, opts, parse).book
    ensures disk.State() == Apply(old(disk.State()), ProcessBook(link, net, opts, parse).effects)
  {
    var response := GetChecked(net.page);
    if response.Raised? {
      return None;
    }
    var b := parse(response.value.text, link);
    ghost var textEffects: seq<Effect> := [];
    if !opts.skipTxt {
      var path := DownloadTxt(disk, opts.booksFolder, b[Title].s + ".txt", net.txt);
      if path.Raised? {
        return None;
      }
      textEffects := TxtDownload(opts.booksFolder, b[Title].s + ".txt", net.txt).effects;
      b := b[BookPath := Str(path.value)];
    }
    if !opts.skipImgs {
      ghost var withText := b;
      var filename := b[ImageFilename].s;
      b := b - {ImageUrl};
      b := b - {ImageFilename};
      assert b == withText - {ImageUrl, ImageFilename};
      var path := DownloadImage(disk, opts.imagesFolder, filename, net.image);
      ApplyAppend(old(disk.State()), textEffects, ImageDownload(opts.imagesFolder, filename, net.image).effects);
      if path.Raised? {
        return None;
      }
      b := b[ImgSrc := Str(path.value)];
    }
    assert textEffects + [] == textEffects;
    return Some(b);
  }

  /** An effect of a download creates one of the two download folders, or
      writes a file whose path is `os.path.join`-ed onto one of them (which
      is the joined name itself when that name is absolute). */
  ghost predicate InFolders(e: Effect, opts: Options) {
    match e
    case MakeDirs(folder) => folder == opts.booksFolder || folder == opts.imagesFolder
    case WriteFile(path, _) =>
      exists name :: path == PathJoin(opts.booksFolder, name) || path == PathJoin(opts.imagesFolder, name)
  }

  /** One link's downloads create only the download folders and write only
      paths joined onto them. */
  lemma StepStaysInFolders(link: string, net: ItemNet, opts: Options, parse: (string, string) -> Book)
    requires ParserShape(parse)
    ensures forall e :: e in ProcessBook(link, net, opts, parse).effects ==> InFolders(e, opts)
  {
    if GetChecked(net.page).Ok? {
      var b := Parsed(link, net, parse);
      var txtName := b[Title].s + ".txt";
      var imageName := b[ImageFilename].s;
      forall e | e in TxtDownload(opts.booksFolder, txtName, net.txt).effects
        ensures InFolders(e, opts)
      {
        if e.WriteFile? {
          assert e.path == PathJoin(opts.booksFolder, txtName);
        }
      }
      forall e | e in ImageDownload(opts.imagesFolder, imageName, net.image).effects
        ensures InFolders(e, opts)
      {
        if e.WriteFile? {
          assert e.path == PathJoin(opts.imagesFolder, imageName);
        }
      }
    }
  }

  // ------------------------------------------------------------- the loop

  /** The state of the loop: `downloaded_books`, the effects so far, and the
      link whose path had no digit, if the loop ended on one. */
  datatype Batch = Batch(books: seq<Book>, effects: seq<Effect>, crash: Option<string>)

  /** The loop after the first `|links|` links; `items(k)` is what the
      network delivers for the link at position `k`. */
  function RunBatch(links: seq<string>, items: nat -> ItemNet, opts: Options,
                    pathOf: string -> string, parse: (string, string) -> Book): Batch
    requires ParserShape(parse)
    decreases |links|
  {
    if links == [] then Batch([], [], None)
    else
      var prev := RunBatch(links[..|links| - 1], items, opts, pathOf, parse);
      if prev.crash.Some? then prev
      else NextBook(prev, |links| - 1, links[|links| - 1], items, opts, pathOf, parse)
  }

  /** One iteration: the book id is read outside the `try`, so a path
      without a digit ends the loop; otherwise the `try` block runs and every
      exception it raises is caught, dropping the record. */
  function NextBook(prev: Batch, k: nat, link: string, items: nat -> ItemNet, opts: Options,
                    pathOf: string -> string, parse: (string, string) -> Book): Batch
    requires ParserShape(parse)
  {
    if BookId(pathOf(link)).None? then prev.(crash := Some(link))
    else
      var step := ProcessBook(link, items(k), opts, parse);
      Batch(prev.books + (if step.book.Some? then [step.book.value] else []), prev.effects + step.effects, None)
  }

  /** Every exception of the `try` block is caught by one of its clauses,
      which come in the same order as the walk's. */
  lemma BatchCatchesEveryException(link: string, net: ItemNet, opts: Options, parse: (string, string) -> Book)
    requires ParserShape(parse)
    ensures var s := ProcessBook(link, net, opts, parse);
            s.raised.Some? ==> FirstMatch(s.raised.value, CategoryWalk.CategoryHandlers).Some?
  {
    var s := ProcessBook(link, net, opts, parse);
    if s.raised.Some? {
      CategoryWalk.CategoryHandlersCatchAll(s.raised.value);
    }
  }

  /** The loop ends early exactly at the first link whose path has no
      digit; before that it processes every link. */
  lemma {:induction false} CrashAtFirstLinkWithoutDigits(links: seq<string>, items: nat -> ItemNet, opts: Options,
                                                         pathOf: string -> string, parse: (string, string) -> Book)
    requires ParserShape(parse)
    ensures var run := RunBatch(links, items, opts, pathOf, parse);
            (run.crash.None? <==> forall k :: 0 <= k < |links| ==> BookId(pathOf(links[k])).Some?) &&
            (run.crash.Some? ==> exists k :: 0 <= k < |links| && links[k] == run.crash.value &&
                                             BookId(pathOf(links[k])).None? &&
                                             forall j :: 0 <= j < k ==> BookId(pathOf(links[j])).Some?)
    decreases |links|
  {
    if links != [] {
      var init := links[..|links| - 1];
      var last := |links| - 1;
      CrashAtFirstLinkWithoutDigits(init, items, opts, pathOf, parse);
      var prev := RunBatch(init, items, opts, pathOf, parse);
      if prev.crash.Some? {
        var k :| 0 <= k < |init| && init[k] == prev.crash.value && BookId(pathOf(init[k])).None? &&
                 forall j :: 0 <= j < k ==> BookId(pathOf(init[j])).Some?;
        assert links[k] == init[k];
        forall j | 0 <= j < k ensures BookId(pathOf(links[j])).Some? {
          assert links[j] == init[j];
        }
      } else {
        forall j | 0 <= j < last ensures BookId(pathOf(links[j])).Some? {
          assert links[j] == init[j];
        }
      }
    }
  }

  /** Once the loop has ended on a link without digits, no later link is
      looked at. */
  lemma {:induction false} CrashEndsBatch(links: seq<string>, later: seq<string>, items: nat -> ItemNet, opts: Options,
                                          pathOf: string -> string, parse: (string, string) -> Book)
    requires ParserShape(parse)
    requires RunBatch(links, items, opts, pathOf, parse).crash.Some?
    ensures RunBatch(links + later, items, opts, pathOf, parse) == RunBatch(links, items, opts, pathOf, parse)
    decreases |later|
  {
    if later == [] {
      assert links + later == links;
    } else {
      var init := later[..|later| - 1];
      assert (links + later)[..|links + later| - 1] == links + init;
      CrashEndsBatch(links, init, items, opts, pathOf, parse);
    }
  }

  /** What one link contributes to `downloaded_books`: the record kept from
      its page when its `try` block runs to the end, nothing otherwise. */
  function Outcome(link: string, net: ItemNet, opts: Options, parse: (string, string) -> Book): Option<Book>
    requires ParserShape(parse)
  {
    if Completes(net, opts) then Some(KeptFrom(Parsed(link, net, parse), opts)) else None
  }

  /** The contribution of every link, position by position. */
  function Outcomes(links: seq<string>, items: nat -> ItemNet, opts: Options,
                    parse: (string, string) -> Book): (r: seq<Option<Book>>)
    requires ParserShape(parse)
    ensures |r| == |links|
  {
    seq(|links|, k requires 0 <= k < |links| => Outcome(links[k], items(k), opts, parse))
  }

  /** A loop that does not end early collects the contributions of its links
      in link order: every link whose `try` block fails is dropped and the
      loop goes on. */
  lemma {:induction false} BatchKeepsCompleted(links: seq<string>, items: nat -> ItemNet, opts: Options,
                                               pathOf: string -> string, parse: (string, string) -> Book)
    requires ParserShape(parse)
    requires RunBatch(links, items, opts, pathOf, parse).crash.None?
    ensures RunBatch(links, items, opts, pathOf, parse).books == Somes(Outcomes(links, items, opts, parse))
    decreases |links|
  {
    if links != [] {
      var init := links[..|links| - 1];
      var last := |links| - 1;
      BatchKeepsCompleted(init, items, opts, pathOf, parse);
      KeptRecord(links[last], items(last), opts, parse);
      var outs := Outcomes(links, items, opts, parse);
      assert outs[..last] == Outcomes(init, items, opts, parse);
      assert outs[last] == ProcessBook(links[last], items(last), opts, parse).book;
    }
  }

  /** `downloaded_books` holds one record per link whose `try` block ran to
      the end, in link order, and the `j`-th record is the one kept from the
      `j`-th such link's page. */
  lemma BooksAreCompletedLinksInOrder(links: seq<string>, items: nat -> ItemNet, opts: Options,
                                      pathOf: string -> string, parse: (string, string) -> Book)
    requires ParserShape(parse)
    requires RunBatch(links, items, opts, pathOf, parse).crash.None?
    ensures var books := RunBatch(links, items, opts, pathOf, parse).books;
            var ps := SomePositions(Outcomes(links, items, opts, parse));
            && (forall k: nat :: k in ps <==> k < |links| && Completes(items(k), opts))
            && (forall i, j :: 0 <= i < j < |ps| ==> ps[i] < ps[j])
            && |books| == |ps|
            && forall j :: 0 <= j < |ps| ==> ps[j] < |links| && Completes(items(ps[j]), opts) &&
                                             books[j] == KeptFrom(Parsed(links[ps[j]], items(ps[j]), parse), opts)
  {
    var outs := Outcomes(links, items, opts, parse);
    BatchKeepsCompleted(links, items, opts, pathOf, parse);
    SomesAt(outs);
  }

  /** Every path a kept record reports, `book_path` or `img_src`, was written
      by the loop. */
  lemma {:induction false} RecordPathsWritten(links: seq<string>, items: nat -> ItemNet, opts: Options,
                                              pathOf: string -> string, parse: (string, string) -> Book)
    requires ParserShape(parse)
    ensures var run := RunBatch(links, items, opts, pathOf, parse);
            forall r: Book :: r in run.books ==>
              (!opts.skipTxt ==> HasStr(r, BookPath) && exists data :: WriteFile(r[BookPath].s, data) in run.effects) &&
              (!opts.skipImgs ==> HasStr(r, ImgSrc) && exists data :: WriteFile(r[ImgSrc].s, data) in run.effects)
    decreases |links|
  {
    if links != [] {
      var init := links[..|links| - 1];
      var last := |links| - 1;
      RecordPathsWritten(init, items, opts, pathOf, parse);
      var prev := RunBatch(init, items, opts, pathOf, parse);
      var run := RunBatch(links, items, opts, pathOf, parse);
      if prev.crash.None? && BookId(pathOf(links[last])).Some? {
        var step := ProcessBook(links[last], items(last), opts, parse);
        assert run.effects == prev.effects + step.effects;
        forall r: Book | r in run.books
          ensures !opts.skipTxt ==> HasStr(r, BookPath) && exists data :: WriteFile(r[BookPath].s, data) in run.effects
          ensures !opts.skipImgs ==> HasStr(r, ImgSrc) && exists data :: WriteFile(r[ImgSrc].s, data) in run.effects
        {
          if r in prev.books {
            if !opts.skipTxt {
              var data :| WriteFile(r[BookPath].s, data) in prev.effects;
              assert WriteFile(r[BookPath].s, data) in run.effects;
            }
            if !opts.skipImgs {
              var data :| WriteFile(r[ImgSrc].s, data) in prev.effects;
              assert WriteFile(r[ImgSrc].s, data) in run.effects;
            }
          } else {
            assert r == step.book.value;
            KeptPathsWritten(links[last], items(last), opts, parse);
            if !opts.skipTxt {
              var data :| WriteFile(r[BookPath].s, data) in step.effects;
              assert WriteFile(r[BookPath].s, data) in run.effects;
            }
            if !opts.skipImgs {
              var data :| WriteFile(r[ImgSrc].s, data) in step.effects;
              assert WriteFile(r[ImgSrc].s, data) in run.effects;
            }
          }
        }
      }
    }
  }

  /** The loop creates only the two download folders and writes only paths
      joined onto them. */
  lemma {:induction false} BatchStaysInFolders(links: seq<string>, items: nat -> ItemNet, opts: Options,
                                               pathOf: string -> string, parse: (string, string) -> Book)
    requires ParserShape(parse)
    ensures forall e :: e in RunBatch(links, items, opts, pathOf, parse).effects ==> InFolders(e, opts)
    decreases |links|
  {
    if links != [] {
      var init := links[..|links| - 1];
      var last := |links| - 1;
      BatchStaysInFolders(init, items, opts, pathOf, parse);
      StepStaysInFolders(links[last], items(last), opts, parse);
    }
  }

  /** A link whose path has no digit, met by a batch that has not crashed,
      ends the loop there, keeping what was collected before it. */
  lemma CrashOnLink(links: seq<string>, k: nat, items: nat -> ItemNet, opts: Options,
                    pathOf: string -> string, parse: (string, string) -> Book)
    requires ParserShape(parse)
    requires k < |links|
    requires RunBatch(links[..k], items, opts, pathOf, parse).crash.None?
    requires BookId(pathOf(links[k])).None?
    ensures RunBatch(links[..k + 1], items, opts, pathOf, parse) ==
            RunBatch(links[..k], items, opts, pathOf, parse).(crash := Some(links[k]))
  {
    assert links[..k + 1][..k] == links[..k];
  }

  /** Such a link ends the whole loop: the links after it change nothing. */
  lemma CrashStep(links: seq<string>, k: nat, items: nat -> ItemNet, opts: Options,
                  pathOf: string -> string, parse: (string, string) -> Book)
    requires ParserShape(parse)
    requires k < |links|
    requires RunBatch(links[..k], items, opts, pathOf, parse).crash.None?
    requires BookId(pathOf(links[k])).None?
    ensures RunBatch(links, items, opts, pathOf, parse) ==
            RunBatch(links[..k], items, opts, pathOf, parse).(crash := Some(links[k]))
  {
    CrashOnLink(links, k, items, opts, pathOf, parse);
    CrashEndsBatch(links[..k + 1], links[k + 1..], items, opts, pathOf, parse);
    assert links[..k + 1] + links[k + 1..] == links;
  }

  /** A link with a book id, met by a batch that has not crashed, adds the
      effects of its `try` block and the record it keeps, if any. */
  lemma KeepStep(links: seq<string>, k: nat, items: nat -> ItemNet, opts: Options,
                 pathOf: string -> string, parse: (string, string) -> Book)
    requires ParserShape(parse)
    requires k < |links|
    requires RunBatch(links[..k], items, opts, pathOf, parse).crash.None?
    requires BookId(pathOf(links[k])).Some?
    ensures var prev := RunBatch(links[..k], items, opts, pathOf, parse);
            var step := ProcessBook(links[k], items(k), opts, parse);
            RunBatch(links[..k + 1], items, opts, pathOf, parse) ==
              Batch(prev.books + (if step.book.Some? then [step.book.value] else []), prev.effects + step.effects, None)
  {
    assert links[..k + 1][..k] == links[..k];
  }

  /** The loop, step by step on the disk. */
  method DownloadBooks(disk: Disk, links: seq<string>, items: nat -> ItemNet, opts: Options,
                       pathOf: string -> string, parse: (string, string) -> Book)
    returns (books: seq<Book>, crash: Option<string>)
    requires ParserShape(parse)
    modifies disk
    ensures var run := RunBatch(links, items, opts, pathOf, parse);
            books == run.books && crash == run.crash &&
            disk.State() == Apply(old(disk.State()), run.effects)
  {
    books := [];
    ghost var effects: seq<Effect> := [];
    for k := 0 to |links|
      invariant RunBatch(links[..k], items, opts, pathOf, parse) == Batch(books, effects, None)
      invariant disk.State() == Apply(old(disk.State()), effects)
    {
      var link := links[k];
      if BookId(pathOf(link)).None? {
        CrashStep(links, k, items, opts, pathOf, parse);
        return books, Some(link);
      }
      KeepStep(links, k, items, opts, pathOf, parse);
      ghost var step := ProcessBook(link, items(k), opts, parse);
      var book := TryBook(disk, link, items(k), opts, parse);
      ApplyAppend(old(disk.State()), effects, step.effects);
      if book.Some? {
        books := books + [book.value];
      }
      effects := effects + step.effects;
    }
    assert links[..|links|] == links;
    crash := None;
  }

  // ------------------------------------------------------------ the script

  /** The command-line arguments after parsing. */
  datatype Args = Args(startPage: int, endPage: int, categoryId: int, destFolder: string, skipImgs: bool, skipTxt: bool)

  /** How the script ends: normally, with the `PageNumberError` of the page
      checks, or with the `AttributeError` of a link whose path has no
      digit. */
  datatype Exit = Completed | PageNumberError(message: string) | NoBookId(link: string)

  /** The result of a run: how it ended, the listing pages it requested, the
      records collected and its effects on the file system. */
  datatype Session = Session(exit: Exit, visited: seq<int>, books: seq<Book>, effects: seq<Effect>)

  /** Where `os.path.join(dest, name)` puts a folder: at `name` itself when
      `name` is absolute or `dest` is empty, and otherwise inside `dest`,
      separated from it by exactly one `'/'`, the one `dest` ends in if it
      ends in one. */
  predicate PlacedUnder(folder: string, dest: string, name: string) {
    && (!IsRelative(name) || dest == [] ==> folder == name)
    && (IsRelative(name) && dest != [] ==> JoinedUnder(folder, dest, name) && folder[|folder| - |name| - 1] == '/')
    && (IsRelative(name) && dest != [] && dest[|dest| - 1] == '/' ==> folder == dest + name)
  }

  /** The flags, and the download folders named by `BOOKS_PATH` and
      `IMAGES_PATH` (or their defaults) placed under `dest_folder`. */
  function OptionsOf(args: Args, env: map<string, string>): (opts: Options)
    ensures opts.skipTxt == args.skipTxt && opts.skipImgs == args.skipImgs
    ensures PlacedUnder(opts.booksFolder, args.destFolder, BookRange.GetEnv(env, "BOOKS_PATH", "downloaded_books"))
    ensures PlacedUnder(opts.imagesFolder, args.destFolder, BookRange.GetEnv(env, "IMAGES_PATH", "downloaded_images"))
  {
    Options(args.skipTxt, args.skipImgs,
            PathJoin(args.destFolder, BookRange.GetEnv(env, "BOOKS_PATH", "downloaded_books")),
            PathJoin(args.destFolder, BookRange.GetEnv(env, "IMAGES_PATH", "downloaded_images")))
  }

  function ManifestPath(args: Args): string {
    PathJoin(args.destFolder, "books_metadata.json")
  }

  /** With no environment settings the folders are `downloaded_books` and
      `downloaded_images` inside `dest_folder`, next to the manifest: in
      the current directory for the default empty `dest_folder`, and with
      no doubled `'/'` when `dest_folder` already ends in one. */
  lemma DefaultLayout(args: Args)
    ensures var opts := OptionsOf(args, map[]);
            args.destFolder == [] ==>
              opts.booksFolder == "downloaded_books" && opts.imagesFolder == "downloaded_images" &&
              ManifestPath(args) == "books_metadata.json"
    ensures var opts := OptionsOf(args, map[]);
            args.destFolder != [] && args.destFolder[|args.destFolder| - 1] == '/' ==>
              opts.booksFolder == args.destFolder + "downloaded_books" &&
              opts.imagesFolder == args.destFolder + "downloaded_images" &&
              ManifestPath(args) == args.destFolder + "books_metadata.json"
    ensures var opts := OptionsOf(args, map[]);
            args.destFolder != [] && args.destFolder[|args.destFolder| - 1] != '/' ==>
              opts.booksFolder == args.destFolder + "/" + "downloaded_books" &&
              opts.imagesFolder == args.destFolder + "/" + "downloaded_images" &&
              ManifestPath(args) == args.destFolder + "/" + "books_metadata.json"
  {
    DefaultFolders(args);
    JoinCases(args.destFolder, "downloaded_books");
    JoinCases(args.destFolder, "downloaded_images");
    JoinCases(args.destFolder, "books_metadata.json");
  }

  lemma DefaultFolders(args: Args)
    ensures OptionsOf(args, map[]).booksFolder == PathJoin(args.destFolder, "downloaded_books")
    ensures OptionsOf(args, map[]).imagesFolder == PathJoin(args.destFolder, "downloaded_images")
  {
    var env: map<string, string> := map[];
    assert BookRange.GetEnv(env, "BOOKS_PATH", "downloaded_books") == "downloaded_books";
    assert BookRange.GetEnv(env, "IMAGES_PATH", "downloaded_images") == "downloaded_images";
  }

  /** What `main` does once the walk has given `walk`: the download loop
      over its links, then the manifest, written only when the loop
      finished. */
  function AfterWalk(args: Args, env: map<string, string>, walk: CategoryWalk.Walk, items: nat -> ItemNet,
                     pathOf: string -> string, parse: (string, string) -> Book, dump: seq<Book> -> Bytes): Session
    requires ParserShape(parse)
  {
    var run := RunBatch(walk.links, items, OptionsOf(args, env), pathOf, parse);
    match run.crash
    case Some(link) => Session(NoBookId(link), walk.visited, run.books, run.effects)
    case None => Session(Completed, walk.visited, run.books, run.effects + [WriteFile(ManifestPath(args), dump(run.books))])
  }

  /** The whole of `main` after argument parsing: the page checks, the walk,
      the download loop, and the manifest. */
  function CategoryMain(args: Args, env: map<string, string>, pages: int -> Fetch, select: string -> seq<string>,
                        urljoin: (string, string) -> string, items: nat -> ItemNet, pathOf: string -> string,
                        parse: (string, string) -> Book, dump: seq<Book> -> Bytes): Session
    requires ParserShape(parse)
  {
    match CategoryWalk.CheckPages(args.startPage, args.endPage)
    case Some(message) => Session(PageNumberError(message), [], [], [])
    case None =>
      AfterWalk(args, env, CategoryWalk.WalkFrom(args.categoryId, args.startPage, args.endPage, pages, select, urljoin),
                items, pathOf, parse, dump)
  }

  /** A rejected page range ends the run before any request or file
      operation; an accepted one only requests pages inside it, all
      positive. */
  lemma PagesCheckedBeforeWalk(args: Args, env: map<string, string>, pages: int -> Fetch, select: string -> seq<string>,
                               urljoin: (string, string) -> string, items: nat -> ItemNet, pathOf: string -> string,
                               parse: (string, string) -> Book, dump: seq<Book> -> Bytes)
    requires ParserShape(parse)
    ensures var s := CategoryMain(args, env, pages, select, urljoin, items, pathOf, parse, dump);
            (CategoryWalk.CheckPages(args.startPage, args.endPage).Some? ==> s.visited == [] && s.effects == []) &&
            (forall p :: p in s.visited ==> 0 < args.startPage <= p <= args.endPage)
  {
    if CategoryWalk.CheckPages(args.startPage, args.endPage).None? {
      var walk := CategoryWalk.WalkFrom(args.categoryId, args.startPage, args.endPage, pages, select, urljoin);
      assert CategoryMain(args, env, pages, select, urljoin, items, pathOf, parse, dump).visited == walk.visited by {
        CategoryMainAfterWalk(args, env, pages, select, urljoin, items, pathOf, parse, dump);
      }
      CategoryWalk.WalkStaysInRange(args.categoryId, args.startPage, args.endPage, pages, select, urljoin);
    }
  }

  /** The manifest is written once, after the loop, and only when the loop
      finished: it then holds the collected records, and every earlier effect
      is one of the loop's, which create a download folder or write a path
      joined onto one. A run that ends on a link without digits has exactly
      the loop's effects. */
  lemma ManifestWrittenOnceAtEnd(st: FsState, args: Args, env: map<string, string>, walk: CategoryWalk.Walk,
                                 items: nat -> ItemNet, pathOf: string -> string,
                                 parse: (string, string) -> Book, dump: seq<Book> -> Bytes)
    requires ParserShape(parse)
    ensures var s := AfterWalk(args, env, walk, items, pathOf, parse, dump);
            var opts := OptionsOf(args, env);
            (s.exit == Completed ==>
               |s.effects| >= 1 && s.effects[|s.effects| - 1] == WriteFile(ManifestPath(args), dump(s.books)) &&
               (forall e :: e in s.effects[..|s.effects| - 1] ==> InFolders(e, opts)) &&
               ManifestPath(args) in Apply(st, s.effects).files &&
               Apply(st, s.effects).files[ManifestPath(args)] == dump(s.books)) &&
            (s.exit.NoBookId? ==> forall e :: e in s.effects ==> InFolders(e, opts))
    ensures var s := AfterWalk(args, env, walk, items, pathOf, parse, dump);
            var loop := RunBatch(walk.links, items, OptionsOf(args, env), pathOf, parse).effects;
            (s.exit.NoBookId? ==> s.effects == loop) &&
            (s.exit == Completed ==> s.effects[..|s.effects| - 1] == loop)
  {
    var opts := OptionsOf(args, env);
    var run := RunBatch(walk.links, items, opts, pathOf, parse);
    BatchStaysInFolders(walk.links, items, opts, pathOf, parse);
    if run.crash.None? {
      WriteLast(st, run.effects, ManifestPath(args), dump(run.books));
    }
  }

  /** A run of the whole script is a run after its walk. */
  lemma CategoryMainAfterWalk(args: Args, env: map<string, string>, pages: int -> Fetch, select: string -> seq<string>,
                              urljoin: (string, string) -> string, items: nat -> ItemNet, pathOf: string -> string,
                              parse: (string, string) -> Book, dump: seq<Book> -> Bytes)
    requires ParserShape(parse)
    requires CategoryWalk.CheckPages(args.startPage, args.endPage).None?
    ensures CategoryMain(args, env, pages, select, urljoin, items, pathOf, parse, dump) ==
            AfterWalk(args, env, CategoryWalk.WalkFrom(args.categoryId, args.startPage, args.endPage, pages, select, urljoin),
                      items, pathOf, parse, dump)
  {
  }

  /** parse_tululu_category.py's `main`, after argument parsing. */
  method DownloadCategory(disk: Disk, args: Args, env: map<string, string>, pages: int -> Fetch,
                          select: string -> seq<string>, urljoin: (string, string) -> string,
                          items: nat -> ItemNet, pathOf: string -> string,
                          parse: (string, string) -> Book, dump: seq<Book> -> Bytes)
    returns (exit: Exit, visited: seq<int>, books: seq<Book>)
    requires ParserShape(parse)
    modifies disk
    ensures var s := CategoryMain(args, env, pages, select, urljoin, items, pathOf, parse, dump);
            exit == s.exit && visited == s.visited && books == s.books &&
            disk.State() == Apply(old(disk.State()), s.effects)
  {
    var check := CategoryWalk.CheckPages(args.startPage, args.endPage);
    if check.Some? {
      return PageNumberError(check.value), [], [];
    }
    var opts := OptionsOf(args, env);
    var links;
    links, visited := CategoryWalk.ParseCategory(args.categoryId, args.startPage, args.endPage, pages, select, urljoin);
    var crash;
    books, crash := DownloadBooks(disk, links, items, opts, pathOf, parse);
    if crash.Some? {
      return NoBookId(crash.value), visited, books;
    }
    disk.Write(ManifestPath(args), dump(books));
    ApplyAppend(old(disk.State()), RunBatch(links, items, opts, pathOf, parse).effects,
                [WriteFile(ManifestPath(args), dump(books))]);
    exit := Completed;
  }
}
