/** main.py's `ParsedBook`: the properties that turn a book page into its
    title, author, genre, cover image and comments. The DOM queries
    themselves are not modelled; a `BookPage` holds the texts and the
    attribute they select, and `sanitize_filename` and `urljoin` are passed
    in as functions. */
module ParsedBook {
  import opened PyStr
  import opened Http

  const SITE_URL := "https://tululu.org"

  /** One `div.texts` comment block: the texts of the `span` elements inside
      it, in document order. */
  datatype CommentBlock = CommentBlock(spans: seq<string>)

  /** What the properties' DOM queries find on a book page: the text of the
      `h1`, of the link inside it, of the genre link, the `src` of the cover
      `img`, and each `div.texts` under `div#content`, in document order. */
  datatype BookPage = BookPage(
    h1Text: string,
    authorText: string,
    genreText: string,
    imageSrc: string,
    commentBlocks: seq<CommentBlock>)

  /** The cover image: its absolute URL and the file name it is saved as. */
  datatype Image = Image(url: string, filename: string)

  /** The title before sanitising: the `h1` text up to the first `"::"`,
      stripped of surrounding whitespace. */
  function RawTitle(h1Text: string): (r: string)
    ensures !Contains(r, "::")
    ensures r == [] || (!IsSpace(r[0]) && !IsSpace(r[|r| - 1]))
    ensures !Contains(h1Text, "::") ==> r == Strip(h1Text)
  {
    var head := BeforeFirst(h1Text, "::");
    var r := Strip(head);
    NotContainedInSlice(head, "::");
    r
  }

  /** A separator absent from a string is absent from each of its slices. */
  lemma NotContainedInSlice(s: string, sep: string)
    requires !Contains(s, sep)
    ensures forall i, j :: 0 <= i <= j <= |s| ==> !Contains(s[i..j], sep)
  {
    forall i, j, k | 0 <= i <= j <= |s| && OccursAt(s[i..j], sep, k)
      ensures false
    {
      var start := i + k;
      assert |s[start..start + |sep|]| == |sep|;
      forall m | 0 <= m < |sep|
        ensures s[start..start + |sep|][m] == sep[m]
      {
        assert s[i..j][k..k + |sep|][m] == sep[m];
      }
      assert OccursAt(s, sep, start);
    }
  }

  /** `ParsedBook.title`. */
  function Title(page: BookPage, sanitize: string -> string): string {
    sanitize(RawTitle(page.h1Text))
  }

  /** `ParsedBook.author`. */
  function Author(page: BookPage, sanitize: string -> string): string {
    sanitize(page.authorText)
  }

  /** `ParsedBook.genre`. */
  function Genre(page: BookPage): string {
    page.genreText
  }

  /** `ParsedBook.image`: the cover's URL is its `src` resolved against the
      site root and its file name is the last path component of `src`. */
  function ImageOf(page: BookPage, urljoin: (string, string) -> string): (r: Image)
    ensures r.url == urljoin(SITE_URL, page.imageSrc)
    ensures '/' !in r.filename
    ensures exists head :: page.imageSrc == head + r.filename && (head == [] || head[|head| - 1] == '/')
  {
    Image(urljoin(SITE_URL, page.imageSrc), Basename(page.imageSrc))
  }

  /** The list comprehension of `ParsedBook.comments` over the comment
      blocks: the text of the first `span` of each block, in block order.
      A block without a `span` makes `find('span')` return `None`, and
      `.get_text()` on it raises `AttributeError`: the result is then `None`. */
  function CommentTexts(blocks: seq<CommentBlock>): (r: Option<seq<string>>)
    ensures r.Some? <==> forall i :: 0 <= i < |blocks| ==> blocks[i].spans != []
    ensures r.Some? ==> |r.value| == |blocks| &&
                        forall i :: 0 <= i < |blocks| ==> r.value[i] == blocks[i].spans[0]
    decreases |blocks|
  {
    if blocks == [] then Some([])
    else
      var last := blocks[|blocks| - 1];
      match CommentTexts(blocks[..|blocks| - 1])
      case None => None
      case Some(texts) => if last.spans == [] then None else Some(texts + [last.spans[0]])
  }

  /** `ParsedBook.comments`. */
  function Comments(page: BookPage): Option<seq<string>> {
    CommentTexts(page.commentBlocks)
  }

  /** A heading "name :: author" gives the name: the text before the first
      separator, stripped, whatever follows it. */
  lemma TitleOfHeading(name: string, rest: string)
    requires !Contains(name, "::")
    requires name == [] || name[|name| - 1] != ':'
    ensures RawTitle(name + "::" + rest) == Strip(name)
  {
    var s := name + "::" + rest;
    assert OccursAt(s, "::", |name|);
    if name != [] {
      assert s[|name| - 1] == name[|name| - 1];
    }
    forall k | 0 <= k < |name|
      ensures !OccursAt(s, "::", k)
    {
      if k + 2 <= |name| {
        assert name[k..k + 2] == s[k..k + 2];
        assert !OccursAt(name, "::", k);
      } else {
        assert s[k..k + 2][0] == name[|name| - 1];
      }
    }
    assert Find(s, "::") == |name|;
    assert s[..|name|] == name;
  }

  /** The heading of a book page, "Война :: и мир", gives the title "Война". */
  lemma TitleExample()
    ensures RawTitle("Война :: и мир") == "Война"
  {
    var name := "Война ";
    forall k | 0 <= k <= |name|
      ensures !OccursAt(name, "::", k)
    {
      if k + 2 <= |name| {
        assert name[k..k + 2][0] == name[k];
      }
    }
    assert !Contains(name, "::");
    assert "Война :: и мир" == name + "::" + " и мир";
    TitleOfHeading(name, " и мир");
    StripExample();
  }

  lemma StripExample()
    ensures Strip("Война ") == "Война"
  {
    var name := "Война ";
    assert LeadingSpace(name) == 0;
    assert name[..5] == "Война";
    assert TrailingSpace("Война") == 0;
    assert TrailingSpace(name) == 1;
  }
}
