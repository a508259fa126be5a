/** main.py's `download_txt` and `download_image`: create the target folder,
    compose the target path with `os.path.join`, fetch, check, write the
    payload and return the path. The file system is a `Disk` object whose
    directories and files these operations change; the pure functions
    `TxtDownload` and `ImageDownload` say which effects one call has, and
    `Apply` says what those effects do to the disk. */
module Downloads {
  import opened Http
  import opened PyStr

  /** The part of the file system the crawler touches. */
  datatype FsState = FsState(dirs: set<string>, files: map<string, Bytes>)

  /** One change to the file system: `Path(folder).mkdir(parents=True,
      exist_ok=True)`, or opening `path` for writing and writing `data`. */
  datatype Effect = MakeDirs(folder: string) | WriteFile(path: string, data: Bytes)

  /** The file system after performing `effects` in order on `st`. */
  function Apply(st: FsState, effects: seq<Effect>): FsState
    decreases |effects|
  {
    if effects == [] then st
    else
      var before := Apply(st, effects[..|effects| - 1]);
      match effects[|effects| - 1]
      case MakeDirs(folder) => before.(dirs := before.dirs + {folder})
      case WriteFile(path, data) => before.(files := before.files[path := data])
  }

  /** A write performed last is the write the file ends up holding, and
      everything before it is the earlier run. */
  lemma WriteLast(st: FsState, before: seq<Effect>, path: string, data: Bytes)
    ensures var effects := before + [WriteFile(path, data)];
            && effects[..|effects| - 1] == before
            && path in Apply(st, effects).files
            && Apply(st, effects).files[path] == data
  {
    var effects := before + [WriteFile(path, data)];
    assert effects[..|effects| - 1] == before;
  }

  /** Performing two runs of effects one after the other is performing
      their concatenation. */
  lemma {:induction false} ApplyAppend(st: FsState, a: seq<Effect>, b: seq<Effect>)
    ensures Apply(st, a + b) == Apply(Apply(st, a), b)
    decreases |b|
  {
    if b == [] {
      assert a + b == a;
    } else {
      var b' := b[..|b| - 1];
      assert (a + b)[..|a + b| - 1] == a + b';
      ApplyAppend(st, a, b');
    }
  }

  /** Nothing the crawler does removes a file or a folder, and every file
      written is present afterwards. */
  lemma {:induction false} ApplyGrows(st: FsState, effects: seq<Effect>)
    ensures st.dirs <= Apply(st, effects).dirs
    ensures st.files.Keys <= Apply(st, effects).files.Keys
    ensures forall p, data :: WriteFile(p, data) in effects ==> p in Apply(st, effects).files
    decreases |effects|
  {
    if effects != [] {
      var init := effects[..|effects| - 1];
      ApplyGrows(st, init);
      forall p, data | WriteFile(p, data) in effects
        ensures p in Apply(st, effects).files
      {
        if WriteFile(p, data) != effects[|effects| - 1] {
          assert WriteFile(p, data) in init;
        }
      }
    }
  }

  /** The local disk, changed in place by the download operations. */
  class Disk {
    var dirs: set<string>
    var files: map<string, Bytes>

    function State(): FsState
      reads this
    {
      FsState(dirs, files)
    }

    constructor (initial: FsState)
      ensures State() == initial
    {
      dirs := initial.dirs;
      files := initial.files;
    }

    /** `Path(folder).mkdir(parents=True, exist_ok=True)`. */
    method Mkdir(folder: string)
      modifies this
      ensures State() == Apply(old(State()), [MakeDirs(folder)])
    {
      dirs := dirs + {folder};
      assert [MakeDirs(folder)][..0] == [];
    }

    /** `open(path, "wb+")` followed by writing `data`. */
    method Write(path: string, data: Bytes)
      modifies this
      ensures State() == Apply(old(State()), [WriteFile(path, data)])
    {
      files := files[path := data];
      assert [WriteFile(path, data)][..0] == [];
    }
  }

  /** What one download call does: the path it returns or the exception it
      raises, and the file-system effects it has on the way. */
  datatype Download = Download(result: Outcome<string>, effects: seq<Effect>)

  /** A download reports a path only for a file it has actually written:
      a returned path was written by this call, and a call that raised
      wrote no file. */
  ghost predicate Persisted(d: Download) {
    && (d.result.Ok? ==> exists data :: WriteFile(d.result.value, data) in d.effects)
    && (d.result.Raised? ==> forall e :: e in d.effects ==> e.MakeDirs?)
  }

  /** `download_txt(url, filename, folder, params)`, where `f` is what the
      GET of `url` with `params` delivered. The folder is created before the
      request, so it exists even when the download fails. */
  function TxtDownload(folder: string, filename: string, f: Fetch): (d: Download)
    ensures |d.effects| >= 1 && d.effects[0] == MakeDirs(folder)
    ensures Persisted(d)
    ensures d.result.Ok? <==> GetChecked(f).Ok?
    ensures d.result.Ok? ==> d.result.value == PathJoin(folder, filename)
    ensures d.result.Raised? ==> d.result == Raised(GetChecked(f).exception)
  {
    var path := PathJoin(folder, filename);
    match GetChecked(f)
    case Raised(e) => Download(Raised(e), [MakeDirs(folder)])
    case Ok(resp) =>
      var d := Download(Ok(path), [MakeDirs(folder), WriteFile(path, resp.content)]);
      assert WriteFile(path, resp.content) in d.effects;
      d
  }

  /** `download_image(image_url, filename, folder)`: like the text download,
      but without the redirect check. */
  function ImageDownload(folder: string, filename: string, f: Fetch): (d: Download)
    ensures |d.effects| >= 1 && d.effects[0] == MakeDirs(folder)
    ensures Persisted(d)
    ensures d.result.Ok? <==> GetStatusChecked(f).Ok?
    ensures d.result.Ok? ==> d.result.value == PathJoin(folder, filename)
    ensures d.result.Raised? ==> d.result == Raised(GetStatusChecked(f).exception)
    ensures d.result != Raised(RedirectDetectedError)
  {
    var path := PathJoin(folder, filename);
    match GetStatusChecked(f)
    case Raised(e) => Download(Raised(e), [MakeDirs(folder)])
    case Ok(resp) =>
      var d := Download(Ok(path), [MakeDirs(folder), WriteFile(path, resp.content)]);
      assert WriteFile(path, resp.content) in d.effects;
      d
  }

  /** Exactly what each download does to the disk: it creates the folder,
      then writes the fetched body to the path it returns, and nothing else;
      a download that raised stops after creating the folder. */
  lemma DownloadEffects(folder: string, filename: string, f: Fetch)
    ensures var d := TxtDownload(folder, filename, f);
            && (d.result.Raised? ==> d.effects == [MakeDirs(folder)])
            && (d.result.Ok? ==> d.effects == [MakeDirs(folder), WriteFile(d.result.value, f.response.content)])
    ensures var d := ImageDownload(folder, filename, f);
            && (d.result.Raised? ==> d.effects == [MakeDirs(folder)])
            && (d.result.Ok? ==> d.effects == [MakeDirs(folder), WriteFile(d.result.value, f.response.content)])
  {
  }

  /** The text download, step by step on the disk. */
  method DownloadTxt(disk: Disk, folder: string, filename: string, f: Fetch) returns (r: Outcome<string>)
    modifies disk
    ensures r == TxtDownload(folder, filename, f).result
    ensures disk.State() == Apply(old(disk.State()), TxtDownload(folder, filename, f).effects)
  {
    ghost var st := disk.State();
    disk.Mkdir(folder);
    var path := PathJoin(folder, filename);
    var checked := GetChecked(f);
    if checked.Raised? {
      return Raised(checked.exception);
    }
    disk.Write(path, checked.value.content);
    ApplyAppend(st, [MakeDirs(folder)], [WriteFile(path, checked.value.content)]);
    assert [MakeDirs(folder)] + [WriteFile(path, checked.value.content)] == TxtDownload(folder, filename, f).effects;
    return Ok(path);
  }

  /** The image download, step by step on the disk. */
  method DownloadImage(disk: Disk, folder: string, filename: string, f: Fetch) returns (r: Outcome<string>)
    modifies disk
    ensures r == ImageDownload(folder, filename, f).result
    ensures disk.State() == Apply(old(disk.State()), ImageDownload(folder, filename, f).effects)
  {
    ghost var st := disk.State();
    disk.Mkdir(folder);
    var path := PathJoin(folder, filename);
    var checked := GetStatusChecked(f);
    if checked.Raised? {
      return Raised(checked.exception);
    }
    disk.Write(path, checked.value.content);
    ApplyAppend(st, [MakeDirs(folder)], [WriteFile(path, checked.value.content)]);
    assert [MakeDirs(folder)] + [WriteFile(path, checked.value.content)] == ImageDownload(folder, filename, f).effects;
    return Ok(path);
  }

  /** The path a successful download returns names a file that exists
      afterwards, and its last component is the requested file name. */
  lemma DownloadedFileExists(st: FsState, folder: string, filename: string, f: Fetch)
    requires '/' !in filename
    requires TxtDownload(folder, filename, f).result.Ok?
    ensures var d := TxtDownload(folder, filename, f);
            d.result.value in Apply(st, d.effects).files && Basename(d.result.value) == filename
  {
    var d := TxtDownload(folder, filename, f);
    ApplyGrows(st, d.effects);
    BasenameOfJoin(folder, filename);
  }
}
