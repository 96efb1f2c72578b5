/** The book builder (`Epub`): metadata defaults, the list of added files, the
    chapter filter and the order of entries written to the `.epub` archive. */
module EpubBuilder {
  import opened NodeText
  import opened MediaTypes

  /** The first archive entry's name and its (stored, uncompressed) contents. */
  const MimetypeEntryName: string := "mimetype"
  const MimetypeContents: string := "application/epub+zip"
  const DefaultLang: string := "en-us"
  /** Archive directory of the book's own documents and of the added files. */
  const Ops: string := "OPS/"
  const ContainerName: string := "META-INF/container.xml"

  /** The options object given to the constructor; `None` is an absent property. */
  datatype BookOptions = BookOptions(
    title: Option<string>, lang: Option<string>, uuid: Option<string>,
    author: Option<string>, publisher: Option<string>, genre: Option<string>,
    description: Option<string>, created: Option<string>)

  /** The options object given to `addFile`. */
  datatype FileOptions = FileOptions(name: Option<string>, title: Option<string>)

  /** A read stream opened on a path (no file is read). */
  datatype ReadStream = ReadStream(path: string)

  /** One record of the builder's file list. */
  datatype FileEntry = FileEntry(
    path: string, name: string, title: Option<string>, mimetype: string, file: ReadStream)

  /** The builder's state, as seen by the templates. */
  datatype Book = Book(
    title: Option<string>, lang: string, uuid: string, author: string, publisher: string,
    genre: string, description: string, modified: string, created: string,
    files: seq<FileEntry>)

  /** The four templated documents. */
  datatype Template = ContainerXml | PackageOpf | NavigationNcx | TocXhtml

  /** What an archive entry holds: a literal buffer, a template rendered against
      the book, or a stream read from a path. */
  datatype Content = Bytes(text: string) | Rendered(template: Template, context: Book) | Stream(source: ReadStream)

  /** An archive entry: its name, whether it is stored uncompressed, and its content. */
  datatype Entry = Entry(name: string, store: bool, content: Content)

  /** The archive piped to the output file at `destination`. */
  datatype Archive = Archive(destination: string, entries: seq<Entry>)

  // ---------------------------------------------------------------------------
  // Constructor defaults

  /** The state the constructor sets up, with `uuid.v4()` and the clock passed in
      as `freshUuid` and `now`. */
  function InitialBook(options: BookOptions, freshUuid: string, now: string): (b: Book)
    ensures b.files == [] && b.title == options.title && b.modified == now
    ensures Truthy(options.lang) ==> Some(b.lang) == options.lang
    ensures !Truthy(options.lang) ==> b.lang == DefaultLang
    ensures b.lang != ""
    ensures Truthy(options.uuid) ==> Some(b.uuid) == options.uuid
    ensures !Truthy(options.uuid) ==> b.uuid == freshUuid
    ensures freshUuid != "" ==> b.uuid != ""
    ensures Truthy(options.author) ==> Some(b.author) == options.author
    ensures !Truthy(options.author) ==> b.author == ""
    ensures Truthy(options.publisher) ==> Some(b.publisher) == options.publisher
    ensures !Truthy(options.publisher) ==> b.publisher == ""
    ensures Truthy(options.genre) ==> Some(b.genre) == options.genre
    ensures !Truthy(options.genre) ==> b.genre == ""
    ensures Truthy(options.description) ==> Some(b.description) == options.description
    ensures !Truthy(options.description) ==> b.description == ""
    ensures Truthy(options.created) ==> Some(b.created) == options.created
    ensures !Truthy(options.created) ==> b.created == b.modified
    ensures now != "" ==> b.created != ""
  {
    Book(options.title, OrElse(options.lang, DefaultLang), OrElse(options.uuid, freshUuid),
         OrElse(options.author, ""), OrElse(options.publisher, ""), OrElse(options.genre, ""),
         OrElse(options.description, ""), now, OrElse(options.created, now), [])
  }

  /** An options object without properties (or `options` left out altogether). */
  const NoOptions: BookOptions := BookOptions(None, None, None, None, None, None, None, None)

  /** With no options every property takes its default. */
  lemma DefaultBook(freshUuid: string, now: string)
    ensures InitialBook(NoOptions, freshUuid, now)
         == Book(None, "en-us", freshUuid, "", "", "", "", now, now, [])
  {
  }

  /** An empty string counts as absent, except for the title, which is copied as given. */
  lemma EmptyOptionIsAbsent(options: BookOptions, freshUuid: string, now: string)
    requires options.lang == Some("") && options.uuid == Some("") && options.author == Some("")
    requires options.publisher == Some("") && options.genre == Some("")
    requires options.description == Some("") && options.created == Some("")
    ensures InitialBook(options, freshUuid, now)
         == InitialBook(NoOptions.(title := options.title), freshUuid, now)
  {
  }

  // ---------------------------------------------------------------------------
  // Adding files

  /** The record `addFile(path, options)` pushes. The name defaults to the text after
      the path's last '/', the title to the given name (never to the derived one),
      and the media type is taken from the source path. */
  function NewEntry(path: string, options: FileOptions): (e: FileEntry)
    ensures e.path == path && e.file == ReadStream(path) && e.mimetype == MimeType(path)
    ensures e.mimetype in KnownTypes
    ensures Truthy(options.name) ==> Some(e.name) == options.name
    ensures !Truthy(options.name) ==> Lacks(e.name, '/') && |e.name| <= |path|
    ensures Truthy(options.title) ==> e.title == options.title
    ensures !Truthy(options.title) ==> e.title == options.name
    ensures Truthy(e.title) <==> Truthy(options.title) || Truthy(options.name)
  {
    MimeTypeIsKnown(path);
    FileEntry(path, OrElse(options.name, LastSegment(path)), Or(options.title, options.name),
              MimeType(path), ReadStream(path))
  }

  /** Without a name option, a file added by a path into a directory is named by its
      base name. */
  lemma NameDefaultsToBaseName(dir: string, base: string, options: FileOptions)
    requires !Truthy(options.name) && Lacks(base, '/')
    ensures NewEntry(dir + "/" + base, options).name == base
    ensures NewEntry(base, options).name == base
  {
    LastSegmentOfPath(dir, base);
  }

  /** The title does not follow the derived name: without name and title options the
      entry is untitled, even though it has a name. */
  lemma TitleIgnoresDerivedName(dir: string, base: string)
    requires base != "" && Lacks(base, '/')
    ensures NewEntry(dir + "/" + base, FileOptions(None, None)).title == None
    ensures NewEntry(dir + "/" + base, FileOptions(None, None)).name == base
  {
    NameDefaultsToBaseName(dir, base, FileOptions(None, None));
  }

  /** The media type comes from the source path, not from the name in the archive. */
  lemma MimeTypeFollowsPath(path: string, o1: FileOptions, o2: FileOptions)
    ensures NewEntry(path, o1).mimetype == NewEntry(path, o2).mimetype
  {
  }

  /** A record whose stored media type and stream agree with its path. */
  predicate WellFormed(e: FileEntry) {
    e.mimetype == MimeType(e.path) && e.file == ReadStream(e.path)
  }

  /** Every record of the list agrees with its path. */
  ghost predicate AllWellFormed(files: seq<FileEntry>) {
    forall i :: 0 <= i < |files| ==> WellFormed(files[i])
  }

  /** A record made by `NewEntry` is well formed, so pushing it keeps a well-formed list. */
  lemma AllWellFormedSnoc(files: seq<FileEntry>, path: string, options: FileOptions)
    ensures AllWellFormed(files) ==> AllWellFormed(files + [NewEntry(path, options)])
  {
    var e := NewEntry(path, options);
    assert WellFormed(e);
    if AllWellFormed(files) {
      var longer := files + [e];
      forall i | 0 <= i < |longer| ensures WellFormed(longer[i]) {
        if i < |files| {
          assert longer[i] == files[i];
        } else {
          assert longer[i] == e;
        }
      }
    }
  }

  // ---------------------------------------------------------------------------
  // Chapters

  /** The filter's test: the media type computed again from the source path. A
      chapter is a file whose lowercased extension is ".xhtml", ".html" or ".htm". */
  function IsChapter(e: FileEntry): (b: bool)
    ensures b <==> Lower(Extname(e.path)) in ChapterCases
  {
    XhtmlCases(Lower(Extname(e.path)));
    MimeType(e.path) == Xhtml
  }

  /** The files `keep` accepts, in their order (`Array.prototype.filter`). */
  function Filter(files: seq<FileEntry>, keep: FileEntry -> bool): (kept: seq<FileEntry>)
    ensures |kept| <= |files|
  {
    if files == [] then []
    else Filter(files[..|files| - 1], keep)
         + (if keep(files[|files| - 1]) then [files[|files| - 1]] else [])
  }

  /** A file is kept exactly when it is one of the files and accepted. */
  lemma {:induction false} FilterMembers(files: seq<FileEntry>, keep: FileEntry -> bool)
    ensures forall e :: e in Filter(files, keep) <==> e in files && keep(e)
    decreases |files|
  {
    if files != [] {
      var init := files[..|files| - 1];
      FilterMembers(init, keep);
      assert files == init + [files[|files| - 1]];
    }
  }

  /** The filter distributes over concatenation, keeping the order of the kept files. */
  lemma {:induction false} FilterConcat(xs: seq<FileEntry>, ys: seq<FileEntry>, keep: FileEntry -> bool)
    ensures Filter(xs + ys, keep) == Filter(xs, keep) + Filter(ys, keep)
    decreases |ys|
  {
    if ys == [] {
      assert xs + ys == xs;
    } else {
      var last := ys[|ys| - 1];
      var init := ys[..|ys| - 1];
      assert (xs + ys)[..|xs + ys| - 1] == xs + init;
      assert (xs + ys)[|xs + ys| - 1] == last;
      FilterConcat(xs, init, keep);
      var tail := if keep(last) then [last] else [];
      calc {
        Filter(xs + ys, keep);
        Filter(xs + init, keep) + tail;
        (Filter(xs, keep) + Filter(init, keep)) + tail;
        Filter(xs, keep) + (Filter(init, keep) + tail);
      }
    }
  }

  /** Filtering a list with one more file at its end. */
  lemma FilterSnoc(files: seq<FileEntry>, e: FileEntry, keep: FileEntry -> bool)
    ensures Filter(files + [e], keep) == Filter(files, keep) + (if keep(e) then [e] else [])
  {
    FilterConcat(files, [e], keep);
    FilterOne(e, keep);
  }

  /** One file is kept exactly when it is accepted. */
  lemma FilterOne(e: FileEntry, keep: FileEntry -> bool)
    ensures Filter([e], keep) == if keep(e) then [e] else []
  {
    assert [e][..0] == [];
  }

  /** Filtering again changes nothing. */
  lemma {:induction false} FilterIdempotent(files: seq<FileEntry>, keep: FileEntry -> bool)
    ensures Filter(Filter(files, keep), keep) == Filter(files, keep)
    decreases |files|
  {
    if files != [] {
      var last := files[|files| - 1];
      var init := files[..|files| - 1];
      FilterIdempotent(init, keep);
      var tail := if keep(last) then [last] else [];
      FilterConcat(Filter(init, keep), tail, keep);
      if keep(last) {
        FilterOne(last, keep);
      }
    }
  }

  /** Every file is kept exactly when every file is accepted. */
  lemma {:induction false} FilterKeepsAll(files: seq<FileEntry>, keep: FileEntry -> bool)
    ensures Filter(files, keep) == files <==> forall i :: 0 <= i < |files| ==> keep(files[i])
    decreases |files|
  {
    if files != [] {
      var last := files[|files| - 1];
      var init := files[..|files| - 1];
      FilterKeepsAll(init, keep);
      if forall i :: 0 <= i < |files| ==> keep(files[i]) {
        assert forall i :: 0 <= i < |init| ==> keep(init[i]) by {
          forall i | 0 <= i < |init| ensures keep(init[i]) {
            assert init[i] == files[i];
          }
        }
        assert files == init + [last];
      } else {
        var i :| 0 <= i < |files| && !keep(files[i]);
        assert files[i] in files;
      }
    }
  }

  /** Files added by chapter-document paths are chapters; stylesheets and images are not. */
  lemma ChapterPaths(stem: string, options: FileOptions)
    requires IsStem(stem)
    ensures IsChapter(NewEntry(stem + ".xhtml", options)) && IsChapter(NewEntry(stem + ".HTM", options))
    ensures !IsChapter(NewEntry(stem + ".css", options)) && !IsChapter(NewEntry(stem + ".png", options))
  {
    ChapterExtensions(stem);
    StyleAndImageExtensions(stem);
    PngKeepsTrailingSpace(stem);
  }

  // ---------------------------------------------------------------------------
  // The archive layout

  /** The archive entry for an added file: streamed from its source path under `OPS/`. */
  function FileArchiveEntry(f: FileEntry): (r: Entry)
    ensures !r.store && r.content.Stream? && r.content.source.path == f.path
    ensures |r.name| == |Ops| + |f.name|
    ensures r.name[..|Ops|] == Ops && r.name[|Ops|..] == f.name
    ensures r.name != MimetypeEntryName && r.name != ContainerName
  {
    OutsideOps(f.name);
    Entry(Ops + f.name, false, Stream(ReadStream(f.path)))
  }

  /** The order `generate` appends entries in: the stored mimetype entry, the
      container, the package document, the navigation document, the table of
      contents, then every added file in the order it was added. */
  function LaidOut(book: Book, entries: seq<Entry>): (r: bool)
    ensures r ==> forall f :: f in book.files ==> FileArchiveEntry(f) in entries
  {
    |entries| == 5 + |book.files|
    && entries[0] == Entry(MimetypeEntryName, true, Bytes(MimetypeContents))
    && entries[1] == Entry(ContainerName, false, Rendered(ContainerXml, book))
    && entries[2] == Entry(Ops + "epb.opf", false, Rendered(PackageOpf, book))
    && entries[3] == Entry(Ops + "epb.ncx", false, Rendered(NavigationNcx, book))
    && entries[4] == Entry(Ops + "toc.xhtml", false, Rendered(TocXhtml, book))
    && forall i :: 0 <= i < |book.files| ==> entries[5 + i] == FileArchiveEntry(book.files[i])
  }

  /** There is only one layout for a book. */
  lemma LaidOutUnique(book: Book, xs: seq<Entry>, ys: seq<Entry>)
    requires LaidOut(book, xs) && LaidOut(book, ys)
    ensures xs == ys
  {
    forall k | 5 <= k < |xs| ensures xs[k] == ys[k] {
      assert xs[5 + (k - 5)] == FileArchiveEntry(book.files[k - 5]);
      assert ys[5 + (k - 5)] == FileArchiveEntry(book.files[k - 5]);
    }
  }

  /** Names under `OPS/` are equal exactly when what follows the prefix is. */
  lemma OpsNamesEqual(x: string, y: string)
    ensures Ops + x == Ops + y <==> x == y
  {
    if Ops + x == Ops + y {
      assert x == (Ops + x)[4..];
      assert y == (Ops + y)[4..];
    }
  }

  /** The container and the mimetype entry are outside `OPS/`. */
  lemma OutsideOps(x: string)
    ensures ContainerName != Ops + x && MimetypeEntryName != Ops + x
  {
    assert (Ops + x)[0] == 'O';
  }

  /** The mimetype entry comes first, stored uncompressed with the OCF media type,
      and it is the only entry of that name and the only stored one. */
  lemma MimetypeEntryFirst(book: Book, entries: seq<Entry>)
    requires LaidOut(book, entries)
    ensures entries[0].name == "mimetype" && entries[0].store
    ensures entries[0].content == Bytes("application/epub+zip")
    ensures forall i :: 0 < i < |entries| ==> entries[i].name != "mimetype" && !entries[i].store
  {
    forall i | 0 < i < |entries|
      ensures entries[i].name != "mimetype" && !entries[i].store
    {
      if i == 1 {
      } else if i < 5 {
        var rest := if i == 2 then "epb.opf" else if i == 3 then "epb.ncx" else "toc.xhtml";
        assert entries[i].name == Ops + rest;
        OutsideOps(rest);
      } else {
        assert entries[5 + (i - 5)] == FileArchiveEntry(book.files[i - 5]);
        OutsideOps(book.files[i - 5].name);
      }
    }
  }

  /** No two entries share a name. */
  predicate DistinctNames(entries: seq<Entry>) {
    forall i, j :: 0 <= i < j < |entries| ==> entries[i].name != entries[j].name
  }

  /** The book's own documents inside `OPS/`. */
  const ReservedNames: set<string> := {"epb.opf", "epb.ncx", "toc.xhtml"}

  /** The added files have pairwise different names, none of them a document the
      builder writes itself. */
  predicate FileNamesFree(files: seq<FileEntry>) {
    (forall i, j :: 0 <= i < j < |files| ==> files[i].name != files[j].name)
    && (forall i :: 0 <= i < |files| ==> files[i].name !in ReservedNames)
  }

  /** The archive has no clashing names exactly when the added files' names are
      pairwise different and none of them is a reserved document name. */
  lemma DistinctNamesIff(book: Book, entries: seq<Entry>)
    requires LaidOut(book, entries)
    ensures DistinctNames(entries) <==> FileNamesFree(book.files)
  {
    var files := book.files;
    forall i | 0 <= i < |files| ensures entries[5 + i].name == Ops + files[i].name {
    }
    if DistinctNames(entries) {
      forall i, j | 0 <= i < j < |files| ensures files[i].name != files[j].name {
        assert entries[5 + i].name != entries[5 + j].name;
      }
      forall i | 0 <= i < |files| ensures files[i].name !in ReservedNames {
        assert entries[5 + i].name != entries[2].name;
        assert entries[5 + i].name != entries[3].name;
        assert entries[5 + i].name != entries[4].name;
        OpsNamesEqual(files[i].name, "epb.opf");
        OpsNamesEqual(files[i].name, "epb.ncx");
        OpsNamesEqual(files[i].name, "toc.xhtml");
      }
    }
    if FileNamesFree(files) {
      forall i, j | 0 <= i < j < |entries| ensures entries[i].name != entries[j].name {
        FixedNamesDiffer(book, entries, i, j);
      }
    }
  }

  /** One pair of positions in a layout of a book with free file names. */
  lemma FixedNamesDiffer(book: Book, entries: seq<Entry>, i: int, j: int)
    requires LaidOut(book, entries) && FileNamesFree(book.files)
    requires 0 <= i < j < |entries|
    ensures entries[i].name != entries[j].name
  {
    var files := book.files;
    if 5 <= i {
      assert entries[5 + (i - 5)] == FileArchiveEntry(files[i - 5]);
      assert entries[5 + (j - 5)] == FileArchiveEntry(files[j - 5]);
      OpsNamesEqual(files[i - 5].name, files[j - 5].name);
    } else if 5 <= j {
      var f := files[j - 5];
      assert entries[5 + (j - 5)] == FileArchiveEntry(f);
      assert f.name !in ReservedNames;
      OutsideOps(f.name);
      OpsNamesEqual(f.name, "epb.opf");
      OpsNamesEqual(f.name, "epb.ncx");
      OpsNamesEqual(f.name, "toc.xhtml");
    } else {
      OutsideOps("epb.opf");
      OutsideOps("epb.ncx");
      OutsideOps("toc.xhtml");
      OpsNamesEqual("epb.opf", "epb.ncx");
      OpsNamesEqual("epb.opf", "toc.xhtml");
      OpsNamesEqual("epb.ncx", "toc.xhtml");
    }
  }

  // ---------------------------------------------------------------------------
  // The builder object

  class Epub {
    var title: Option<string>
    var lang: string
    var uuid: string
    var author: string
    var publisher: string
    var genre: string
    var description: string
    var modified: string
    var created: string
    /** `_files`: the added files, oldest first. */
    var files: seq<FileEntry>

    /** The object as a value, as the templates see it. */
    function Snapshot(): Book
      reads this
    {
      Book(title, lang, uuid, author, publisher, genre, description, modified, created, files)
    }

    /** Every stored record agrees with its path. */
    ghost predicate Valid()
      reads this
    {
      AllWellFormed(files)
    }

    /** `new Epub(options)`, with `uuid.v4()` and the ISO time of the clock passed in. */
    constructor (options: BookOptions, freshUuid: string, now: string)
      ensures Snapshot() == InitialBook(options, freshUuid, now)
      ensures Valid()
    {
      title := options.title;
      lang := OrElse(options.lang, DefaultLang);
      uuid := OrElse(options.uuid, freshUuid);
      author := OrElse(options.author, "");
      publisher := OrElse(options.publisher, "");
      genre := OrElse(options.genre, "");
      description := OrElse(options.description, "");
      modified := now;
      created := OrElse(options.created, now);
      files := [];
    }

    /** `chapters()`: the added files whose source path is a chapter document. */
    function Chapters(): (cs: seq<FileEntry>)
      reads this
      ensures forall e :: e in cs <==> e in files && IsChapter(e)
      ensures |cs| <= |files|
    {
      FilterMembers(files, IsChapter);
      Filter(files, IsChapter)
    }

    /** With records that agree with their paths, the chapters are exactly the
        records whose stored media type is the chapter type. */
    lemma ChaptersCarryXhtml()
      requires Valid()
      ensures forall e :: e in Chapters() ==> e.mimetype == Xhtml
      ensures forall e :: e in files && e !in Chapters() ==> e.mimetype != Xhtml
    {
      FilterMembers(files, IsChapter);
    }

    /** `addFile(path, options)`: push one record and change nothing else. */
    method AddFile(path: string, options: FileOptions)
      modifies this
      ensures files == old(files) + [NewEntry(path, options)]
      ensures Snapshot() == old(Snapshot()).(files := files)
      ensures old(Valid()) ==> Valid()
      ensures Chapters() == old(Chapters())
                            + (if IsChapter(NewEntry(path, options)) then [NewEntry(path, options)] else [])
    {
      var e := NewEntry(path, options);
      ghost var before := files;
      files := files + [e];
      FilterSnoc(before, e, IsChapter);
      AllWellFormedSnoc(before, path, options);
    }

    /** `generate(path)`: the archive written to `destination`, in the order of
        `LaidOut`; the builder itself is left as it was. */
    method Generate(destination: string) returns (archive: Archive)
      ensures archive.destination == destination
      ensures LaidOut(Snapshot(), archive.entries)
    {
      var book := Snapshot();
      var entries := [Entry(MimetypeEntryName, true, Bytes(MimetypeContents))];
      entries := entries + [Entry(ContainerName, false, Rendered(ContainerXml, book))];
      entries := entries + [Entry(Ops + "epb.opf", false, Rendered(PackageOpf, book))];
      entries := entries + [Entry(Ops + "epb.ncx", false, Rendered(NavigationNcx, book))];
      entries := entries + [Entry(Ops + "toc.xhtml", false, Rendered(TocXhtml, book))];
      var i := 0;
      while i < |files|
        invariant 0 <= i <= |files|
        invariant |entries| == 5 + i
        invariant entries[..5] == [Entry(MimetypeEntryName, true, Bytes(MimetypeContents)),
                                   Entry(ContainerName, false, Rendered(ContainerXml, book)),
                                   Entry(Ops + "epb.opf", false, Rendered(PackageOpf, book)),
                                   Entry(Ops + "epb.ncx", false, Rendered(NavigationNcx, book)),
                                   Entry(Ops + "toc.xhtml", false, Rendered(TocXhtml, book))]
        invariant forall j :: 0 <= j < i ==> entries[5 + j] == FileArchiveEntry(files[j])
      {
        entries := entries + [FileArchiveEntry(files[i])];
        i := i + 1;
      }
      archive := Archive(destination, entries);
    }
  }
}
