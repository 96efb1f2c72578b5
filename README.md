# node-epub book builder, modelled in Dafny

`lib/epub.js` defines `Epub`, a builder for EPUB e-books. The constructor takes the
book's metadata and fills in the defaults. `addFile` records a content file: its
archive name, its title, its media type and a read stream. `chapters()` returns the
added files whose path is a chapter (XHTML) document. `generate(path)` writes one
ZIP archive, in this order:

1. the stored `mimetype` entry;
2. the container document `META-INF/container.xml`;
3. the package document `OPS/epb.opf`;
4. the navigation document `OPS/epb.ncx`;
5. the table of contents `OPS/toc.xhtml`;
6. every added file under `OPS/`, in the order it was added.

The media types come from a `switch` on the file name's lowercased extension.

The model has three modules:

- `NodeText` (`node_text.dfy`) covers the JavaScript and Node behaviour the builder relies on:
  - `||` on possibly-undefined strings, where `''` is falsy;
  - `split('/').pop()`;
  - ASCII `toLowerCase`;
  - Node's POSIX `path.extname`. Trailing slashes are dropped, then the last segment's last dot is taken. There is no extension when the segment has no dot, when its only dot is its first character (a dotfile), or when the segment is `..`.
- `MediaTypes` (`media_types.dfy`) models `Epub.prototype.mimetype` as a lookup table with a `text/plain` default.
- `EpubBuilder` (`epub.dfy`) holds the options and records as datatypes and the class `Epub`:
  - its fields are the builder's metadata and its `_files` list;
  - the constructor and `AddFile` update the object in place;
  - `Chapters` is a filter over the file list;
  - `Generate` builds the archive's entry list with a loop over the files.
  `uuid.v4()` and the clock are parameters of the constructor (`freshUuid`, `now`).

Details of the source the model keeps, some of them surprising:

- The media type is taken from the source path passed to `addFile`, not from the name of the file in the archive.
- A file's title defaults to the `name` option. It never defaults to the name derived from the path.
- Four templated documents are written: the container, the package document, the navigation document and the table of contents.
- `modified` always takes the construction time; there is no option for it.
- The PNG media type is `"image/png "`, trailing space included, as the source writes it.

## Model

| member | source | states |
|---|---|---|
| NodeText.Or | lib/epub.js:42 | `options.title \|\| options.name`: the first operand if it is truthy, otherwise the second; the result is truthy exactly when one of them is |
| NodeText.OrElse | lib/epub.js:21-28 | `option \|\| default`: the given value when it is a non-empty string, otherwise the default; the result is empty only if the default is |
| NodeText.LastIndexOf | lib/epub.js:41 | the index found holds the character, and no later index does; -1 when the character is absent |
| NodeText.LastSegment | lib/epub.js:41 | `split('/').pop()` is a suffix of the path, contains no '/', and is preceded by a '/' whenever it is shorter than the path, so it is the text after the last '/' |
| NodeText.LastSegmentOfPath | lib/epub.js:41 | a slash-free name is its own last segment, also as `dir + "/" + name` |
| NodeText.TrimTrailingSlashes | lib/epub.js:114 | the result is a prefix of the path, everything removed is a '/', and the result does not end in '/' |
| NodeText.TrimNoTrailingSlash | lib/epub.js:114 | a path that does not end in '/' is left as it is |
| NodeText.LowerCharOnlyLetters | lib/epub.js:114 | one character of `LowerChar`: only 'A'..'Z' change, each to its lowercase letter, and no uppercase ASCII letter is left |
| NodeText.Lower | lib/epub.js:114 | `toLowerCase` keeps the length and lowercases each character on its own |
| NodeText.LowerIdentifiesCase | lib/epub.js:114 | two strings lowercase to the same string exactly when they are equal up to ASCII case |
| NodeText.SegmentExtension | lib/epub.js:114 | the extension of a segment is empty or a suffix of the segment that starts with its last '.' (no other '.' follows) and has no '/'; a segment without '.' has none |
| NodeText.Extname | lib/epub.js:114 | `path.extname` is empty or a dot followed by dot-free, slash-free text; its value is pinned by the lemmas below |
| NodeText.ExtnameWithoutDot | lib/epub.js:114 | a path whose final segment has no '.' has no extension |
| NodeText.ParentSegmentHasNoExtension | lib/epub.js:114 | a final segment `..` has no extension |
| NodeText.ExtnameOfUntrimmed | lib/epub.js:114 | a path not ending in '/' takes the extension of its last segment |
| NodeText.ExtnameOfStem | lib/epub.js:114 | a stem not ending in '/', followed by an extension, has exactly that extension unless the final segment is `..`; the stem may end in '.' (`a..b` has `.b`) |
| NodeText.ExtnameOfPlainStem | lib/epub.js:114 | a stem ending in neither '/' nor '.', followed by an extension, has exactly that extension |
| NodeText.ExtnameOfDotfile | lib/epub.js:114 | a final segment that is only a dot and a suffix (a dotfile) has no extension |
| NodeText.ExtnameIgnoresDirectories | lib/epub.js:114 | directories in front of a file name do not change its extension |
| MediaTypes.Classify | lib/epub.js:116-153 | the switch always yields one of the ten known types, and `text/plain` exactly when the lowercased extension is not a listed case |
| MediaTypes.MimeTypeIsKnown | lib/epub.js:113-155 | `mimetype` (the function `MediaTypes.MimeType`, `Classify` of the lowercased `Extname`) is total over file names: a known type, and `text/plain` exactly for unlisted or missing extensions |
| MediaTypes.MimeTypeIgnoresCase | lib/epub.js:114 | names whose extensions differ only in ASCII case get the same type |
| MediaTypes.NoExtensionIsPlainText | lib/epub.js:151-152 | a name without an extension falls to the `text/plain` default |
| MediaTypes.DotfileIsPlainText | lib/epub.js:114-152 | a dotfile such as `.css` is plain text, whatever follows its dot |
| MediaTypes.MimeTypeOfStem | lib/epub.js:114-116 | behind a stem, the type is the switch applied to the lowercased extension |
| MediaTypes.XhtmlCases | lib/epub.js:118-121 | exactly `.xhtml`, `.html` and `.htm` select `application/xhtml+xml` |
| MediaTypes.ChapterExtensions | lib/epub.js:118-122 | `.xhtml`, `.XHTML`, `.html`, `.Html`, `.htm` and `.HTM` are `application/xhtml+xml`; other spellings follow with `MimeTypeIgnoresCase` |
| MediaTypes.StyleAndImageExtensions | lib/epub.js:124-140 | `.css` is `text/css`; `.jpg`, `.JPG` and `.jpeg` are `image/jpeg` (other spellings follow with `MimeTypeIgnoresCase`); `.gif` and `.svg` get their image types |
| MediaTypes.PngKeepsTrailingSpace | lib/epub.js:128-130 | `.png` and `.PNG` are `"image/png "` with its trailing space, not `"image/png"` |
| MediaTypes.PackagingExtensions | lib/epub.js:141-150 | `.opf`, `.ncx` and `.ocf` get the OPF, NCX and OCF types |
| EpubBuilder.InitialBook | lib/epub.js:18-31 | the constructor's state: no files; the title as given; each of lang, uuid, author, publisher, genre, description and created is the option when it is a non-empty string, else its default (`en-us`, the fresh uuid, `''` four times, `modified`); `modified` is the clock; the language is never empty |
| EpubBuilder.DefaultBook | lib/epub.js:18-31 | with no options: language `en-us`, the fresh uuid, empty author, publisher, genre and description, `created == modified == now` |
| EpubBuilder.EmptyOptionIsAbsent | lib/epub.js:21-28 | an option given as `''` is treated like an absent one |
| EpubBuilder.Epub.constructor | lib/epub.js:13-32 | a new builder holds exactly the `InitialBook` state, and its (empty) file list is well formed |
| EpubBuilder.NewEntry | lib/epub.js:40-48 | the pushed record keeps the path, streams it, and takes its type from the path; without a name option its name is slash-free; its title is the title option when that is a non-empty string, else the name option as given (never the derived name) |
| EpubBuilder.NameDefaultsToBaseName | lib/epub.js:41 | without a name option, `dir/base` and `base` are both named `base` |
| EpubBuilder.TitleIgnoresDerivedName | lib/epub.js:41-42 | without options, a file gets a name from its path but no title |
| EpubBuilder.MimeTypeFollowsPath | lib/epub.js:47 | the stored type depends on the path only, not on the name or title options |
| EpubBuilder.Epub.AddFile | lib/epub.js:39-50 | appends exactly one record and changes nothing else; keeps every record agreeing with its path; the chapters grow by the new record exactly when it is a chapter |
| EpubBuilder.AllWellFormedSnoc | lib/epub.js:43-48 | a pushed record stores the media type and stream of its own path, so a list of such records stays well formed |
| EpubBuilder.Filter | lib/epub.js:59-61 | `Array.prototype.filter` never returns more elements than it was given |
| EpubBuilder.FilterMembers | lib/epub.js:59-61 | an element is kept exactly when it is in the list and the test accepts it |
| EpubBuilder.FilterConcat | lib/epub.js:59-61 | filtering a concatenation concatenates the filtered parts, so order is preserved |
| EpubBuilder.FilterSnoc | lib/epub.js:59-61 | one more file at the end is kept at the end exactly when the test accepts it |
| EpubBuilder.FilterOne | lib/epub.js:59-61 | a single element is kept exactly when the test accepts it |
| EpubBuilder.FilterIdempotent | lib/epub.js:59-61 | filtering twice is filtering once |
| EpubBuilder.FilterKeepsAll | lib/epub.js:59-61 | the filter returns the whole list exactly when every element passes |
| EpubBuilder.IsChapter | lib/epub.js:60 | the filter's test holds exactly when the path's lowercased extension is `.xhtml`, `.html` or `.htm` |
| EpubBuilder.Epub.Chapters | lib/epub.js:57-62 | `chapters()` holds exactly the added files whose path is a chapter document, and no more than the files |
| EpubBuilder.Epub.ChaptersCarryXhtml | lib/epub.js:47-60 | for a valid builder, the chapters are exactly the records whose stored type is XHTML |
| EpubBuilder.ChapterPaths | lib/epub.js:57-62 | files added by `.xhtml` or `.HTM` paths are chapters; `.css` and `.png` files are not |
| EpubBuilder.Epub.Generate | lib/epub.js:69-106 | the archive goes to the given destination with the entries in the `LaidOut` order: 5 fixed entries, then one per added file, also when no files were added |
| EpubBuilder.FileArchiveEntry | lib/epub.js:98 | a file's entry is `OPS/` followed by its name, not stored, streaming its source path; it is never the `mimetype` or container entry |
| EpubBuilder.LaidOut | lib/epub.js:83-99 | the entry order of `generate`; in a layout every added file has its archive entry |
| EpubBuilder.LaidOutUnique | lib/epub.js:83-99 | a book has exactly one layout |
| EpubBuilder.MimetypeEntryFirst | lib/epub.js:83 | the first entry is `mimetype`, stored uncompressed, holding `application/epub+zip`; no other entry has that name or is stored |
| EpubBuilder.OpsNamesEqual | lib/epub.js:98 | two `OPS/` names are equal exactly when the names after the prefix are |
| EpubBuilder.OutsideOps | lib/epub.js:83-98 | `mimetype` and `META-INF/container.xml` differ from every `OPS/` name |
| EpubBuilder.DistinctNamesIff | lib/epub.js:83-99 | archive names never clash exactly when the added files' names differ pairwise and none is `epb.opf`, `epb.ncx` or `toc.xhtml` |
| EpubBuilder.FixedNamesDiffer | lib/epub.js:83-99 | with free file names, any two positions of the layout have different names |

## Left out

- File system, archiver and templating. `fs.createReadStream`, `fs.createWriteStream`, `fs.readFileSync`, archiver's ZIP writing and compression, and handlebars are abstracted away. A read stream is the path it reads. A rendered document is the template's identity plus the book state it was rendered against. The archive is its destination plus the list of appended entries.
- `Epub.Generate`: the template text and the rendered XML are not modelled. The model only records which template is rendered against which state.
- `uuid.v4()` and `new Date().toISOString()` become the constructor parameters `freshUuid` and `now`. Randomness and the timestamp format are not modelled.
- The `close`, `error` and `finalize` callbacks (logging and rethrowing errors) are left out. So are the asynchronous completion and the byte count.
- `addFile` assigns `name` and `title` to implicit globals. The model keeps them local; the global side effect is not modelled.
- `generate` opens a new read stream on each file's path. It does not use the stream stored by `addFile`. The model records this: each archive entry streams `ReadStream(path)`.
- `MIMETYPE` and `MIMETYPE_CONTENTS` are per-instance fields that nothing changes. They are modelled as module constants.
- Non-string option values (numbers, objects) are not modelled. Each option is an absent value or a string.
- `NodeText.Extname`: only Node's POSIX `path.extname` is modelled, not the Windows variant.
- `NodeText.Lower`: only ASCII letters are lowercased. The only non-ASCII character whose lowercase form is ASCII is the Kelvin sign (lowercases to 'k'), and no listed extension contains 'k', so every media type agrees with full Unicode lowercasing.
- `EpubBuilder.Epub.Chapters`: the filter's order preservation is stated on `Filter` (`FilterConcat`, `FilterOne`), not on the method itself.
