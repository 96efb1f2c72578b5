/** The media type the book builder records for a file, from the file name's
    extension (`Epub.prototype.mimetype`). */
module MediaTypes {
  import opened NodeText

  const Xhtml: string := "application/xhtml+xml"
  const Css: string := "text/css"
  /** The PNG type as the builder writes it, trailing space included. */
  const Png: string := "image/png "
  const Jpeg: string := "image/jpeg"
  const Gif: string := "image/gif"
  const Svg: string := "image/svg+xml"
  const Opf: string := "application/oebps-package+xml"
  const Ncx: string := "application/x-dtbncx+xml"
  const Ocf: string := "application/epub+zip"
  const PlainText: string := "text/plain"

  /** Every media type the builder can record. */
  const KnownTypes: set<string> := {Xhtml, Css, Png, Jpeg, Gif, Svg, Opf, Ncx, Ocf, PlainText}

  /** The cases of the builder's `switch`: each listed extension (lowercase, with its
      dot) and the type it gets. */
  const Table: map<string, string> := map[
    ".xhtml" := Xhtml, ".html" := Xhtml, ".htm" := Xhtml,
    ".css" := Css,
    ".png" := Png, ".jpg" := Jpeg, ".jpeg" := Jpeg, ".gif" := Gif, ".svg" := Svg,
    ".opf" := Opf, ".ncx" := Ncx, ".ocf" := Ocf]

  /** The `switch` on a lowercased extension: a listed case or the `text/plain` default. */
  function Classify(ext: string): (t: string)
    ensures t in KnownTypes
    ensures t == PlainText <==> ext !in Table
  {
    if ext in Table then Table[ext] else PlainText
  }

  /** The three cases of the chapter media type. */
  const ChapterCases: set<string> := {".xhtml", ".html", ".htm"}

  /** Exactly the chapter cases classify as `application/xhtml+xml`. */
  lemma XhtmlCases(ext: string)
    ensures Classify(ext) == Xhtml <==> ext in ChapterCases
  {
  }

  /** `mimetype(filename)`: classify the ASCII-lowercased `path.extname` of the name.
      What the result can be is stated by `MimeTypeIsKnown`. */
  function MimeType(filename: string): (t: string)
  {
    Classify(Lower(Extname(filename)))
  }

  /** The switch is total: every name gets one of the known types, and it gets plain
      text exactly when its lowercased extension is not listed (no extension included). */
  lemma MimeTypeIsKnown(filename: string)
    ensures MimeType(filename) in KnownTypes
    ensures MimeType(filename) == PlainText <==> Lower(Extname(filename)) !in Table
    ensures Extname(filename) == "" ==> MimeType(filename) == PlainText
  {
    if Extname(filename) == "" {
      NoExtensionIsPlainText(filename);
    }
  }

  /** The type depends on the extension only up to ASCII case. */
  lemma MimeTypeIgnoresCase(f: string, g: string)
    requires EqualIgnoringCase(Extname(f), Extname(g))
    ensures MimeType(f) == MimeType(g)
  {
    LowerIdentifiesCase(Extname(f), Extname(g));
  }

  /** A file without an extension is plain text. */
  lemma NoExtensionIsPlainText(filename: string)
    requires Extname(filename) == ""
    ensures MimeType(filename) == PlainText
  {
    EmptyExtensionIsPlainText();
  }

  lemma EmptyExtensionIsPlainText()
    ensures Classify(Lower("")) == PlainText
  {
    assert Lower("") == "";
  }

  /** A dotfile is plain text, whatever follows its dot: ".css" is not a stylesheet. */
  lemma DotfileIsPlainText(dir: string, ext: string)
    requires dir == [] || dir[|dir| - 1] == '/'
    requires IsExtension(ext)
    ensures MimeType(dir + ext) == PlainText
  {
    ExtnameOfDotfile(dir, ext);
    NoExtensionIsPlainText(dir + ext);
  }

  /** A stem ending in neither '/' nor '.': names that may carry an extension. */
  predicate IsStem(stem: string) {
    stem != [] && stem[|stem| - 1] != '/' && stem[|stem| - 1] != '.'
  }

  /** Behind a stem, the extension decides the type. */
  lemma MimeTypeOfStem(stem: string, ext: string)
    requires IsStem(stem) && IsExtension(ext)
    ensures MimeType(stem + ext) == Classify(Lower(ext))
  {
    ExtnameOfPlainStem(stem, ext);
  }

  /** The listed spellings of ".xhtml", ".html" and ".htm" are chapter documents; any
      other case of them follows with `MimeTypeIgnoresCase`. */
  lemma ChapterExtensions(stem: string)
    requires IsStem(stem)
    ensures MimeType(stem + ".xhtml") == Xhtml && MimeType(stem + ".XHTML") == Xhtml
    ensures MimeType(stem + ".html") == Xhtml && MimeType(stem + ".Html") == Xhtml
    ensures MimeType(stem + ".htm") == Xhtml && MimeType(stem + ".HTM") == Xhtml
  {
    ListedTypes();
    XhtmlSpelling();
    UpperXhtmlSpelling();
    HtmlSpelling();
    MixedHtmlSpelling();
    HtmSpelling();
    UpperHtmSpelling();
    MimeTypeOfStem(stem, ".xhtml");
    MimeTypeOfStem(stem, ".XHTML");
    MimeTypeOfStem(stem, ".html");
    MimeTypeOfStem(stem, ".Html");
    MimeTypeOfStem(stem, ".htm");
    MimeTypeOfStem(stem, ".HTM");
  }

  /** Stylesheets and images, in the spellings listed. */
  lemma StyleAndImageExtensions(stem: string)
    requires IsStem(stem)
    ensures MimeType(stem + ".css") == Css
    ensures MimeType(stem + ".jpg") == Jpeg && MimeType(stem + ".jpeg") == Jpeg
    ensures MimeType(stem + ".JPG") == Jpeg
    ensures MimeType(stem + ".gif") == Gif && MimeType(stem + ".svg") == Svg
  {
    ListedTypes();
    CssSpelling();
    JpgSpelling();
    JpegSpelling();
    UpperJpgSpelling();
    GifSpelling();
    SvgSpelling();
    MimeTypeOfStem(stem, ".css");
    MimeTypeOfStem(stem, ".jpg");
    MimeTypeOfStem(stem, ".jpeg");
    MimeTypeOfStem(stem, ".JPG");
    MimeTypeOfStem(stem, ".gif");
    MimeTypeOfStem(stem, ".svg");
  }

  /** The PNG type keeps its trailing space, so it differs from "image/png". */
  lemma PngKeepsTrailingSpace(stem: string)
    requires IsStem(stem)
    ensures MimeType(stem + ".png") == "image/png " && MimeType(stem + ".PNG") == "image/png "
    ensures MimeType(stem + ".png") != "image/png"
  {
    ListedTypes();
    PngSpelling();
    UpperPngSpelling();
    MimeTypeOfStem(stem, ".png");
    MimeTypeOfStem(stem, ".PNG");
  }

  /** The packaging documents get their packaging types. */
  lemma PackagingExtensions(stem: string)
    requires IsStem(stem)
    ensures MimeType(stem + ".opf") == Opf
    ensures MimeType(stem + ".ncx") == Ncx
    ensures MimeType(stem + ".ocf") == Ocf
  {
    ListedTypes();
    OpfSpelling();
    NcxSpelling();
    OcfSpelling();
    MimeTypeOfStem(stem, ".opf");
    MimeTypeOfStem(stem, ".ncx");
    MimeTypeOfStem(stem, ".ocf");
  }

  /** Each listed case of the switch and its type. */
  lemma ListedTypes()
    ensures Classify(".xhtml") == Xhtml && Classify(".html") == Xhtml && Classify(".htm") == Xhtml
    ensures Classify(".css") == Css && Classify(".png") == Png
    ensures Classify(".jpg") == Jpeg && Classify(".jpeg") == Jpeg
    ensures Classify(".gif") == Gif && Classify(".svg") == Svg
    ensures Classify(".opf") == Opf && Classify(".ncx") == Ncx && Classify(".ocf") == Ocf
  {
  }

  // One spelling each: an extension, and what it lowercases to.

  lemma XhtmlSpelling()
    ensures IsExtension(".xhtml") && Lower(".xhtml") == ".xhtml"
  {
  }

  lemma UpperXhtmlSpelling()
    ensures IsExtension(".XHTML") && Lower(".XHTML") == ".xhtml"
  {
  }

  lemma HtmlSpelling()
    ensures IsExtension(".html") && Lower(".html") == ".html"
  {
  }

  lemma MixedHtmlSpelling()
    ensures IsExtension(".Html") && Lower(".Html") == ".html"
  {
  }

  lemma HtmSpelling()
    ensures IsExtension(".htm") && Lower(".htm") == ".htm"
  {
  }

  lemma UpperHtmSpelling()
    ensures IsExtension(".HTM") && Lower(".HTM") == ".htm"
  {
  }

  lemma CssSpelling()
    ensures IsExtension(".css") && Lower(".css") == ".css"
  {
  }

  lemma JpgSpelling()
    ensures IsExtension(".jpg") && Lower(".jpg") == ".jpg"
  {
  }

  lemma UpperJpgSpelling()
    ensures IsExtension(".JPG") && Lower(".JPG") == ".jpg"
  {
  }

  lemma JpegSpelling()
    ensures IsExtension(".jpeg") && Lower(".jpeg") == ".jpeg"
  {
  }

  lemma GifSpelling()
    ensures IsExtension(".gif") && Lower(".gif") == ".gif"
  {
  }

  lemma SvgSpelling()
    ensures IsExtension(".svg") && Lower(".svg") == ".svg"
  {
  }

  lemma PngSpelling()
    ensures IsExtension(".png") && Lower(".png") == ".png"
  {
  }

  lemma UpperPngSpelling()
    ensures IsExtension(".PNG") && Lower(".PNG") == ".png"
  {
  }

  lemma OpfSpelling()
    ensures IsExtension(".opf") && Lower(".opf") == ".opf"
  {
  }

  lemma NcxSpelling()
    ensures IsExtension(".ncx") && Lower(".ncx") == ".ncx"
  {
  }

  lemma OcfSpelling()
    ensures IsExtension(".ocf") && Lower(".ocf") == ".ocf"
  {
  }
}
