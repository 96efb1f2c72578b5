/** The JavaScript and Node.js string behaviour that the book builder relies on:
    `||` on option values that may be undefined, `String.prototype.split('/')`
    followed by `pop()`, `toLowerCase()` on ASCII letters, and Node's POSIX
    `path.extname`. */
module NodeText {

  /** An entry of an options object: absent (`undefined`) or a string. */
  datatype Option<T> = None | Some(value: T)

  /** JavaScript truthiness of an optional string: `undefined` and `''` are falsy. */
  predicate Truthy(o: Option<string>) {
    o.Some? && o.value != ""
  }

  /** `a || b` where both sides may be undefined. */
  function Or(a: Option<string>, b: Option<string>): (r: Option<string>)
    ensures Truthy(a) ==> r == a
    ensures !Truthy(a) ==> r == b
    ensures Truthy(r) <==> Truthy(a) || Truthy(b)
  {
    if Truthy(a) then a else b
  }

  /** `a || d` where the default `d` is a string: the result is falsy only when `d` is. */
  function OrElse(a: Option<string>, d: string): (r: string)
    ensures Truthy(a) ==> Some(r) == a
    ensures !Truthy(a) ==> r == d
    ensures r == "" ==> d == ""
  {
    if Truthy(a) then a.value else d
  }

  /** `s` has no occurrence of `c`. */
  predicate Lacks(s: string, c: char) {
    forall j :: 0 <= j < |s| ==> s[j] != c
  }

  /** The index of the last occurrence of `c` among the first `n` characters of `s`, or -1. */
  function LastIndexBelow(s: string, c: char, n: nat): (k: int)
    requires n <= |s|
    ensures -1 <= k < n
    ensures 0 <= k ==> s[k] == c
    ensures forall j :: k < j < n ==> s[j] != c
  {
    if n == 0 then -1
    else if s[n - 1] == c then n - 1
    else LastIndexBelow(s, c, n - 1)
  }

  /** `s.lastIndexOf(c)`: the index of the last occurrence of `c` in `s`, or -1. */
  function LastIndexOf(s: string, c: char): (k: int)
    ensures -1 <= k < |s|
    ensures 0 <= k ==> s[k] == c
    ensures forall j :: k < j < |s| ==> s[j] != c
  {
    LastIndexBelow(s, c, |s|)
  }

  /** The two facts above determine the last index: any `k` with `s[k] == c` and no
      `c` after it (or -1 when `s` has no `c`) is the one `LastIndexOf` finds. */
  lemma LastIndexOfUnique(s: string, c: char, k: int)
    requires -1 <= k < |s|
    requires 0 <= k ==> s[k] == c
    requires forall j :: k < j < |s| ==> s[j] != c
    ensures LastIndexOf(s, c) == k
  {
  }

  /** The last occurrence in a concatenation is in the right part if it has one,
      otherwise in the left part. */
  lemma LastIndexOfAppend(x: string, y: string, c: char)
    ensures var ky := LastIndexOf(y, c);
      LastIndexOf(x + y, c) == if 0 <= ky then |x| + ky else LastIndexOf(x, c)
  {
    var s, kx, ky := x + y, LastIndexOf(x, c), LastIndexOf(y, c);
    if 0 <= ky {
      assert forall j :: |x| + ky < j < |s| ==> s[j] == y[j - |x|];
      LastIndexOfUnique(s, c, |x| + ky);
    } else {
      assert forall j :: |x| <= j < |s| ==> s[j] == y[j - |x|];
      assert 0 <= kx ==> s[kx] == x[kx];
      LastIndexOfUnique(s, c, kx);
    }
  }

  /** `s.split('/').pop()`: the text after the last slash; all of `s` if it has none,
      empty if `s` ends with a slash. */
  function LastSegment(s: string): (r: string)
    ensures Lacks(r, '/')
    ensures |r| <= |s|
    ensures |r| < |s| ==> s[|s| - |r| - 1] == '/'
    ensures r == s[|s| - |r|..]
  {
    s[LastIndexOf(s, '/') + 1..]
  }

  /** A slash-free name is its own last segment, also behind any directory part. */
  lemma LastSegmentOfPath(dir: string, name: string)
    requires Lacks(name, '/')
    ensures LastSegment(name) == name
    ensures LastSegment(dir + "/" + name) == name
  {
    LastIndexOfUnique(name, '/', -1);
    LastIndexOfAppend(dir + "/", name, '/');
    LastIndexOfAppend(dir, "/", '/');
    assert LastIndexOf("/", '/') == 0;
    assert (dir + "/" + name)[|dir| + 1..] == name;
  }

  /** The length of `s[..n]` once its trailing slashes are removed. */
  function TrimmedLength(s: string, n: nat): (m: nat)
    requires n <= |s|
    ensures m <= n
    ensures m == 0 || s[m - 1] != '/'
    ensures forall k :: m <= k < n ==> s[k] == '/'
  {
    if 0 < n && s[n - 1] == '/' then TrimmedLength(s, n - 1) else n
  }

  /** `s` without its trailing slashes. */
  function TrimTrailingSlashes(s: string): (t: string)
    ensures |t| <= |s|
    ensures t == [] || t[|t| - 1] != '/'
    ensures forall k :: |t| <= k < |s| ==> s[k] == '/'
    ensures t == s[..|t|]
  {
    s[..TrimmedLength(s, |s|)]
  }

  /** A string that does not end in a slash is its own trimmed form. */
  lemma TrimNoTrailingSlash(s: string)
    requires s == [] || s[|s| - 1] != '/'
    ensures TrimTrailingSlashes(s) == s
  {
  }

  // ---------------------------------------------------------------------------
  // toLowerCase on ASCII letters
  // ---------------------------------------------------------------------------

  /** One character of `toLowerCase` on ASCII: only 'A'..'Z' change, each to the
      letter 32 code points further, and no uppercase letter is left. */
  function LowerChar(c: char): (d: char)
  {
    if 'A' <= c <= 'Z' then (c as int + 32) as char else c
  }

  /** Only 'A'..'Z' change, each to the letter 32 code points further on, and no
      uppercase ASCII letter is left. */
  lemma LowerCharOnlyLetters(c: char)
    ensures !('A' <= LowerChar(c) <= 'Z')
    ensures LowerChar(c) != c ==> 'A' <= c <= 'Z' && LowerChar(c) as int == c as int + 32
  {
  }

  /** `s.toLowerCase()` restricted to ASCII: 'A'..'Z' become 'a'..'z', everything else stays. */
  function Lower(s: string): (r: string)
    ensures |r| == |s|
    ensures forall i :: 0 <= i < |s| ==> r[i] == LowerChar(s[i])
  {
    if s == [] then "" else Lower(s[..|s| - 1]) + [LowerChar(s[|s| - 1])]
  }

  /** Two strings that differ only in the case of ASCII letters. */
  predicate EqualIgnoringCase(a: string, b: string) {
    |a| == |b| && forall i :: 0 <= i < |a| ==> LowerChar(a[i]) == LowerChar(b[i])
  }

  /** Lowercasing identifies exactly the strings that are equal up to ASCII case. */
  lemma LowerIdentifiesCase(a: string, b: string)
    ensures Lower(a) == Lower(b) <==> EqualIgnoringCase(a, b)
  {
    if EqualIgnoringCase(a, b) {
      assert forall i :: 0 <= i < |a| ==> Lower(a)[i] == Lower(b)[i];
    }
    if Lower(a) == Lower(b) {
      assert forall i :: 0 <= i < |a| ==> LowerChar(a[i]) == Lower(a)[i] == Lower(b)[i] == LowerChar(b[i]);
    }
  }

  // ---------------------------------------------------------------------------
  // path.extname (POSIX)
  // ---------------------------------------------------------------------------

  /** The extension of one path segment: from its last '.' to its end, empty when it
      has no '.', when its last '.' is its first character (a dotfile such as
      ".profile"), and when the segment is "..". */
  function SegmentExtension(base: string): (ext: string)
    ensures ext == [] || (ext[0] == '.' && Lacks(ext[1..], '.'))
    ensures Lacks(base, '/') ==> Lacks(ext, '/')
    ensures |ext| <= |base|
    ensures ext != [] ==> ext == base[|base| - |ext|..]
    ensures Lacks(base, '.') ==> ext == []
  {
    var dot := LastIndexOf(base, '.');
    if dot <= 0 || base == ".." then ""
    else
      var ext := base[dot..];
      assert Lacks(ext[1..], '.') by {
        forall j | 0 <= j < |ext| - 1 ensures ext[1..][j] != '.' { assert ext[1..][j] == base[dot + 1 + j]; }
      }
      assert Lacks(base, '/') ==> Lacks(ext, '/') by {
        forall j | 0 <= j < |ext| ensures ext[j] == base[dot + j] { }
      }
      ext
  }

  /** Node's POSIX `path.extname(p)`: trailing slashes are ignored, and the extension
      is that of the final path segment. */
  function Extname(p: string): (ext: string)
    ensures ext == [] || IsExtension(ext)
  {
    SegmentExtension(LastSegment(TrimTrailingSlashes(p)))
  }

  /** Text without a slash appended to `x` extends the last segment of `x`. */
  lemma LastSegmentAppendPlain(x: string, y: string)
    requires Lacks(y, '/')
    ensures LastSegment(x + y) == LastSegment(x) + y
  {
    LastIndexOfUnique(y, '/', -1);
    LastIndexOfAppend(x, y, '/');
    var k := LastIndexOf(x, '/');
    assert (x + y)[k + 1..] == x[k + 1..] + y;
  }

  /** A path that does not end in a slash takes the extension of its last segment. */
  lemma ExtnameOfUntrimmed(p: string)
    requires p == [] || p[|p| - 1] != '/'
    ensures Extname(p) == SegmentExtension(LastSegment(p))
  {
    TrimNoTrailingSlash(p);
  }

  /** What `Extname` returns when it is not empty: a dot, then text with neither a
      further dot nor a slash. */
  predicate IsExtension(ext: string) {
    ext != [] && ext[0] == '.' && Lacks(ext[1..], '.') && Lacks(ext, '/')
  }

  /** A path whose final segment has no '.' has no extension. */
  lemma ExtnameWithoutDot(p: string)
    requires Lacks(LastSegment(TrimTrailingSlashes(p)), '.')
    ensures Extname(p) == ""
  {
    LastIndexOfUnique(LastSegment(TrimTrailingSlashes(p)), '.', -1);
  }

  /** The parent segment ".." has no extension, although it contains a dot. */
  lemma ParentSegmentHasNoExtension(dir: string)
    ensures Extname(dir + "/..") == ""
    ensures Extname("..") == ""
  {
    var p := dir + "/..";
    assert p == dir + "/" + "..";
    assert p[|p| - 1] == '.';
    ExtnameOfUntrimmed(p);
    ExtnameOfUntrimmed("..");
    LastSegmentOfPath(dir, "..");
  }

  /** A stem not ending in '/', followed by an extension, has that extension, unless
      the final segment they make is "..". The stem may end in '.': "a..b" has ".b". */
  lemma ExtnameOfStem(stem: string, ext: string)
    requires stem != [] && stem[|stem| - 1] != '/'
    requires IsExtension(ext)
    requires LastSegment(stem) + ext != ".."
    ensures Extname(stem + ext) == ext
  {
    var p := stem + ext;
    assert p[|p| - 1] == ext[|ext| - 1];
    ExtnameOfUntrimmed(p);
    ExtensionLastDot(ext);
    LastSegmentAppendPlain(stem, ext);
    var seg := LastSegment(stem);
    assert seg != [] && seg[|seg| - 1] == stem[|stem| - 1];
    SegmentExtensionOfStem(seg, ext);
  }

  /** The common case: a stem ending in neither '/' nor '.' never makes "..". */
  lemma ExtnameOfPlainStem(stem: string, ext: string)
    requires stem != [] && stem[|stem| - 1] != '/' && stem[|stem| - 1] != '.'
    requires IsExtension(ext)
    ensures Extname(stem + ext) == ext
  {
    var seg := LastSegment(stem);
    assert seg != [] && seg[|seg| - 1] == stem[|stem| - 1];
    assert (seg + ext)[|seg| - 1] == seg[|seg| - 1];
    ExtnameOfStem(stem, ext);
  }

  /** An extension's only dot is its first character. */
  lemma ExtensionLastDot(ext: string)
    requires IsExtension(ext)
    ensures LastIndexOf(ext, '.') == 0
  {
    assert forall j :: 0 < j < |ext| ==> ext[j] == ext[1..][j - 1];
    LastIndexOfUnique(ext, '.', 0);
  }

  lemma SegmentExtensionOfStem(seg: string, ext: string)
    requires seg != [] && seg + ext != ".."
    requires IsExtension(ext)
    ensures SegmentExtension(seg + ext) == ext
  {
    var base := seg + ext;
    ExtensionLastDot(ext);
    LastIndexOfAppend(seg, ext, '.');
    assert LastIndexOf(base, '.') == |seg|;
    assert base[|seg|..] == ext;
  }

  /** A final segment that is a bare extension (a dotfile) has no extension. */
  lemma ExtnameOfDotfile(dir: string, ext: string)
    requires dir == [] || dir[|dir| - 1] == '/'
    requires IsExtension(ext)
    ensures Extname(dir + ext) == ""
  {
    var p := dir + ext;
    assert p[|p| - 1] == ext[|ext| - 1];
    ExtnameOfUntrimmed(p);
    ExtensionLastDot(ext);
    LastSegmentAfterSlash(dir);
    LastSegmentAppendPlain(dir, ext);
    assert [] + ext == ext;
    assert LastSegment(p) == ext;
    DotfileSegment(ext);
  }

  /** A segment that is a bare extension has no extension. */
  lemma DotfileSegment(ext: string)
    requires LastIndexOf(ext, '.') == 0
    ensures SegmentExtension(ext) == ""
  {
  }

  /** Nothing follows a final slash. */
  lemma LastSegmentAfterSlash(dir: string)
    requires dir == [] || dir[|dir| - 1] == '/'
    ensures LastSegment(dir) == []
  {
    LastIndexOfUnique(dir, '/', |dir| - 1);
  }

  /** Only the final path segment matters: directories in front change nothing. */
  lemma ExtnameIgnoresDirectories(dir: string, name: string)
    requires name != [] && Lacks(name, '/')
    ensures Extname(dir + "/" + name) == Extname(name)
  {
    var p := dir + "/" + name;
    assert p[|p| - 1] == name[|name| - 1];
    ExtnameOfUntrimmed(p);
    ExtnameOfUntrimmed(name);
    LastSegmentOfPath(dir, name);
  }
}
