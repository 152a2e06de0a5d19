/**
 * The index builder: of the files found under the image directory, keep those
 * whose extension (compared in lower case) is on the allow-list and whose path
 * parses, then sort the entries by date, newest first. The result is the
 * manifest `images.json`.
 */
module IndexBuilder {
  import opened Wrappers
  import opened Text
  import opened Media
  import opened PathParser

  /** `IMAGE_EXTENSIONS`: the nine accepted extensions, each with its dot and in lower case. */
  const ImageExtensions: set<string> := {".jpg", ".jpeg", ".png", ".gif", ".webp", ".svg", ".bmp", ".ico", ".avif"}

  // ---------------------------------------------------------------------------
  // path.extname
  // ---------------------------------------------------------------------------

  /** The length of `s[..n]` without its trailing slashes. */
  function TrimEnd(s: string, n: nat): (m: nat)
    requires n <= |s|
    ensures m <= n && (m == 0 || s[m - 1] != '/')
    ensures forall i :: m <= i < n ==> s[i] == '/'
    decreases n
  {
    if n > 0 && s[n - 1] == '/' then TrimEnd(s, n - 1) else n
  }

  /** Where the last segment of `s[..n]` starts: right after its last slash, or at 0. */
  function SegStart(s: string, n: nat): (k: nat)
    requires n <= |s|
    ensures k <= n && (k > 0 ==> s[k - 1] == '/')
    ensures forall i :: k <= i < n ==> s[i] != '/'
    decreases n
  {
    if n == 0 || s[n - 1] == '/' then n else SegStart(s, n - 1)
  }

  /** The index of the last '.' of `s[lo..hi]`, if any. */
  function LastDot(s: string, lo: nat, hi: nat): (k: Option<nat>)
    requires lo <= hi <= |s|
    ensures k.Some? ==> lo <= k.value < hi && s[k.value] == '.' && forall i :: k.value < i < hi ==> s[i] != '.'
    ensures k.None? ==> forall i :: lo <= i < hi ==> s[i] != '.'
    decreases hi
  {
    if hi == lo then None else if s[hi - 1] == '.' then Some(hi - 1) else LastDot(s, lo, hi - 1)
  }

  /**
   * Node's `path.extname` on a '/'-separated path: from the last '.' of the last
   * segment (trailing slashes ignored) to its end; empty when the segment has no
   * '.', when its only '.' is its first character, and for the segment "..".
   */
  function ExtName(path: string): string
  {
    var n := TrimEnd(path, |path|);
    var st := SegStart(path, n);
    match LastDot(path, st, n)
    case None => ""
    case Some(d) => if d == st || path[st..n] == ".." then "" else path[d..n]
  }

  /**
   * A non-empty extension is a '.' followed by neither '.' nor '/', and it ends
   * the path (trailing slashes aside) right after at least one other character
   * of the same segment.
   */
  lemma ExtNameShape(path: string)
    ensures var e := ExtName(path);
      e != "" ==>
        e[0] == '.' && NoSlash(e) && forall i :: 0 < i < |e| ==> e[i] != '.'
    ensures var e := ExtName(path); var n := TrimEnd(path, |path|);
      e != "" ==>
        |e| < n && path[n - |e|..n] == e && path[n - |e| - 1] != '/' &&
        forall i :: n <= i < |path| ==> path[i] == '/'
  {
    var n := TrimEnd(path, |path|);
    var st := SegStart(path, n);
    match LastDot(path, st, n)
    case None =>
    case Some(d) =>
      if d != st && path[st..n] != ".." {
        var e := path[d..n];
        assert ExtName(path) == e;
        assert forall i :: 0 <= i < |e| ==> e[i] == path[d + i];
      }
  }

  /** The extension check of the loop: `IMAGE_EXTENSIONS.has(path.extname(file).toLowerCase())`. */
  predicate HasImageExtension(file: string)
  {
    Lower(ExtName(file)) in ImageExtensions
  }

  /** The last segment of `s[..n]` starts at `k` when `k` follows a slash (or is 0) and no slash lies between. */
  lemma {:induction false} SegStartAt(s: string, k: nat, n: nat)
    requires k <= n <= |s| && (k == 0 || s[k - 1] == '/')
    requires forall i :: k <= i < n ==> s[i] != '/'
    ensures SegStart(s, n) == k
    decreases n
  {
    if n > k {
      SegStartAt(s, k, n - 1);
    }
  }

  /** The last '.' of `s[lo..hi]` is at `d` when `s[d]` is a '.' and no '.' follows it. */
  lemma {:induction false} LastDotAt(s: string, lo: nat, d: nat, hi: nat)
    requires lo <= d < hi <= |s| && s[d] == '.'
    requires forall i :: d < i < hi ==> s[i] != '.'
    ensures LastDot(s, lo, hi) == Some(d)
    decreases hi
  {
    if hi - 1 > d {
      LastDotAt(s, lo, d, hi - 1);
    }
  }

  /**
   * The extension runs from `d` to the end when the path does not end in '/', its
   * last segment starts at `st`, and `d` is the segment's last '.', not its first
   * character and not the second character of "..".
   */
  lemma ExtNameAt(path: string, st: nat, d: nat)
    requires st < d < |path| && (st == 0 || path[st - 1] == '/') && path[d] == '.'
    requires forall i :: st <= i < |path| ==> path[i] != '/'
    requires forall i :: d < i < |path| ==> path[i] != '.'
    requires !(|path| == st + 2 && path[st] == '.')
    ensures ExtName(path) == path[d..]
  {
    assert TrimEnd(path, |path|) == |path|;
    SegStartAt(path, st, |path|);
    LastDotAt(path, st, d, |path|);
    assert path[st..] != "..";
  }

  /** A file `<dir><name>.<ext>` has extension `.<ext>` when `ext` has no dot or slash and the name is not empty. */
  lemma ExtNameOfFile(path: string, dir: string, name: string, ext: string)
    requires path == dir + name + "." + ext
    requires dir == "" || dir[|dir| - 1] == '/'
    requires name != "" && NoSlash(name) && NoSlash(ext) && (forall i :: 0 <= i < |ext| ==> ext[i] != '.')
    requires !(name == "." && ext == "")
    ensures ExtName(path) == "." + ext
  {
    var st, d := |dir|, |dir| + |name|;
    assert path[d..] == "." + ext;
    assert forall i :: 0 <= i < |name| ==> path[st + i] == name[i];
    assert forall i :: d < i < |path| ==> path[i] == ext[i - d - 1];
    assert |path| == st + 2 && path[st] == '.' ==> name == ".";
    ExtNameAt(path, st, d);
  }

  // ---------------------------------------------------------------------------
  // The extension check ignores case
  // ---------------------------------------------------------------------------

  /** Lower-casing leaves '.' and '/' alone and produces neither from another character. */
  lemma LowerCharKeeps(c: char)
    ensures LowerChar(c) == '.' <==> c == '.'
    ensures LowerChar(c) == '/' <==> c == '/'
  {
  }

  lemma {:induction false} TrimEndLower(s: string, n: nat)
    requires n <= |s|
    ensures TrimEnd(Lower(s), n) == TrimEnd(s, n)
    decreases n
  {
    if n > 0 {
      LowerCharKeeps(s[n - 1]);
      TrimEndLower(s, n - 1);
    }
  }

  lemma {:induction false} SegStartLower(s: string, n: nat)
    requires n <= |s|
    ensures SegStart(Lower(s), n) == SegStart(s, n)
    decreases n
  {
    if n > 0 {
      LowerCharKeeps(s[n - 1]);
      SegStartLower(s, n - 1);
    }
  }

  lemma {:induction false} LastDotLower(s: string, lo: nat, hi: nat)
    requires lo <= hi <= |s|
    ensures LastDot(Lower(s), lo, hi) == LastDot(s, lo, hi)
    decreases hi
  {
    if hi > lo {
      LowerCharKeeps(s[hi - 1]);
      LastDotLower(s, lo, hi - 1);
    }
  }

  lemma LowerSlice(s: string, i: nat, j: nat)
    requires i <= j <= |s|
    ensures Lower(s)[i..j] == Lower(s[i..j])
  {
  }

  lemma LowerDotDot(b: string)
    ensures Lower(b) == ".." <==> b == ".."
  {
    if |b| == 2 {
      LowerCharKeeps(b[0]);
      LowerCharKeeps(b[1]);
      assert Lower(b)[0] == LowerChar(b[0]) && Lower(b)[1] == LowerChar(b[1]);
      if Lower(b) == ".." {
        assert b == "..";
      }
    }
  }

  /** Lower-casing a path lower-cases its extension and nothing else about it. */
  lemma ExtNameLower(path: string)
    ensures ExtName(Lower(path)) == Lower(ExtName(path))
  {
    var lp := Lower(path);
    TrimEndLower(path, |path|);
    var n := TrimEnd(path, |path|);
    SegStartLower(path, n);
    var st := SegStart(path, n);
    LastDotLower(path, st, n);
    match LastDot(path, st, n)
    case None =>
    case Some(d) =>
      LowerSlice(path, st, n);
      LowerDotDot(path[st..n]);
      LowerSlice(path, d, n);
  }

  /** Files whose paths differ only in letter case pass or fail the extension check together. */
  lemma HasImageExtensionIgnoresCase(f: string, g: string)
    requires Lower(f) == Lower(g)
    ensures HasImageExtension(f) <==> HasImageExtension(g)
  {
    ExtNameLower(f);
    ExtNameLower(g);
  }

  /** Every extension on the list passes, in any letter case: a file `<dir><name><e>` is accepted when `Lower(e)` is listed. */
  lemma ListedExtensionAccepted(dir: string, name: string, ext: string)
    requires dir == "" || dir[|dir| - 1] == '/'
    requires name != "" && NoSlash(name)
    requires Lower("." + ext) in ImageExtensions
    ensures HasImageExtension(dir + name + "." + ext)
  {
    var e := "." + ext;
    assert Lower(e)[1..] == Lower(ext);
    assert forall i :: 0 <= i < |ext| ==> ext[i] != '.' && ext[i] != '/' by {
      forall i | 0 <= i < |ext| ensures ext[i] != '.' && ext[i] != '/' {
        assert Lower(e)[i + 1] == LowerChar(ext[i]);
      }
    }
    ExtNameOfFile(dir + name + "." + ext, dir, name, ext);
  }

  // ---------------------------------------------------------------------------
  // generateGalleryIndex: filter, parse, sort
  // ---------------------------------------------------------------------------

  /** What one file contributes: its entry when its extension is listed and its path parses. */
  function Entry(file: string): Option<MediaItem>
  {
    if !HasImageExtension(file) then None else ParseImagePath(file)
  }

  /** A file contributes exactly when its lower-cased extension is listed and some suffix of its path has the dated shape. */
  lemma EntryIff(file: string)
    ensures Entry(file).Some? <==> Lower(ExtName(file)) in ImageExtensions && exists p :: ShapedAt(file, p)
  {
    ParseIff(file);
  }

  /**
   * The entry of a file has a four-digit year, two-digit month and day, a
   * `YYYY-MM-DD` date, and a file name that ends the path.
   */
  lemma EntryItem(file: string)
    requires Entry(file).Some?
    ensures var x := Entry(file).value;
      |x.year| == 4 && AllDigits(x.year) && |x.month| == 2 && AllDigits(x.month) &&
      |x.day| == 2 && AllDigits(x.day) && x.date == x.year + "-" + x.month + "-" + x.day &&
      IsFileName(x.filename) && |x.filename| < |file| && file[|file| - |x.filename|..] == x.filename
  {
    ParsedDate(file);
    EntryFileName(file);
  }

  lemma EntryFileName(file: string)
    requires Entry(file).Some?
    ensures var x := Entry(file).value;
      |x.year| == 4 && AllDigits(x.year) &&
      IsFileName(x.filename) && |x.filename| < |file| && file[|file| - |x.filename|..] == x.filename
  {
    var k := FirstMatchStart(file, 0).value;
    var m := MatchAt(file, k).value;
    var f := m.name + "." + m.ext;
    assert Entry(file).value == ItemOf(m) && ItemOf(m).filename == f && ItemOf(m).year == m.year;
    MatchDateFields(file, k);
    MatchSpells(file, k);
    assert SplitsAt(f, |m.name|);
    SuffixEnds(file, k, m.year + "/" + m.month + "/" + m.day + "/", f);
  }

  lemma SuffixEnds(s: string, k: nat, head: string, tail: string)
    requires k <= |s| && s[k..] == head + tail && head != []
    ensures |tail| < |s| - k && s[|s| - |tail|..] == tail
  {
    assert s[|s| - |tail|..] == s[k..][|head|..];
  }

  /** `file` passes the extension check and its path parses to `x`. */
  predicate Yields(file: string, x: MediaItem)
  {
    HasImageExtension(file) && ParseImagePath(file) == Some(x)
  }

  /** The `images` array when the loop ends: the entries of the files, in file order. */
  function Collected(files: seq<string>): seq<MediaItem>
  {
    FilterMap(files, Entry)
  }

  /** Collecting keeps file order: the entries of two lists of files are those of the first, then those of the second. */
  lemma CollectedAppend(a: seq<string>, b: seq<string>)
    ensures Collected(a + b) == Collected(a) + Collected(b)
  {
    FilterMapAppend(a, b, Entry);
  }

  /** An entry is collected exactly when some file has a listed extension and parses to it. */
  lemma CollectedMember(files: seq<string>, x: MediaItem)
    ensures x in Collected(files) <==> exists k :: 0 <= k < |files| && Yields(files[k], x)
  {
    FilterMapMember(files, Entry, x);
    assert forall k :: 0 <= k < |files| ==> (Entry(files[k]) == Some(x) <==> Yields(files[k], x));
  }

  /** At most one entry per file. */
  lemma CollectedLength(files: seq<string>)
    ensures |Collected(files)| <= |files|
  {
    FilterMapLength(files, Entry);
  }

  /**
   * The body of `generateGalleryIndex` between the directory walk and the file
   * write: the loop that skips unlisted extensions and pushes parsed entries,
   * then the stable date-descending sort. The result is the manifest.
   */
  method GenerateGalleryIndex(files: seq<string>) returns (index: seq<MediaItem>)
    ensures index == SortByDateDesc(Collected(files))
    ensures SortedByDate(index) && multiset(index) == multiset(Collected(files))
    ensures forall x :: x in index <==>
      exists k :: 0 <= k < |files| && Yields(files[k], x)
    ensures forall d :: DatedOn(index, d) == DatedOn(Collected(files), d)
  {
    var images: seq<MediaItem> := [];
    for i := 0 to |files|
      invariant images == Collected(files[..i])
    {
      assert files[..i + 1][..i] == files[..i];
      var file := files[i];
      var ext := Lower(ExtName(file));
      if ext !in ImageExtensions {
        continue;
      }
      var parsed := ParseImagePath(file);
      if parsed.Some? {
        images := images + [parsed.value];
      }
    }
    assert files[..|files|] == files;
    index := SortByDateDesc(images);
    SortByDateDescCorrect(images);
    forall d ensures DatedOn(index, d) == DatedOn(images, d) {
      SortByDateDescStable(images, d);
    }
    forall x ensures x in index <==> x in images {
      assert x in index <==> multiset(index)[x] > 0;
      assert x in images <==> multiset(images)[x] > 0;
    }
    forall x ensures x in images <==>
      exists k :: 0 <= k < |files| && Yields(files[k], x)
    {
      CollectedMember(files, x);
    }
  }

}
