/**
 * The selection and accumulation loops of the script: the shapefile and
 * geodatabase locators over an `os.walk` listing, the link gathering of
 * `zip_urls` over the hrefs of the scraped pages, and, in the main loop,
 * the refresh check and the choice of the download link. Pages, directory
 * listings and clock readings are given as inputs.
 */
module Locate {
  import opened Text
  import opened Dict

  // ---------------------------------------------------------------------
  // Directory listings
  // ---------------------------------------------------------------------

  /** One `(dirpath, dirnames, filenames)` triple of `os.walk`; `dirnames` is never read. */
  datatype WalkEntry = WalkEntry(dirpath: string, filenames: seq<string>)

  /** `os.path.join(a, b)` with POSIX rules. */
  function PathJoin(a: string, b: string): string {
    if StartsWith(b, "/") then b
    else if a == "" || EndsWith(a, "/") then a + b
    else a + "/" + b
  }

  /**
   * `os.path.join` keeps `b` whole at the end. An absolute `b` discards
   * `a`. Otherwise `a` stays in front and `b` follows it directly when `a`
   * is empty or ends in `/`, and after exactly one added `/` when it does
   * not. The joined path has `b`'s last component. `PathJoinDetermined`
   * shows that these facts leave no other result.
   */
  lemma PathJoinSpec(a: string, b: string)
    ensures EndsWith(PathJoin(a, b), b)
    ensures StartsWith(b, "/") ==> PathJoin(a, b) == b
    ensures !StartsWith(b, "/") ==> StartsWith(PathJoin(a, b), a)
    ensures |PathJoin(a, b)| <= |a| + 1 + |b|
    ensures !StartsWith(b, "/") ==>
      |PathJoin(a, b)| == |a| + |b| + (if a == "" || EndsWith(a, "/") then 0 else 1)
    ensures !StartsWith(b, "/") && a != "" ==> PathJoin(a, b)[|PathJoin(a, b)| - |b| - 1] == '/'
    ensures AfterLastSlash(PathJoin(a, b)) == AfterLastSlash(b)
  {
    var r := PathJoin(a, b);
    if StartsWith(b, "/") {
    } else if a == "" || EndsWith(a, "/") {
      assert r[..|a|] == a && r[|r| - |b|..] == b;
      AfterLastSlashAfterSep(a, b);
    } else {
      assert r[..|a|] == a && r[|r| - |b|..] == b;
      assert r == (a + "/") + b;
      AfterLastSlashAfterSep(a + "/", b);
    }
  }

  /** Any text with the shape `PathJoinSpec` describes is the join itself. */
  lemma PathJoinDetermined(a: string, b: string, r: string)
    requires EndsWith(r, b)
    requires StartsWith(b, "/") ==> r == b
    requires !StartsWith(b, "/") ==> StartsWith(r, a)
    requires !StartsWith(b, "/") ==> |r| == |a| + |b| + (if a == "" || EndsWith(a, "/") then 0 else 1)
    requires !StartsWith(b, "/") && a != "" ==> r[|r| - |b| - 1] == '/'
    ensures r == PathJoin(a, b)
  {
    if !StartsWith(b, "/") {
      assert r[..|a|] == a && r[|r| - |b|..] == b;
      if a == "" || EndsWith(a, "/") {
        assert r == r[..|a|] + r[|a|..];
      } else {
        assert r == r[..|a|] + [r[|a|]] + r[|a| + 1..];
      }
    }
  }

  /** `os.path.join(dir, f)` for every `f` of `files`, in order. */
  function JoinAll(dir: string, files: seq<string>): seq<string>
    decreases |files|
  {
    if |files| == 0 then [] else JoinAll(dir, files[..|files| - 1]) + [PathJoin(dir, files[|files| - 1])]
  }

  /** The `file_list` of `shp_file_locator`: every walked file joined onto its directory. */
  function WalkedFiles(top: string, walk: seq<WalkEntry>): seq<string>
    decreases |walk|
  {
    if |walk| == 0 then []
    else
      var e := walk[|walk| - 1];
      WalkedFiles(top, walk[..|walk| - 1]) + JoinAll(PathJoin(top, e.dirpath), e.filenames)
  }

  /** `file[-4:] == '.shp' and file_name in file`. */
  predicate ShpMatch(file: string, name: string) {
    (if |file| >= 4 then file[|file| - 4..] else file) == ".shp" && Contains(file, name)
  }

  /** `m` is the last position of `files` that `ShpMatch` accepts. */
  ghost predicate LastShpAt(files: seq<string>, name: string, m: int) {
    && 0 <= m < |files| && ShpMatch(files[m], name)
    && forall j :: m < j < |files| ==> !ShpMatch(files[j], name)
  }

  lemma WalkedFilesSnoc(top: string, walk: seq<WalkEntry>, i: int)
    requires 0 <= i < |walk|
    ensures WalkedFiles(top, walk[..i + 1])
      == WalkedFiles(top, walk[..i]) + JoinAll(PathJoin(top, walk[i].dirpath), walk[i].filenames)
  {
    assert walk[..i + 1][..i] == walk[..i];
  }

  lemma JoinAllSnoc(dir: string, files: seq<string>, j: int)
    requires 0 <= j < |files|
    ensures JoinAll(dir, files[..j + 1]) == JoinAll(dir, files[..j]) + [PathJoin(dir, files[j])]
  {
    assert files[..j + 1][..j] == files[..j];
  }

  /** The first loop of `shp_file_locator`: every walked file joined onto its directory, in walk order. */
  method ListFiles(top: string, walk: seq<WalkEntry>) returns (fileList: seq<string>)
    ensures fileList == WalkedFiles(top, walk)
  {
    fileList := [];
    var i := 0;
    while i < |walk|
      invariant 0 <= i <= |walk|
      invariant fileList == WalkedFiles(top, walk[..i])
    {
      var entry := walk[i];
      var dir := PathJoin(top, entry.dirpath);
      ghost var done := fileList;
      var j := 0;
      while j < |entry.filenames|
        invariant 0 <= j <= |entry.filenames|
        invariant fileList == done + JoinAll(dir, entry.filenames[..j])
      {
        JoinAllSnoc(dir, entry.filenames, j);
        fileList := fileList + [PathJoin(dir, entry.filenames[j])];
        j := j + 1;
      }
      assert entry.filenames[..j] == entry.filenames;
      WalkedFilesSnoc(top, walk, i);
      i := i + 1;
    }
    assert walk[..i] == walk;
  }

  /** The last of `files` that `ShpMatch` accepts, if any. */
  function LastShp(files: seq<string>, name: string): Option<string>
    decreases |files|
  {
    if |files| == 0 then None
    else if ShpMatch(files[|files| - 1], name) then Some(files[|files| - 1])
    else LastShp(files[..|files| - 1], name)
  }

  /** `LastShp` finds nothing exactly when no file matches. */
  lemma {:induction false} LastShpNone(files: seq<string>, name: string)
    ensures LastShp(files, name).None? <==> forall m :: 0 <= m < |files| ==> !ShpMatch(files[m], name)
    decreases |files|
  {
    if |files| > 0 {
      var n := |files| - 1;
      var prefix := files[..n];
      LastShpNone(prefix, name);
      if !ShpMatch(files[n], name) {
        forall m | 0 <= m < n ensures files[m] == prefix[m] {
        }
      }
    }
  }

  /** When `LastShp` finds a file, it is the file at the last matching position. */
  lemma {:induction false} LastShpSome(files: seq<string>, name: string)
    requires LastShp(files, name).Some?
    ensures exists m :: LastShpAt(files, name, m) && files[m] == LastShp(files, name).value
    decreases |files|
  {
    var n := |files| - 1;
    var prefix := files[..n];
    if ShpMatch(files[n], name) {
      assert LastShpAt(files, name, n);
    } else {
      assert LastShp(files, name) == LastShp(prefix, name);
      LastShpSome(prefix, name);
      var m :| LastShpAt(prefix, name, m) && prefix[m] == LastShp(prefix, name).value;
      LastShpAtSnoc(files, name, m);
    }
  }

  /** A last match stays the last one when a non-matching file follows. */
  lemma LastShpAtSnoc(files: seq<string>, name: string, m: int)
    requires |files| > 0 && !ShpMatch(files[|files| - 1], name)
    requires LastShpAt(files[..|files| - 1], name, m)
    ensures LastShpAt(files, name, m) && files[m] == files[..|files| - 1][m]
  {
    var n := |files| - 1;
    forall j | m < j < n ensures files[j] == files[..n][j] {
    }
  }

  /**
   * `shp_file_locator`: the last walked file that ends in `.shp` and
   * contains `name`. `None` is the case where `shp_file` is never assigned
   * and the function raises UnboundLocalError.
   */
  method ShpFileLocator(top: string, walk: seq<WalkEntry>, name: string) returns (shp: Option<string>)
    ensures shp == LastShp(WalkedFiles(top, walk), name)
  {
    var fileList := ListFiles(top, walk);
    shp := None;
    var k := 0;
    while k < |fileList|
      invariant 0 <= k <= |fileList|
      invariant shp == LastShp(fileList[..k], name)
    {
      var file := fileList[k];
      assert fileList[..k + 1][..k] == fileList[..k];
      if (if |file| >= 4 then file[|file| - 4..] else file) == ".shp" && Contains(file, name) {
        shp := Some(file);
      }
      k := k + 1;
    }
    assert fileList[..k] == fileList;
  }

  /** Every directory of the walk contributes, once per file, its joined path when its `dirpath` contains `.gdb`. */
  function GdbCandidates(top: string, walk: seq<WalkEntry>): seq<string>
    decreases |walk|
  {
    if |walk| == 0 then []
    else
      var e := walk[|walk| - 1];
      GdbCandidates(top, walk[..|walk| - 1])
        + (if Contains(e.dirpath, ".gdb") then Repeat(PathJoin(top, e.dirpath), |e.filenames|) else [])
  }

  function Repeat(x: string, n: nat): (r: seq<string>)
    ensures |r| == n && forall k :: 0 <= k < n ==> r[k] == x
  {
    if n == 0 then [] else Repeat(x, n - 1) + [x]
  }

  /** `gdbfile_locator`: the loop that keeps each `.gdb` directory once, in the order first met. */
  method GdbFileLocator(top: string, walk: seq<WalkEntry>) returns (fileList: seq<string>)
    ensures fileList == AppendNew([], GdbCandidates(top, walk))
  {
    fileList := [];
    var i := 0;
    while i < |walk|
      invariant 0 <= i <= |walk|
      invariant fileList == AppendNew([], GdbCandidates(top, walk[..i]))
    {
      var entry := walk[i];
      var dir := PathJoin(top, entry.dirpath);
      var isGdb := Contains(entry.dirpath, ".gdb");
      ghost var done := GdbCandidates(top, walk[..i]);
      assert walk[..i + 1][..i] == walk[..i];
      assert done + (if isGdb then Repeat(dir, 0) else []) == done;
      var j := 0;
      while j < |entry.filenames|
        invariant 0 <= j <= |entry.filenames|
        invariant fileList == AppendNew([], GdbCandidates(top, walk[..i]) + (if isGdb then Repeat(dir, j) else []))
      {
        if isGdb {
          ghost var before := GdbCandidates(top, walk[..i]) + Repeat(dir, j);
          assert GdbCandidates(top, walk[..i]) + Repeat(dir, j + 1) == before + [dir];
          if dir !in fileList {
            fileList := fileList + [dir];
          }
        }
        j := j + 1;
      }
      assert GdbCandidates(top, walk[..i + 1]) == done + (if isGdb then Repeat(dir, j) else []);
      i := i + 1;
    }
    assert walk[..i] == walk;
  }

  /**
   * The geodatabase directories found are pairwise distinct, and they are
   * exactly the joined paths of the walked directories that contain `.gdb`
   * in their `dirpath` and hold at least one file.
   */
  lemma GdbFileLocatorFinds(top: string, walk: seq<WalkEntry>, d: string)
    ensures Distinct(AppendNew([], GdbCandidates(top, walk)))
    ensures d in AppendNew([], GdbCandidates(top, walk)) <==>
      exists i :: 0 <= i < |walk| && GdbDirAt(top, walk, i) && d == PathJoin(top, walk[i].dirpath)
  {
    AppendNewSpec([], GdbCandidates(top, walk));
    GdbCandidatesMembers(top, walk, d);
  }

  ghost predicate GdbDirAt(top: string, walk: seq<WalkEntry>, i: int)
    requires 0 <= i < |walk|
  {
    Contains(walk[i].dirpath, ".gdb") && |walk[i].filenames| > 0
  }

  lemma {:induction false} GdbCandidatesMembers(top: string, walk: seq<WalkEntry>, d: string)
    ensures d in GdbCandidates(top, walk) <==>
      exists i :: 0 <= i < |walk| && GdbDirAt(top, walk, i) && d == PathJoin(top, walk[i].dirpath)
    decreases |walk|
  {
    if |walk| > 0 {
      var n := |walk| - 1;
      var prefix := walk[..n];
      GdbCandidatesMembers(top, prefix, d);
      var e := walk[n];
      var tail := if Contains(e.dirpath, ".gdb") then Repeat(PathJoin(top, e.dirpath), |e.filenames|) else [];
      assert GdbCandidates(top, walk) == GdbCandidates(top, prefix) + tail;
      assert d in tail <==> GdbDirAt(top, walk, n) && d == PathJoin(top, e.dirpath) by {
        if d in tail {
          assert tail[0] == d;
        }
        if GdbDirAt(top, walk, n) && d == PathJoin(top, e.dirpath) {
          assert tail[0] == d;
        }
      }
      forall i | 0 <= i < n ensures walk[i] == prefix[i] {
      }
      if d in GdbCandidates(top, prefix) {
        var i :| 0 <= i < n && GdbDirAt(top, prefix, i) && d == PathJoin(top, prefix[i].dirpath);
        assert GdbDirAt(top, walk, i);
      }
    }
  }

  // ---------------------------------------------------------------------
  // Accumulating without duplicates
  // ---------------------------------------------------------------------

  ghost predicate Distinct(s: seq<string>) {
    forall i, j :: 0 <= i < j < |s| ==> s[i] != s[j]
  }

  /** Appends each element of `xs`, in order, that is not in the list yet. */
  function AppendNew(acc: seq<string>, xs: seq<string>): seq<string>
    decreases |xs|
  {
    if |xs| == 0 then acc
    else
      var r := AppendNew(acc, xs[..|xs| - 1]);
      if xs[|xs| - 1] in r then r else r + [xs[|xs| - 1]]
  }

  /** The position of the first occurrence of `x` in `xs`. */
  function FirstIndex(xs: seq<string>, x: string): (k: nat)
    requires x in xs
    ensures k < |xs| && xs[k] == x && forall j :: 0 <= j < k ==> xs[j] != x
    decreases |xs|
  {
    if xs[0] == x then 0 else 1 + FirstIndex(xs[1..], x)
  }

  /**
   * Appending without duplicates keeps the starting list in front, never
   * creates a duplicate, adds exactly the elements of `xs` not already
   * there, and adds them in the order of their first occurrence in `xs`.
   */
  lemma AppendNewSpec(acc: seq<string>, xs: seq<string>)
    ensures var r := AppendNew(acc, xs);
      && |acc| <= |r| && r[..|acc|] == acc
      && (Distinct(acc) ==> Distinct(r))
      && (forall x :: x in r <==> x in acc || x in xs)
      && (forall i :: |acc| <= i < |r| ==> r[i] in xs && r[i] !in acc)
      && (forall i, j :: |acc| <= i < j < |r| ==> FirstIndex(xs, r[i]) < FirstIndex(xs, r[j]))
  {
    AppendNewMembers(acc, xs);
    if Distinct(acc) {
      AppendNewDistinct(acc, xs);
    }
    AppendNewOrder(acc, xs);
  }

  lemma {:induction false} AppendNewMembers(acc: seq<string>, xs: seq<string>)
    ensures var r := AppendNew(acc, xs);
      && |acc| <= |r| && r[..|acc|] == acc
      && (forall x :: x in r <==> x in acc || x in xs)
      && (forall i :: |acc| <= i < |r| ==> r[i] in xs && r[i] !in acc)
    decreases |xs|
  {
    if |xs| > 0 {
      var n := |xs| - 1;
      var prefix := xs[..n];
      AppendNewMembers(acc, prefix);
      assert xs == prefix + [xs[n]];
    }
  }

  lemma {:induction false} AppendNewDistinct(acc: seq<string>, xs: seq<string>)
    requires Distinct(acc)
    ensures Distinct(AppendNew(acc, xs))
    decreases |xs|
  {
    if |xs| > 0 {
      AppendNewDistinct(acc, xs[..|xs| - 1]);
    }
  }

  lemma {:induction false} AppendNewOrder(acc: seq<string>, xs: seq<string>)
    ensures var r := AppendNew(acc, xs);
      && (forall i :: |acc| <= i < |r| ==> r[i] in xs)
      && (forall i, j :: |acc| <= i < j < |r| ==> FirstIndex(xs, r[i]) < FirstIndex(xs, r[j]))
    decreases |xs|
  {
    AppendNewMembers(acc, xs);
    if |xs| > 0 {
      var n := |xs| - 1;
      var prefix := xs[..n];
      AppendNewOrder(acc, prefix);
      AppendNewMembers(acc, prefix);
      var r0 := AppendNew(acc, prefix);
      var x := xs[n];
      assert xs == prefix + [x];
      forall y | y in prefix ensures FirstIndex(xs, y) == FirstIndex(prefix, y) {
        FirstIndexPrefix(prefix, x, y);
      }
      if x !in r0 {
        assert x !in prefix;
        FirstIndexLast(prefix, x);
      }
    }
  }

  lemma FirstIndexPrefix(prefix: seq<string>, x: string, y: string)
    requires y in prefix
    ensures FirstIndex(prefix + [x], y) == FirstIndex(prefix, y)
  {
    var k := FirstIndex(prefix, y);
    assert (prefix + [x])[k] == y;
  }

  lemma FirstIndexLast(prefix: seq<string>, x: string)
    requires x !in prefix
    ensures FirstIndex(prefix + [x], x) == |prefix|
  {
    assert (prefix + [x])[|prefix|] == x;
  }

  // ---------------------------------------------------------------------
  // zip_urls
  // ---------------------------------------------------------------------

  const BaseUrl := "http://www1.nyc.gov"

  /** The two pages `refer_pages` always starts with. */
  const FixedReferPages: seq<string> := [
    "/site/planning/data-maps/open-data/dwn-pluto-mappluto.page",
    "/site/planning/data-maps/open-data/districts-download-metadata.page"]

  /** An href worth following as a download page: it contains `open-data/dwn` and no `#`. */
  predicate Admitted(href: string) {
    Contains(href, "open-data/dwn") && !Contains(href, "#")
  }

  function AdmittedHrefs(hrefs: seq<string>): seq<string>
    decreases |hrefs|
  {
    if |hrefs| == 0 then []
    else
      var h := hrefs[|hrefs| - 1];
      AdmittedHrefs(hrefs[..|hrefs| - 1]) + (if Admitted(h) then [h] else [])
  }

  /** The `refer_pages` list after the first loop of `zip_urls`. */
  function ReferPages(hrefs: seq<string>): seq<string> {
    AppendNew(FixedReferPages, AdmittedHrefs(hrefs))
  }

  /** `base_url + href` for every href containing `/download/zip`, in order, repeats kept. */
  function ZipLinks(hrefs: seq<string>): seq<string>
    decreases |hrefs|
  {
    if |hrefs| == 0 then []
    else
      var h := hrefs[|hrefs| - 1];
      ZipLinks(hrefs[..|hrefs| - 1]) + (if Contains(h, "/download/zip") then [BaseUrl + h] else [])
  }

  /** The zip links of every refer page, page after page. */
  function PagesZipLinks(pages: seq<string>, fetch: string -> seq<string>): seq<string>
    decreases |pages|
  {
    if |pages| == 0 then []
    else PagesZipLinks(pages[..|pages| - 1], fetch) + ZipLinks(fetch(BaseUrl + pages[|pages| - 1]))
  }

  lemma PagesZipLinksSnoc(pages: seq<string>, p: int, fetch: string -> seq<string>)
    requires 0 <= p < |pages|
    ensures PagesZipLinks(pages[..p + 1], fetch) == PagesZipLinks(pages[..p], fetch) + ZipLinks(fetch(BaseUrl + pages[p]))
  {
    assert pages[..p + 1][..p] == pages[..p];
  }

  /** The first loop of `zip_urls`: the refer pages, extended by the admitted hrefs not listed yet. */
  method CollectReferPages(links: seq<string>) returns (referPages: seq<string>)
    ensures referPages == ReferPages(links)
  {
    referPages := FixedReferPages;
    var i := 0;
    while i < |links|
      invariant 0 <= i <= |links|
      invariant referPages == AppendNew(FixedReferPages, AdmittedHrefs(links[..i]))
    {
      var href := links[i];
      assert links[..i + 1][..i] == links[..i];
      ghost var xs := AdmittedHrefs(links[..i]);
      assert AdmittedHrefs(links[..i + 1]) == xs + (if Admitted(href) then [href] else []);
      assert (xs + [href])[..|xs|] == xs;
      if Admitted(href) {
        assert AppendNew(FixedReferPages, xs + [href]) ==
          if href in referPages then referPages else referPages + [href];
      } else {
        assert xs + [] == xs;
      }
      if Contains(href, "open-data/dwn") && href !in referPages {
        if !Contains(href, "#") {
          referPages := referPages + [href];
        }
      }
      i := i + 1;
    }
    assert links[..i] == links;
  }

  /** The zip-link loop `zip_urls` runs over the hrefs of a page. */
  method CollectZipLinks(hrefs: seq<string>) returns (urls: seq<string>)
    ensures urls == ZipLinks(hrefs)
  {
    urls := [];
    var i := 0;
    while i < |hrefs|
      invariant 0 <= i <= |hrefs|
      invariant urls == ZipLinks(hrefs[..i])
    {
      assert hrefs[..i + 1][..i] == hrefs[..i];
      if Contains(hrefs[i], "/download/zip") {
        urls := urls + [BaseUrl + hrefs[i]];
      }
      i := i + 1;
    }
    assert hrefs[..i] == hrefs;
  }

  /**
   * `zip_urls`: `links` are the hrefs of the landing page, and `fetch(url)`
   * the hrefs of the page at `url`.
   */
  method ZipUrls(links: seq<string>, fetch: string -> seq<string>) returns (zipUrls: seq<string>)
    ensures zipUrls == ZipLinks(links) + PagesZipLinks(ReferPages(links), fetch)
  {
    var referPages := CollectReferPages(links);
    zipUrls := CollectZipLinks(links);
    var p := 0;
    while p < |referPages|
      invariant 0 <= p <= |referPages|
      invariant zipUrls == ZipLinks(links) + PagesZipLinks(referPages[..p], fetch)
    {
      var page := referPages[p];
      var referLinks := fetch(BaseUrl + page);
      var found := CollectZipLinks(referLinks);
      PagesZipLinksSnoc(referPages, p, fetch);
      zipUrls := zipUrls + found;
      p := p + 1;
    }
    assert referPages[..p] == referPages;
  }

  lemma {:induction false} AdmittedHrefsMembers(hrefs: seq<string>, h: string)
    ensures h in AdmittedHrefs(hrefs) <==> h in hrefs && Admitted(h)
    decreases |hrefs|
  {
    if |hrefs| > 0 {
      var n := |hrefs| - 1;
      AdmittedHrefsMembers(hrefs[..n], h);
      assert hrefs == hrefs[..n] + [hrefs[n]];
    }
  }

  /**
   * The refer-page list starts with its two fixed pages, never holds a
   * duplicate, and holds besides them exactly the admitted hrefs of the
   * landing page, in the order they first appear there.
   */
  lemma ReferPagesSpec(links: seq<string>)
    ensures var pages := ReferPages(links);
      && |pages| >= 2 && pages[..2] == FixedReferPages
      && Distinct(pages)
      && (forall i :: 2 <= i < |pages| ==> pages[i] in AdmittedHrefs(links))
      && (forall h :: h in pages <==> h in FixedReferPages || (h in links && Admitted(h)))
      && (forall i, j :: 2 <= i < j < |pages| ==>
            FirstIndex(AdmittedHrefs(links), pages[i]) < FirstIndex(AdmittedHrefs(links), pages[j]))
  {
    var xs := AdmittedHrefs(links);
    AppendNewSpec(FixedReferPages, xs);
    forall h ensures h in xs <==> h in links && Admitted(h) {
      AdmittedHrefsMembers(links, h);
    }
  }

  /** The zip links of two lists of hrefs one after the other are the two lists' zip links, in that order. */
  lemma {:induction false} ZipLinksAppend(a: seq<string>, b: seq<string>)
    ensures ZipLinks(a + b) == ZipLinks(a) + ZipLinks(b)
    decreases |b|
  {
    if |b| > 0 {
      var n := |b| - 1;
      ZipLinksAppend(a, b[..n]);
      assert (a + b)[..|a + b| - 1] == a + b[..n];
    } else {
      assert a + b == a;
    }
  }

  /** A zip link is the base URL followed by an href that contains `/download/zip`, and every such href gives one. */
  lemma {:induction false} ZipLinksMembers(hrefs: seq<string>, u: string)
    ensures u in ZipLinks(hrefs) <==>
      exists h :: h in hrefs && Contains(h, "/download/zip") && u == BaseUrl + h
    decreases |hrefs|
  {
    if |hrefs| > 0 {
      var n := |hrefs| - 1;
      ZipLinksMembers(hrefs[..n], u);
      assert hrefs == hrefs[..n] + [hrefs[n]];
    }
  }

  // ---------------------------------------------------------------------
  // Main loop: refresh check and link choice
  // ---------------------------------------------------------------------

  /**
   * The refresh check: a dataset is skipped while the time since its last
   * update is less than its update frequency. Times are whole numbers of
   * one common unit.
   */
  predicate Due(today: int, lastUpdate: int, frequency: int) {
    !(today - lastUpdate < frequency)
  }

  /** `m` is the last position of `urls` whose URL contains `prefix`. */
  ghost predicate LastLinkAt(urls: seq<string>, prefix: string, m: int) {
    && 0 <= m < |urls| && Contains(urls[m], prefix)
    && forall j :: m < j < |urls| ==> !Contains(urls[j], prefix)
  }

  /** The last of `urls` that contains `prefix`, or `''` when none does. */
  function LastLink(urls: seq<string>, prefix: string): string
    decreases |urls|
  {
    if |urls| == 0 then ""
    else if Contains(urls[|urls| - 1], prefix) then urls[|urls| - 1]
    else LastLink(urls[..|urls| - 1], prefix)
  }

  /**
   * With no URL containing the prefix the link is `''`; otherwise it is the
   * URL at the last position that contains the prefix.
   */
  lemma {:induction false} LastLinkSpec(urls: seq<string>, prefix: string)
    ensures (forall m :: 0 <= m < |urls| ==> !Contains(urls[m], prefix)) ==> LastLink(urls, prefix) == ""
    ensures (exists m :: 0 <= m < |urls| && Contains(urls[m], prefix)) ==>
      exists m :: LastLinkAt(urls, prefix, m) && LastLink(urls, prefix) == urls[m]
    decreases |urls|
  {
    if |urls| > 0 {
      var n := |urls| - 1;
      var prefixUrls := urls[..n];
      LastLinkSpec(prefixUrls, prefix);
      if Contains(urls[n], prefix) {
        assert LastLinkAt(urls, prefix, n);
      } else {
        if exists m :: 0 <= m < |urls| && Contains(urls[m], prefix) {
          var m0 :| 0 <= m0 < |urls| && Contains(urls[m0], prefix);
          assert prefixUrls[m0] == urls[m0];
          var m :| LastLinkAt(prefixUrls, prefix, m) && LastLink(prefixUrls, prefix) == prefixUrls[m];
          assert LastLinkAt(urls, prefix, m);
        } else {
          forall m | 0 <= m < n ensures !Contains(prefixUrls[m], prefix) {
            assert prefixUrls[m] == urls[m];
          }
        }
      }
    }
  }

  /** The choice of `download_link` from the zip URLs for one dataset. */
  method ChooseDownloadLink(zipsList: seq<string>, prefix: string) returns (downloadLink: string)
    ensures downloadLink == LastLink(zipsList, prefix)
  {
    downloadLink := "";
    var k := 0;
    while k < |zipsList|
      invariant 0 <= k <= |zipsList|
      invariant downloadLink == LastLink(zipsList[..k], prefix)
    {
      assert zipsList[..k + 1][..k] == zipsList[..k];
      if Contains(zipsList[k], prefix) {
        downloadLink := zipsList[k];
      }
      k := k + 1;
    }
    assert zipsList[..k] == zipsList;
  }

  /** The columns of one metadata row the main loop reads; times are whole numbers of one unit. */
  datatype Metadata = Metadata(
    externalNamePrefix: string, internalName: string, dataFormat: string,
    updateFrequency: int, updateDate: int)

  /** A dataset the main loop goes on to download, with the link chosen for it. */
  datatype Job = Job(metadata: Metadata, downloadLink: string)

  /** The jobs of the main loop: the due rows in table order, each with its link. */
  function Jobs(rows: seq<Metadata>, zipsList: seq<string>, today: int): seq<Job>
    decreases |rows|
  {
    if |rows| == 0 then []
    else
      var row := rows[|rows| - 1];
      Jobs(rows[..|rows| - 1], zipsList, today)
        + (if Due(today, row.updateDate, row.updateFrequency)
           then [Job(row, LastLink(zipsList, row.externalNamePrefix))] else [])
  }

  /**
   * The date check and link choice of the main loop: rows updated less
   * than their frequency ago are skipped, every other row gets its link.
   */
  method PlanDownloads(rows: seq<Metadata>, zipsList: seq<string>, today: int) returns (jobs: seq<Job>)
    ensures jobs == Jobs(rows, zipsList, today)
  {
    jobs := [];
    var i := 0;
    while i < |rows|
      invariant 0 <= i <= |rows|
      invariant jobs == Jobs(rows[..i], zipsList, today)
    {
      var metadata := rows[i];
      assert rows[..i + 1][..i] == rows[..i];
      var timePassed := today - metadata.updateDate;
      if timePassed < metadata.updateFrequency {
        i := i + 1;
        continue;
      }
      var downloadLink := ChooseDownloadLink(zipsList, metadata.externalNamePrefix);
      jobs := jobs + [Job(metadata, downloadLink)];
      i := i + 1;
    }
    assert rows[..i] == rows;
  }

  /**
   * Each row is decided on its own: the jobs of two runs of rows are the
   * jobs of the first run followed by those of the second, so the table
   * order is kept.
   */
  lemma {:induction false} JobsAppend(a: seq<Metadata>, b: seq<Metadata>, zipsList: seq<string>, today: int)
    ensures Jobs(a + b, zipsList, today) == Jobs(a, zipsList, today) + Jobs(b, zipsList, today)
    decreases |b|
  {
    if |b| == 0 {
      assert a + b == a;
    } else {
      var n := |b| - 1;
      var ab := a + b;
      assert ab[..|ab| - 1] == a + b[..n];
      assert ab[|ab| - 1] == b[n];
      JobsAppend(a, b[..n], zipsList, today);
    }
  }

  /**
   * A row gets a job exactly when it is due, and every job carries the
   * link chosen for its own row.
   */
  lemma {:induction false} JobsSpec(rows: seq<Metadata>, zipsList: seq<string>, today: int)
    ensures forall job :: job in Jobs(rows, zipsList, today) ==>
      job.metadata in rows && Due(today, job.metadata.updateDate, job.metadata.updateFrequency)
      && job.downloadLink == LastLink(zipsList, job.metadata.externalNamePrefix)
    ensures forall row :: row in rows && Due(today, row.updateDate, row.updateFrequency) ==>
      Job(row, LastLink(zipsList, row.externalNamePrefix)) in Jobs(rows, zipsList, today)
    ensures |Jobs(rows, zipsList, today)| <= |rows|
    decreases |rows|
  {
    if |rows| > 0 {
      var n := |rows| - 1;
      JobsSpec(rows[..n], zipsList, today);
      assert rows == rows[..n] + [rows[n]];
    }
  }
}
