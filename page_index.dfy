/** `getCurrentPageIndex` of js/script.js: which entry of a list of page
    file names the current URL path names. */
module PageIndex {
  import opened Js

  /** The page a path ending in `/` stands for. */
  const DefaultPage: string := "index.html"

  /** `path.split('/').pop()`: the text after the last `/`, or the whole
      path when it has none. */
  function LastSegment(path: string): (r: string)
    ensures '/' !in r
    ensures |r| <= |path| && r == path[|path| - |r|..]
    ensures |r| < |path| ==> path[|path| - |r| - 1] == '/'
  {
    if path == [] || path[|path| - 1] == '/' then ""
    else LastSegment(path[..|path| - 1]) + [path[|path| - 1]]
  }

  /** `currentFile`: the last segment, or `index.html` when that is empty. */
  function CurrentFile(path: string): (r: string)
    ensures r != ""
    ensures LastSegment(path) != "" ==> r == LastSegment(path)
    ensures LastSegment(path) == "" ==> r == DefaultPage
  {
    var segment := LastSegment(path);
    if segment == "" then DefaultPage else segment
  }

  /** The test `findIndex` applies to each page. */
  predicate PageMatches(page: string, currentFile: string)
  {
    page == currentFile || (currentFile == "" && page == DefaultPage)
  }

  /** The second disjunct of the test is dead: `currentFile` is never empty,
      so a page matches exactly when it equals `currentFile`. */
  lemma EmptyFileDisjunctIsDead(page: string, path: string)
    ensures PageMatches(page, CurrentFile(path)) <==> page == CurrentFile(path)
  {
  }

  /** `pages.findIndex` with the test above: the first matching page, or -1
      when none matches. */
  function FindPage(pages: seq<string>, currentFile: string): (r: int)
    ensures -1 <= r < |pages|
    ensures 0 <= r ==> PageMatches(pages[r], currentFile)
    ensures forall j :: 0 <= j < |pages| && (r == -1 || j < r) ==> !PageMatches(pages[j], currentFile)
  {
    FindIndex(pages, page => PageMatches(page, currentFile))
  }

  /** The index `getCurrentPageIndex` returns once it knows the current
      file: the first page matching it, or 0. For a non-empty file name that
      is the first page equal to it. */
  function IndexForFile(pages: seq<string>, currentFile: string): (r: nat)
    ensures |pages| > 0 ==> r < |pages|
    ensures currentFile != "" && currentFile in pages ==>
      pages[r] == currentFile && forall j :: 0 <= j < r ==> pages[j] != currentFile
    ensures currentFile != "" && currentFile !in pages ==> r == 0
  {
    var index := FindPage(pages, currentFile);
    if index >= 0 then index else 0
  }

  /** `getCurrentPageIndex(pages)` at URL path `path`: the first page equal
      to the current file, or 0 when there is none. */
  function CurrentPageIndex(pages: seq<string>, path: string): (r: nat)
    ensures |pages| > 0 ==> r < |pages|
    ensures CurrentFile(path) in pages ==>
      pages[r] == CurrentFile(path) && forall j :: 0 <= j < r ==> pages[j] != CurrentFile(path)
    ensures CurrentFile(path) !in pages ==> r == 0
  {
    IndexForFile(pages, CurrentFile(path))
  }

  /** The last segment of a path is whatever follows its last `/`. */
  lemma {:induction false} LastSegmentAfterSlash(dir: string, name: string)
    requires '/' !in name
    ensures LastSegment(dir + "/" + name) == name
    decreases |name|
  {
    var path := dir + "/" + name;
    if name == [] {
      assert path[|path| - 1] == '/';
    } else {
      var shorter := name[..|name| - 1];
      assert path[..|path| - 1] == dir + "/" + shorter;
      assert path[|path| - 1] == name[|name| - 1];
      LastSegmentAfterSlash(dir, shorter);
      assert name == shorter + [name[|name| - 1]];
    }
  }

  /** The paths `dir/` and `dir/index.html` land on the same page. */
  lemma TrailingSlashIsIndexPage(pages: seq<string>, dir: string)
    ensures CurrentPageIndex(pages, dir + "/") == CurrentPageIndex(pages, dir + "/" + DefaultPage)
  {
    LastSegmentAfterSlash(dir, "");
    assert dir + "/" + "" == dir + "/";
    LastSegmentAfterSlash(dir, DefaultPage);
  }
}
