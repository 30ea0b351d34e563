/**
 * The directory handler of the admin area (admin/class-directory-handler.php):
 * path validation, the DOCX/ODT structural check, the statistics and size
 * folds over a recursive directory walk, the template scan and the
 * retention rule of `clean_directory`.
 *
 * The walk is the sequence of items `RecursiveIteratorIterator` yields, in
 * iteration order; `None` stands for a path that is not a directory. The
 * `path_is_absolute` helper, `ZipArchive::open`, the clock and `unlink` are
 * parameters.
 */
module DirectoryHandler {
  import opened Results
  import opened PhpStrings
  import opened Files

  /** The error codes of the `WP_Error`s the handler returns. */
  datatype HandlerError = InvalidPath | RelativePath | OutsideWordPress | InvalidDirectory

  // ---------------------------------------------------------------------------
  // validate_directory_path
  // ---------------------------------------------------------------------------

  /**
   * `validate_directory_path`: a path with `..` anywhere is rejected first;
   * then it must be absolute; then it must start with ABSPATH without its
   * trailing slash.
   */
  function ValidateDirectoryPath(path: string, abspath: string, isAbsolute: string -> bool): (r: Outcome<HandlerError>)
    ensures Contains(path, "..") ==> r == Fail(InvalidPath)
    ensures !Contains(path, "..") && !isAbsolute(path) ==> r == Fail(RelativePath)
    ensures !Contains(path, "..") && isAbsolute(path) && !(Untrailingslashit(abspath) <= path) ==> r == Fail(OutsideWordPress)
    ensures r == Pass <==> !Contains(path, "..") && isAbsolute(path) && Untrailingslashit(abspath) <= path
  {
    StrPosFindsSubstrings(path, "..");
    StrPosZeroIsPrefix(path, Untrailingslashit(abspath));
    if StrPos(path, "..").Some? then Fail(InvalidPath)
    else if !isAbsolute(path) then Fail(RelativePath)
    else if StrPos(path, Untrailingslashit(abspath)) != Some(0) then Fail(OutsideWordPress)
    else Pass
  }

  // ---------------------------------------------------------------------------
  // validate_template_file
  // ---------------------------------------------------------------------------

  const AllowedExtensions: seq<string> := ["docx", "odt"]

  /** The entries `validate_template_file` looks up for an (already allowed) extension. */
  function RequiredEntries(ext: string): seq<string> {
    if ext == "docx" then ["[Content_Types].xml", "word/document.xml"]
    else ["META-INF/manifest.xml", "content.xml"]
  }

  /**
   * The structural rule, stated on its own: a DOCX package carries the
   * content-types part and the main document part (ECMA-376 Part 2, Open
   * Packaging Conventions); an ODF package carries its manifest and its
   * content stream (OASIS ODF 1.2 Part 3, section 3).
   */
  predicate IsTemplateArchive(ext: string, a: Archive) {
    || (ext == "docx" && "[Content_Types].xml" in a && "word/document.xml" in a)
    || (ext == "odt" && "META-INF/manifest.xml" in a && "content.xml" in a)
  }

  /** Every name of `names` is an entry of the archive (the `locateName` loop). */
  function AllLocated(names: seq<string>, a: Archive): (r: bool)
    ensures r <==> forall i :: 0 <= i < |names| ==> names[i] in a
  {
    |names| == 0 || (names[0] in a && AllLocated(names[1..], a))
  }

  /**
   * `validate_template_file`: the lower-cased extension must be allowed, the
   * file must open as a ZIP archive (`open` returns `None` otherwise) and
   * every required entry must be present.
   */
  function ValidateTemplateFile(file: string, open: string -> Option<Archive>): (r: bool)
    ensures r <==> open(file).Some? && IsTemplateArchive(ToLower(Extension(file)), open(file).value)
  {
    var ext := ToLower(Extension(file));
    if ext !in AllowedExtensions then false
    else match open(file)
      case None => false
      case Some(a) =>
        var required := RequiredEntries(ext);
        assert AllLocated(required, a) <==> required[0] in a && required[1] in a;
        AllLocated(required, a)
  }

  // ---------------------------------------------------------------------------
  // get_directory_size and get_directory_stats
  // ---------------------------------------------------------------------------

  function Max(a: int, b: int): int {
    if a >= b then a else b
  }

  /** Total size of the regular files of a walk. */
  function SizeSum(walk: seq<Entry>): nat {
    if |walk| == 0 then 0
    else SizeSum(walk[..|walk| - 1]) + (if walk[|walk| - 1].isFile then walk[|walk| - 1].size else 0)
  }

  /** Number of regular files of a walk. */
  function FileCount(walk: seq<Entry>): nat {
    if |walk| == 0 then 0
    else FileCount(walk[..|walk| - 1]) + (if walk[|walk| - 1].isFile then 1 else 0)
  }

  /** The lower-cased extension `get_directory_stats` files an entry under. */
  function ExtOf(e: Entry): string {
    ToLower(Extension(e.path))
  }

  /** Number of regular files of a walk whose lower-cased extension is `ext`. */
  function ExtCount(walk: seq<Entry>, ext: string): nat {
    if |walk| == 0 then 0
    else ExtCount(walk[..|walk| - 1], ext) + (if walk[|walk| - 1].isFile && ExtOf(walk[|walk| - 1]) == ext then 1 else 0)
  }

  /** The latest modification time of a regular file of the walk, or 0 when that is larger or there is none. */
  function Latest(walk: seq<Entry>): (r: int)
    ensures r >= 0
    ensures forall i :: 0 <= i < |walk| && walk[i].isFile ==> walk[i].mtime <= r
    ensures r == 0 || exists i :: 0 <= i < |walk| && walk[i].isFile && walk[i].mtime == r
  {
    if |walk| == 0 then 0
    else
      var init := walk[..|walk| - 1];
      var e := walk[|walk| - 1];
      var l := Latest(init);
      assert forall i :: 0 <= i < |init| ==> init[i] == walk[i];
      if e.isFile then Max(l, e.mtime) else l
  }

  /** One key of the `by_extension` array: an extension and how many files carry it. */
  datatype ExtTally = ExtTally(ext: string, count: nat)

  /** The count a tally records for `x` (`0` when the key is absent). */
  function Lookup(t: seq<ExtTally>, x: string): nat {
    if |t| == 0 then 0 else if t[0].ext == x then t[0].count else Lookup(t[1..], x)
  }

  /** The sum of the counts of a tally. */
  function TallySum(t: seq<ExtTally>): nat {
    if |t| == 0 then 0 else t[0].count + TallySum(t[1..])
  }

  /** A PHP array: no key appears twice, and the handler never stores a zero count. */
  predicate ValidTally(t: seq<ExtTally>) {
    && (forall i, j :: 0 <= i < j < |t| ==> t[i].ext != t[j].ext)
    && (forall i :: 0 <= i < |t| ==> t[i].count > 0)
  }

  /** In a valid tally a key is present exactly when its count is positive. */
  lemma {:induction false} LookupPresent(t: seq<ExtTally>, x: string)
    requires ValidTally(t)
    ensures Lookup(t, x) > 0 <==> exists i :: 0 <= i < |t| && t[i].ext == x
  {
    if |t| > 0 && t[0].ext != x {
      assert ValidTally(t[1..]);
      LookupPresent(t[1..], x);
      assert forall i :: 1 <= i < |t| ==> t[i] == t[1..][i - 1];
    }
  }

  /**
   * One more file with extension `x`: the key is created at the end when it
   * is new (`$stats['by_extension'][$ext] = 0`) and its count goes up by one.
   */
  function Bump(t: seq<ExtTally>, x: string): (r: seq<ExtTally>)
    requires ValidTally(t)
    ensures ValidTally(r)
    ensures forall y :: Lookup(r, y) == Lookup(t, y) + (if y == x then 1 else 0)
    ensures TallySum(r) == TallySum(t) + 1
  {
    if |t| == 0 then [ExtTally(x, 1)]
    else if t[0].ext == x then
      var r := [ExtTally(x, t[0].count + 1)] + t[1..];
      assert r[1..] == t[1..];
      assert forall i :: 1 <= i < |t| ==> r[i] == t[i];
      r
    else
      assert ValidTally(t[1..]);
      var tail := Bump(t[1..], x);
      var r := [t[0]] + tail;
      assert r[1..] == tail;
      assert Lookup(t[1..], t[0].ext) == 0 by {
        LookupPresent(t[1..], t[0].ext);
        assert forall i :: 1 <= i < |t| ==> t[i] == t[1..][i - 1];
      }
      LookupPresent(tail, t[0].ext);
      assert forall j :: 0 < j < |r| ==> r[j] == tail[j - 1];
      r
  }

  /** The `by_extension` array after the files of a walk, keys in order of first appearance. */
  function Tally(walk: seq<Entry>): (r: seq<ExtTally>)
    ensures ValidTally(r)
    ensures forall x :: Lookup(r, x) == ExtCount(walk, x)
    ensures TallySum(r) == FileCount(walk)
  {
    if |walk| == 0 then []
    else
      var e := walk[|walk| - 1];
      var t := Tally(walk[..|walk| - 1]);
      if e.isFile then Bump(t, ExtOf(e)) else t
  }

  /** The array `get_directory_stats` returns. `freeSpace` is `disk_free_space`, `None` for `false`. */
  datatype Stats = Stats(
    totalFiles: nat,
    totalSize: nat,
    lastModified: int,
    isWritable: bool,
    freeSpace: Option<nat>,
    byExtension: seq<ExtTally>)

  /** `get_directory_size`: the total size of the regular files under a directory. */
  method GetDirectorySize(dir: Option<seq<Entry>>) returns (r: Result<nat, HandlerError>)
    ensures dir.None? ==> r == Err(InvalidDirectory)
    ensures dir.Some? ==> r == Ok(SizeSum(dir.value))
  {
    if dir.None? {
      return Err(InvalidDirectory);
    }
    var walk := dir.value;
    var size := 0;
    for i := 0 to |walk|
      invariant size == SizeSum(walk[..i])
    {
      assert walk[..i + 1][..i] == walk[..i];
      if walk[i].isFile {
        size := size + walk[i].size;
      }
    }
    assert walk[..|walk|] == walk;
    return Ok(size);
  }

  /**
   * `get_directory_stats`: one pass over the walk counting regular files,
   * summing their sizes, keeping the latest modification time (starting from
   * 0) and counting files per lower-cased extension. `writable` and
   * `freeSpace` are what `is_writable` and `disk_free_space` report.
   */
  method GetDirectoryStats(dir: Option<seq<Entry>>, writable: bool, freeSpace: Option<nat>) returns (r: Result<Stats, HandlerError>)
    ensures dir.None? ==> r == Err(InvalidDirectory)
    ensures dir.Some? ==> r.Ok? && r.value.isWritable == writable && r.value.freeSpace == freeSpace
    ensures dir.Some? ==> r.value.totalFiles == FileCount(dir.value) && r.value.totalSize == SizeSum(dir.value)
    ensures dir.Some? ==> r.value.lastModified >= 0
    ensures dir.Some? ==> forall i :: 0 <= i < |dir.value| && dir.value[i].isFile ==> dir.value[i].mtime <= r.value.lastModified
    ensures dir.Some? ==>
      r.value.lastModified == 0 || exists i :: 0 <= i < |dir.value| && dir.value[i].isFile && dir.value[i].mtime == r.value.lastModified
    ensures dir.Some? ==> ValidTally(r.value.byExtension)
    ensures dir.Some? ==> forall x :: Lookup(r.value.byExtension, x) == ExtCount(dir.value, x)
    ensures dir.Some? ==> TallySum(r.value.byExtension) == r.value.totalFiles
  {
    if dir.None? {
      return Err(InvalidDirectory);
    }
    var walk := dir.value;
    var total, size, latest := 0, 0, 0;
    var byExt: seq<ExtTally> := [];
    for i := 0 to |walk|
      invariant total == FileCount(walk[..i])
      invariant size == SizeSum(walk[..i])
      invariant latest == Latest(walk[..i])
      invariant byExt == Tally(walk[..i])
    {
      assert walk[..i + 1][..i] == walk[..i];
      var e := walk[i];
      if e.isFile {
        total := total + 1;
        size := size + e.size;
        latest := Max(latest, e.mtime);
        byExt := Bump(byExt, ToLower(Extension(e.path)));
      }
    }
    assert walk[..|walk|] == walk;
    return Ok(Stats(total, size, latest, writable, freeSpace, byExt));
  }

  // ---------------------------------------------------------------------------
  // scan_template_files
  // ---------------------------------------------------------------------------

  /** One element of the array `scan_template_files` returns. */
  datatype Template = Template(name: string, path: string, size: nat, modified: int, kind: string, isValid: bool)

  /**
   * `glob` pattern `*.ext` against a name listed in the directory: the name
   * ends with `.ext` (case-sensitively) and, `*` never matching a leading
   * dot, does not start with `.`.
   */
  predicate GlobMatches(name: string, ext: string) {
    |name| >= |ext| + 1 && name[|name| - |ext| - 1..] == "." + ext && name[0] != '.'
  }

  /** The template record built for a matched name; its name is the base name of its path. */
  function TemplateOf(dir: string, c: Child, ext: string, open: string -> Option<Archive>): (t: Template)
    requires |c.name| > 0 && '/' !in c.name
    ensures t.name == c.name && t.size == c.size && t.modified == c.mtime
  {
    var file := dir + "/" + c.name;
    BasenameOfChild(dir, c.name);
    Template(Basename(file), file, c.size, c.mtime, ext, ValidateTemplateFile(file, open))
  }

  /** The records for one `glob` call, in listing order: one per matching name. */
  function Collect(dir: string, children: seq<Child>, ext: string, open: string -> Option<Archive>): (r: seq<Template>)
    requires WellFormedListing(children)
    ensures |r| <= |children|
    ensures forall t :: t in r ==> exists c :: c in children && GlobMatches(c.name, ext) && TemplateOf(dir, c, ext, open) == t
  {
    if |children| == 0 then []
    else
      var c := children[0];
      var rest := Collect(dir, children[1..], ext, open);
      if GlobMatches(c.name, ext) then [TemplateOf(dir, c, ext, open)] + rest
      else rest
  }

  /** Every name the pattern matches has its record. */
  lemma {:induction false} CollectComplete(dir: string, children: seq<Child>, ext: string, open: string -> Option<Archive>, c: Child)
    requires WellFormedListing(children)
    requires c in children && GlobMatches(c.name, ext)
    ensures TemplateOf(dir, c, ext, open) in Collect(dir, children, ext, open)
  {
    if children[0] != c {
      CollectComplete(dir, children[1..], ext, open, c);
    }
  }

  /** A name `glob` matched against `*.ext` has extension `ext` once joined to its directory. */
  lemma GlobbedExtension(dir: string, name: string, ext: string)
    requires GlobMatches(name, ext) && (ext == "docx" || ext == "odt")
    ensures Extension(dir + "/" + name) == ext
  {
    var k := |name| - |ext| - 1;
    var stem := name[..k];
    assert name == stem + name[k..];
    assert name[k..] == "." + ext;
    assert dir + "/" + name == (dir + "/" + stem) + "." + ext;
    ExtensionOfSuffix(dir + "/" + stem, ext);
  }

  /** For a name `glob` matched against `*.docx` or `*.odt`, the check's extension is the globbed one. */
  lemma ScanValidity(dir: string, name: string, ext: string, open: string -> Option<Archive>)
    requires GlobMatches(name, ext) && (ext == "docx" || ext == "odt")
    ensures ValidateTemplateFile(dir + "/" + name, open) <==>
      open(dir + "/" + name).Some? && IsTemplateArchive(ext, open(dir + "/" + name).value)
  {
    GlobbedExtension(dir, name, ext);
    assert ToLower(ext) == ext;
  }

  /**
   * `scan_template_files`: the DOCX matches in listing order, then the ODT
   * matches; every record comes from a listed name its pattern matches.
   */
  function ScanTemplateFiles(dir: string, listing: Option<seq<Child>>, open: string -> Option<Archive>): (r: Result<seq<Template>, HandlerError>)
    requires listing.Some? ==> WellFormedListing(listing.value)
    ensures listing.None? ==> r == Err(InvalidDirectory)
    ensures listing.Some? ==> r.Ok?
    ensures r.Ok? ==> forall i, j :: 0 <= i < j < |r.value| && r.value[i].kind == "odt" ==> r.value[j].kind == "odt"
    ensures r.Ok? ==> forall t :: t in r.value ==>
      exists c, ext :: c in listing.value && (ext == "docx" || ext == "odt") && GlobMatches(c.name, ext) && t == TemplateOf(dir, c, ext, open)
  {
    match listing
    case None => Err(InvalidDirectory)
    case Some(children) =>
      var docx := Collect(dir, children, "docx", open);
      var odt := Collect(dir, children, "odt", open);
      var all := docx + odt;
      assert forall i :: 0 <= i < |docx| ==> docx[i] in docx;
      assert forall i :: 0 <= i < |odt| ==> odt[i] in odt;
      Ok(all)
  }

  /**
   * Every record of the scan: its path is the directory joined with its name,
   * its name matches its kind's pattern, and its validity flag is the
   * structural check of the archive at that path.
   */
  lemma ScanTemplateFilesRecords(dir: string, children: seq<Child>, open: string -> Option<Archive>, t: Template)
    requires WellFormedListing(children)
    requires t in ScanTemplateFiles(dir, Some(children), open).value
    ensures t.kind == "docx" || t.kind == "odt"
    ensures GlobMatches(t.name, t.kind) && t.path == dir + "/" + t.name
    ensures t.isValid <==> open(t.path).Some? && IsTemplateArchive(t.kind, open(t.path).value)
  {
    var c, ext :| c in children && (ext == "docx" || ext == "odt") && GlobMatches(c.name, ext) && t == TemplateOf(dir, c, ext, open);
    ScanValidity(dir, c.name, ext, open);
  }

  /** Every listed name matching `*.docx` or `*.odt` appears in the scan. */
  lemma ScanTemplateFilesComplete(dir: string, children: seq<Child>, open: string -> Option<Archive>, c: Child)
    requires WellFormedListing(children)
    requires c in children && (GlobMatches(c.name, "docx") || GlobMatches(c.name, "odt"))
    ensures exists t :: t in ScanTemplateFiles(dir, Some(children), open).value && t.name == c.name && t.path == dir + "/" + c.name
  {
    var ext := if GlobMatches(c.name, "docx") then "docx" else "odt";
    CollectComplete(dir, children, ext, open, c);
    var t := TemplateOf(dir, c, ext, open);
    assert t in ScanTemplateFiles(dir, Some(children), open).value;
  }

  // ---------------------------------------------------------------------------
  // clean_directory
  // ---------------------------------------------------------------------------

  /** The `$options` array a caller passes; an absent key takes its default. */
  datatype CleanArgs = CleanArgs(olderThan: Option<int>, extensions: Option<seq<string>>, keepLatest: Option<int>, recursive: Option<bool>)

  /** The options after `wp_parse_args`. An empty extension list means every file. */
  datatype CleanOptions = CleanOptions(olderThan: int, extensions: seq<string>, keepLatest: int, recursive: bool)

  /** `wp_parse_args($options, $defaults)`: 24 hours, all extensions, keep 5, not recursive. */
  function ParseCleanArgs(a: CleanArgs): (o: CleanOptions)
    ensures a.olderThan.None? ==> o.olderThan == 24
    ensures a.extensions.None? ==> o.extensions == []
    ensures a.keepLatest.None? ==> o.keepLatest == 5
    ensures a.recursive.None? ==> !o.recursive
    ensures a.olderThan.Some? ==> o.olderThan == a.olderThan.value
    ensures a.extensions.Some? ==> o.extensions == a.extensions.value
    ensures a.keepLatest.Some? ==> o.keepLatest == a.keepLatest.value
    ensures a.recursive.Some? ==> o.recursive == a.recursive.value
  {
    CleanOptions(a.olderThan.GetOr(24), a.extensions.GetOr([]), a.keepLatest.GetOr(5), a.recursive.GetOr(false))
  }

  /** A file considered for deletion: its path and modification time. */
  datatype Candidate = Candidate(path: string, mtime: int)

  /** The regular files of the walk that pass the extension filter, in walk order. */
  function Matched(walk: seq<Entry>, exts: seq<string>): (r: seq<Candidate>)
    ensures |r| <= |walk|
  {
    if |walk| == 0 then []
    else
      var e := walk[0];
      var rest := Matched(walk[1..], exts);
      if e.isFile && (|exts| == 0 || ToLower(Extension(e.path)) in exts) then [Candidate(e.path, e.mtime)] + rest
      else rest
  }

  /** Every candidate comes from a regular file of the walk, with its path and modification time. */
  lemma {:induction false} MatchedSound(walk: seq<Entry>, exts: seq<string>, c: Candidate)
    requires c in Matched(walk, exts)
    ensures exists e :: e in walk && e.isFile && e.path == c.path && e.mtime == c.mtime
  {
    var e := walk[0];
    if c != Candidate(e.path, e.mtime) || !e.isFile {
      MatchedSound(walk[1..], exts, c);
      var x :| x in walk[1..] && x.isFile && x.path == c.path && x.mtime == c.mtime;
      assert x in walk;
    }
  }

  /** Without an extension filter, every regular file of a walk is a candidate of `clean_directory`. */
  lemma {:induction false} MatchedUnfiltered(walk: seq<Entry>, e: Entry)
    requires e in walk && e.isFile
    ensures Candidate(e.path, e.mtime) in Matched(walk, [])
  {
    if walk[0] != e {
      assert e in walk[1..];
      MatchedUnfiltered(walk[1..], e);
    }
  }

  predicate NewestFirst(s: seq<Candidate>) {
    forall i, j :: 0 <= i < j < |s| ==> s[i].mtime >= s[j].mtime
  }

  /** Inserts `c` after every element at least as new, so that equal times keep their order. */
  function InsertByAge(c: Candidate, s: seq<Candidate>): (r: seq<Candidate>)
    requires NewestFirst(s)
    ensures |r| == |s| + 1
    ensures forall x :: x in r <==> x == c || x in s
    ensures NewestFirst(r)
  {
    if |s| == 0 then [c]
    else if s[0].mtime >= c.mtime then
      var tail := InsertByAge(c, s[1..]);
      assert s == [s[0]] + s[1..];
      HeadDominates(s[0], tail, s[1..], c);
      [s[0]] + tail
    else
      assert forall j :: 0 <= j < |s| ==> s[0].mtime >= s[j].mtime;
      [c] + s
  }

  lemma HeadDominates(h: Candidate, tail: seq<Candidate>, rest: seq<Candidate>, c: Candidate)
    requires NewestFirst(tail) && NewestFirst([h] + rest)
    requires forall x :: x in tail ==> x == c || x in rest
    requires h.mtime >= c.mtime
    ensures NewestFirst([h] + tail)
  {
    forall j | 0 <= j < |tail|
      ensures h.mtime >= tail[j].mtime
    {
      var x := tail[j];
      assert x in tail;
      if x != c {
        var k :| 0 <= k < |rest| && rest[k] == x;
        assert ([h] + rest)[0] == h && ([h] + rest)[k + 1] == x;
      }
    }
    var r := [h] + tail;
    forall i, j | 0 <= i < j < |r|
      ensures r[i].mtime >= r[j].mtime
    {
      assert r[j] == tail[j - 1];
      if i > 0 {
        assert r[i] == tail[i - 1];
      }
    }
  }

  /** `arsort` on modification times: newest first, a permutation of the input. */
  function SortNewestFirst(s: seq<Candidate>): (r: seq<Candidate>)
    ensures NewestFirst(r)
    ensures |r| == |s|
    ensures forall x :: x in r <==> x in s
  {
    if |s| == 0 then []
    else
      assert s == s[..|s| - 1] + [s[|s| - 1]];
      InsertByAge(s[|s| - 1], SortNewestFirst(s[..|s| - 1]))
  }

  /** Inserting adds exactly the one candidate: the result is a permutation of the input with `c` added. */
  lemma {:induction false} InsertByAgePermutes(c: Candidate, s: seq<Candidate>)
    requires NewestFirst(s)
    ensures multiset(InsertByAge(c, s)) == multiset(s) + multiset{c}
  {
    if |s| > 0 && s[0].mtime >= c.mtime {
      assert s == [s[0]] + s[1..];
      InsertByAgePermutes(c, s[1..]);
    }
  }

  /** The sort neither loses nor duplicates a candidate. */
  lemma {:induction false} SortNewestFirstPermutes(s: seq<Candidate>)
    ensures multiset(SortNewestFirst(s)) == multiset(s)
  {
    if |s| > 0 {
      assert s == s[..|s| - 1] + [s[|s| - 1]];
      SortNewestFirstPermutes(s[..|s| - 1]);
      InsertByAgePermutes(s[|s| - 1], SortNewestFirst(s[..|s| - 1]));
    }
  }

  /** Number of candidates satisfying `f`. */
  function CountWhere(s: seq<Candidate>, f: Candidate -> bool): (n: nat)
    ensures n <= |s|
  {
    if |s| == 0 then 0 else (if f(s[0]) then 1 else 0) + CountWhere(s[1..], f)
  }

  /** Number of candidates at least as new as time `t`. */
  function AtLeastAsNew(s: seq<Candidate>, t: int): nat {
    CountWhere(s, (c: Candidate) => c.mtime >= t)
  }

  /** Number of candidates strictly newer than time `t`. */
  function NewerThan(s: seq<Candidate>, t: int): nat {
    CountWhere(s, (c: Candidate) => c.mtime > t)
  }

  lemma {:induction false} CountWhereAppend(a: seq<Candidate>, b: seq<Candidate>, f: Candidate -> bool)
    ensures CountWhere(a + b, f) == CountWhere(a, f) + CountWhere(b, f)
    decreases |a|
  {
    if |a| > 0 {
      assert (a + b)[1..] == a[1..] + b;
      CountWhereAppend(a[1..], b, f);
    } else {
      assert a + b == b;
    }
  }

  lemma {:induction false} CountWhereInsert(c: Candidate, s: seq<Candidate>, f: Candidate -> bool)
    requires NewestFirst(s)
    ensures CountWhere(InsertByAge(c, s), f) == CountWhere(s, f) + (if f(c) then 1 else 0)
    decreases |s|
  {
    if |s| > 0 && s[0].mtime >= c.mtime {
      CountWhereInsert(c, s[1..], f);
    }
  }

  /** Sorting does not change how many candidates satisfy a property. */
  lemma {:induction false} CountWhereSort(s: seq<Candidate>, f: Candidate -> bool)
    ensures CountWhere(SortNewestFirst(s), f) == CountWhere(s, f)
    decreases |s|
  {
    if |s| > 0 {
      var init := s[..|s| - 1];
      CountWhereSort(init, f);
      CountWhereInsert(s[|s| - 1], SortNewestFirst(init), f);
      assert s == init + [s[|s| - 1]];
      CountWhereAppend(init, [s[|s| - 1]], f);
    }
  }

  /** Sorting does not change how many candidates are at least as new as `t`. */
  lemma AtLeastAsNewSort(s: seq<Candidate>, t: int)
    ensures AtLeastAsNew(SortNewestFirst(s), t) == AtLeastAsNew(s, t)
  {
    CountWhereSort(s, (c: Candidate) => c.mtime >= t);
  }

  /** Sorting does not change how many candidates are strictly newer than `t`. */
  lemma NewerThanSort(s: seq<Candidate>, t: int)
    ensures NewerThan(SortNewestFirst(s), t) == NewerThan(s, t)
  {
    CountWhereSort(s, (c: Candidate) => c.mtime > t);
  }

  lemma {:induction false} CountWhereAll(s: seq<Candidate>, f: Candidate -> bool)
    requires forall i :: 0 <= i < |s| ==> f(s[i])
    ensures CountWhere(s, f) == |s|
    decreases |s|
  {
    if |s| > 0 {
      CountWhereAll(s[1..], f);
    }
  }

  lemma {:induction false} CountWhereNone(s: seq<Candidate>, f: Candidate -> bool)
    requires forall i :: 0 <= i < |s| ==> !f(s[i])
    ensures CountWhere(s, f) == 0
    decreases |s|
  {
    if |s| > 0 {
      CountWhereNone(s[1..], f);
    }
  }

  /** In a newest-first order, the element at index `j` has at least `j + 1` elements at least as new as it. */
  lemma SortedPositionBelow(s: seq<Candidate>, j: nat)
    requires NewestFirst(s) && j < |s|
    ensures AtLeastAsNew(s, s[j].mtime) >= j + 1
  {
    var f := (c: Candidate) => c.mtime >= s[j].mtime;
    assert s == s[..j + 1] + s[j + 1..];
    CountWhereAppend(s[..j + 1], s[j + 1..], f);
    CountWhereAll(s[..j + 1], f);
  }

  /** In a newest-first order, everything strictly newer than the element at index `j` lies before it. */
  lemma SortedPositionAbove(s: seq<Candidate>, j: nat)
    requires NewestFirst(s) && j < |s|
    ensures NewerThan(s, s[j].mtime) <= j
  {
    var f := (c: Candidate) => c.mtime > s[j].mtime;
    assert s == s[..j] + s[j..];
    CountWhereAppend(s[..j], s[j..], f);
    CountWhereNone(s[j..], f);
  }

  /** The counts `clean_directory` returns, with the paths it handed to `unlink` in order. */
  datatype CleanReport = CleanReport(deleted: nat, failed: nat, skipped: nat, unlinked: seq<string>)

  /** Number of paths for which `unlink` succeeds. */
  function Successes(paths: seq<string>, unlink: string -> bool): (n: nat)
    ensures n <= |paths|
  {
    if |paths| == 0 then 0 else (if unlink(paths[0]) then 1 else 0) + Successes(paths[1..], unlink)
  }

  /** The processing loop: a file younger than `threshold` seconds is skipped, any other is unlinked. */
  function ProcessOld(cs: seq<Candidate>, now: int, threshold: int, unlink: string -> bool): (r: CleanReport)
    ensures r.deleted + r.failed + r.skipped == |cs|
    ensures r.deleted + r.failed == |r.unlinked|
    ensures r.deleted == Successes(r.unlinked, unlink)
  {
    if |cs| == 0 then CleanReport(0, 0, 0, [])
    else
      var c := cs[0];
      var rest := ProcessOld(cs[1..], now, threshold, unlink);
      if now - c.mtime < threshold then rest.(skipped := rest.skipped + 1)
      else
        var u := [c.path] + rest.unlinked;
        assert u[1..] == rest.unlinked;
        if unlink(c.path) then CleanReport(rest.deleted + 1, rest.failed, rest.skipped, u)
        else CleanReport(rest.deleted, rest.failed + 1, rest.skipped, u)
  }

  /** Only files at least `threshold` seconds old are handed to `unlink`. */
  lemma {:induction false} ProcessOldSound(cs: seq<Candidate>, now: int, threshold: int, unlink: string -> bool, p: string)
    requires p in ProcessOld(cs, now, threshold, unlink).unlinked
    ensures exists i :: 0 <= i < |cs| && cs[i].path == p && now - cs[i].mtime >= threshold
  {
    var c := cs[0];
    var rest := ProcessOld(cs[1..], now, threshold, unlink);
    if p in rest.unlinked {
      ProcessOldSound(cs[1..], now, threshold, unlink, p);
      var i :| 0 <= i < |cs[1..]| && cs[1..][i].path == p && now - cs[1..][i].mtime >= threshold;
      assert cs[i + 1] == cs[1..][i];
    } else {
      assert c.path == p && now - c.mtime >= threshold;
    }
  }

  /** Every file at least `threshold` seconds old is handed to `unlink`. */
  lemma {:induction false} ProcessOldComplete(cs: seq<Candidate>, now: int, threshold: int, unlink: string -> bool, i: nat)
    requires i < |cs| && now - cs[i].mtime >= threshold
    ensures cs[i].path in ProcessOld(cs, now, threshold, unlink).unlinked
  {
    if i > 0 {
      assert cs[1..][i - 1] == cs[i];
      ProcessOldComplete(cs[1..], now, threshold, unlink, i - 1);
    }
  }

  /** The candidates left after protecting the `keep` newest (no protection when `keep` is not positive). */
  function AfterKeep(sorted: seq<Candidate>, keep: int): (r: seq<Candidate>)
    ensures keep <= 0 ==> r == sorted
    ensures keep > 0 ==> |r| == Max(0, |sorted| - keep)
    ensures r == sorted[|sorted| - |r|..]
  {
    if keep <= 0 then sorted
    else if keep >= |sorted| then []
    else sorted[keep..]
  }

  /**
   * `clean_directory`: the regular files passing the extension filter are
   * ordered newest first, the `keepLatest` newest are protected, and each
   * remaining one is deleted when it is at least `olderThan` hours old.
   * `now` is `time()`; `unlink` says whether deleting a path succeeds.
   */
  function CleanDirectory(dir: Option<seq<Entry>>, args: CleanArgs, now: int, unlink: string -> bool): (r: Result<CleanReport, HandlerError>)
    ensures dir.None? ==> r == Err(InvalidDirectory)
    ensures dir.Some? ==> r.Ok?
  {
    var o := ParseCleanArgs(args);
    match dir
    case None => Err(InvalidDirectory)
    case Some(walk) =>
      var sorted := SortNewestFirst(Matched(walk, o.extensions));
      Ok(ProcessOld(AfterKeep(sorted, o.keepLatest), now, o.olderThan * 3600, unlink))
  }

  /** The report of `clean_directory` on a directory: the processing loop over the unprotected matches. */
  lemma CleanDirectoryValue(walk: seq<Entry>, args: CleanArgs, now: int, unlink: string -> bool)
    ensures var o := ParseCleanArgs(args);
      CleanDirectory(Some(walk), args, now, unlink) ==
      Ok(ProcessOld(AfterKeep(SortNewestFirst(Matched(walk, o.extensions)), o.keepLatest), now, o.olderThan * 3600, unlink))
  {
  }

  /** The processing loop over the unprotected part of a sorted list of `n` candidates accounts for each of them once. */
  lemma AfterKeepAccounting(sorted: seq<Candidate>, keep: int, now: int, threshold: int, unlink: string -> bool)
    ensures var r := ProcessOld(AfterKeep(sorted, keep), now, threshold, unlink);
      && r.deleted + r.failed + r.skipped == (if keep > 0 then Max(0, |sorted| - keep) else |sorted|)
      && r.deleted == Successes(r.unlinked, unlink) && r.failed == |r.unlinked| - r.deleted
  {
    var rest := AfterKeep(sorted, keep);
    assert |rest| == (if keep > 0 then Max(0, |sorted| - keep) else |sorted|);
  }

  /** Every processed file is counted once: deleted, failed and skipped add up to the unprotected matches. */
  lemma CleanDirectoryAccounting(walk: seq<Entry>, args: CleanArgs, now: int, unlink: string -> bool)
    ensures var o := ParseCleanArgs(args);
      var m := |Matched(walk, o.extensions)|;
      var r := CleanDirectory(Some(walk), args, now, unlink).value;
      r.deleted + r.failed + r.skipped == (if o.keepLatest > 0 then Max(0, m - o.keepLatest) else m)
    ensures var r := CleanDirectory(Some(walk), args, now, unlink).value;
      r.deleted == Successes(r.unlinked, unlink) && r.failed == |r.unlinked| - r.deleted
  {
    var o := ParseCleanArgs(args);
    var sorted := SortNewestFirst(Matched(walk, o.extensions));
    AfterKeepAccounting(sorted, o.keepLatest, now, o.olderThan * 3600, unlink);
  }

  /** In a newest-first list, a handed-over path belongs to an old enough candidate with more than `keep` candidates as new as it. */
  lemma AfterKeepSound(sorted: seq<Candidate>, keep: int, now: int, threshold: int, unlink: string -> bool, p: string)
    requires NewestFirst(sorted)
    requires p in ProcessOld(AfterKeep(sorted, keep), now, threshold, unlink).unlinked
    ensures exists c :: c in sorted && c.path == p && now - c.mtime >= threshold && AtLeastAsNew(sorted, c.mtime) > keep
  {
    var rest := AfterKeep(sorted, keep);
    ProcessOldSound(rest, now, threshold, unlink, p);
    var i :| 0 <= i < |rest| && rest[i].path == p && now - rest[i].mtime >= threshold;
    var j := |sorted| - |rest| + i;
    assert rest[i] == sorted[j];
    SortedPositionBelow(sorted, j);
  }

  /** In a newest-first list, an old enough candidate with at least `keep` strictly newer ones is handed over. */
  lemma AfterKeepComplete(sorted: seq<Candidate>, keep: int, now: int, threshold: int, unlink: string -> bool, j: nat)
    requires NewestFirst(sorted) && j < |sorted|
    requires now - sorted[j].mtime >= threshold && NewerThan(sorted, sorted[j].mtime) >= keep
    ensures sorted[j].path in ProcessOld(AfterKeep(sorted, keep), now, threshold, unlink).unlinked
  {
    var rest := AfterKeep(sorted, keep);
    SortedPositionAbove(sorted, j);
    var k := |sorted| - |rest|;
    assert rest[j - k] == sorted[j];
    ProcessOldComplete(rest, now, threshold, unlink, j - k);
  }

  /**
   * Retention: a path is handed to `unlink` only if it is a matched file at
   * least `olderThan` hours old with at least `keepLatest` other matched
   * files as new as it or newer, so the newest `keepLatest` files are never
   * deleted.
   */
  lemma CleanDirectoryKeepsNewest(walk: seq<Entry>, args: CleanArgs, now: int, unlink: string -> bool, p: string)
    requires p in CleanDirectory(Some(walk), args, now, unlink).value.unlinked
    ensures var o := ParseCleanArgs(args);
      var m := Matched(walk, o.extensions);
      exists c :: c in m && c.path == p && now - c.mtime >= o.olderThan * 3600 && AtLeastAsNew(m, c.mtime) > o.keepLatest
  {
    var o := ParseCleanArgs(args);
    var m := Matched(walk, o.extensions);
    var sorted := SortNewestFirst(m);
    CleanDirectoryValue(walk, args, now, unlink);
    AfterKeepSound(sorted, o.keepLatest, now, o.olderThan * 3600, unlink, p);
    var c :| c in sorted && c.path == p && now - c.mtime >= o.olderThan * 3600 && AtLeastAsNew(sorted, c.mtime) > o.keepLatest;
    AtLeastAsNewSort(m, c.mtime);
    assert c in m;
  }

  /**
   * Completeness: a matched file at least `olderThan` hours old with at
   * least `keepLatest` matched files strictly newer than it is always
   * handed to `unlink`.
   */
  lemma CleanDirectoryDeletesOld(walk: seq<Entry>, args: CleanArgs, now: int, unlink: string -> bool, c: Candidate)
    requires var o := ParseCleanArgs(args);
      var m := Matched(walk, o.extensions);
      c in m && now - c.mtime >= o.olderThan * 3600 && NewerThan(m, c.mtime) >= o.keepLatest
    ensures c.path in CleanDirectory(Some(walk), args, now, unlink).value.unlinked
  {
    var o := ParseCleanArgs(args);
    var m := Matched(walk, o.extensions);
    var sorted := SortNewestFirst(m);
    assert c in sorted;
    var j :| 0 <= j < |sorted| && sorted[j] == c;
    NewerThanSort(m, c.mtime);
    AfterKeepComplete(sorted, o.keepLatest, now, o.olderThan * 3600, unlink, j);
    CleanDirectoryValue(walk, args, now, unlink);
  }

  /** The `recursive` option changes nothing about which files are considered: both iterator modes visit every file. */
  lemma CleanDirectoryIgnoresRecursive(dir: Option<seq<Entry>>, args: CleanArgs, now: int, unlink: string -> bool)
    ensures CleanDirectory(dir, args.(recursive := Some(true)), now, unlink) == CleanDirectory(dir, args.(recursive := Some(false)), now, unlink)
  {
  }
}
