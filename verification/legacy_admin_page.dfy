/**
 * The older admin page (admin/__class-admin-page.php), kept in the plugin
 * next to the current one: its template test, its settings writer, its
 * secured temporary directory and its temporary-file cleanup.
 *
 * `file_exists`, `is_dir`, `wp_mkdir_p`, `file_put_contents`, `glob`,
 * ZipArchive, `simplexml_load_string`, the sanitizers and the clock are
 * parameters; `WP_CONTENT_DIR` and the upload base are arguments.
 */
module LegacyAdminPage {
  import opened Results
  import opened PhpStrings
  import opened Files
  import opened FormData
  import AdminPage
  import DirectoryHandler

  // ---------------------------------------------------------------------------
  // Template test
  // ---------------------------------------------------------------------------

  /** The exceptions the template test raises; `kind` is the upper-case format name in the message. */
  datatype TestError = NotFound | InvalidFormat | Unreadable(kind: string) | MissingEntry(kind: string, entry: string) | InvalidXml

  /** The entries the test looks up, in lookup order, and the entry whose XML it parses. */
  function TestedEntries(ext: string): seq<string> {
    if ext == "docx" then ["[Content_Types].xml", "word/document.xml"]
    else ["META-INF/manifest.xml", "content.xml", "styles.xml"]
  }

  function MainEntry(ext: string): string {
    if ext == "docx" then "word/document.xml" else "content.xml"
  }

  function Kind(ext: string): string {
    if ext == "docx" then "DOCX" else "ODT"
  }

  /** The index of the first name the `locateName` loop does not find, if any. */
  function FirstMissing(names: seq<string>, a: Archive): (r: Option<nat>)
    ensures r.None? <==> forall i :: 0 <= i < |names| ==> names[i] in a
    ensures r.Some? ==> r.value < |names| && names[r.value] !in a
    ensures r.Some? ==> forall j :: 0 <= j < r.value ==> names[j] in a
  {
    if |names| == 0 then None
    else if names[0] !in a then Some(0)
    else
      assert forall i :: 1 <= i < |names| ==> names[i] == names[1..][i - 1];
      match FirstMissing(names[1..], a)
      case None => None
      case Some(k) => Some(k + 1)
  }

  /**
   * `test_docx_template` / `test_odt_template` once the extension is known:
   * the file must open as an archive, every tested entry must be present
   * (the first missing one is reported), and the main entry must parse as
   * XML. The main entry is among the located ones, so reading it cannot fail.
   */
  function TestArchive(ext: string, archive: Option<Archive>, isXml: string -> bool): (r: Outcome<TestError>)
    ensures r == Pass <==> archive.Some? && (forall n :: n in TestedEntries(ext) ==> n in archive.value) && isXml(archive.value[MainEntry(ext)])
    ensures archive.None? ==> r == Fail(Unreadable(Kind(ext)))
    ensures r.Fail? && r.error.MissingEntry? ==> r.error.entry in TestedEntries(ext) && r.error.entry !in archive.value
  {
    match archive
    case None => Fail(Unreadable(Kind(ext)))
    case Some(a) =>
      match FirstMissing(TestedEntries(ext), a)
      case Some(k) => Fail(MissingEntry(Kind(ext), TestedEntries(ext)[k]))
      case None =>
        assert MainEntry(ext) in TestedEntries(ext);
        if isXml(a[MainEntry(ext)]) then Pass else Fail(InvalidXml)
  }

  /**
   * `ajax_test_template` without the request plumbing: the file must
   * exist, its lower-cased extension must be `docx` or `odt`, and the
   * archive test for that format must pass. A success reports the
   * extension.
   */
  function TestTemplate(path: string, fileExists: string -> bool, open: string -> Option<Archive>, isXml: string -> bool): (r: Result<string, TestError>)
    ensures !fileExists(path) ==> r == Err(NotFound)
    ensures fileExists(path) && ToLower(Extension(path)) !in DirectoryHandler.AllowedExtensions ==> r == Err(InvalidFormat)
    ensures r.Ok? ==> r.value == ToLower(Extension(path)) && r.value in DirectoryHandler.AllowedExtensions
    ensures r.Ok? <==> (fileExists(path) && ToLower(Extension(path)) in DirectoryHandler.AllowedExtensions
      && TestArchive(ToLower(Extension(path)), open(path), isXml) == Pass)
  {
    var ext := ToLower(Extension(path));
    if !fileExists(path) then Err(NotFound)
    else if ext !in DirectoryHandler.AllowedExtensions then Err(InvalidFormat)
    else match TestArchive(ext, open(path), isXml)
      case Fail(e) => Err(e)
      case Pass => Ok(ext)
  }

  /** Whatever the case of the extension, a passing template is one the directory handler's validator accepts. */
  lemma TestTemplateStricter(path: string, fileExists: string -> bool, open: string -> Option<Archive>, isXml: string -> bool)
    requires TestTemplate(path, fileExists, open, isXml).Ok?
    ensures DirectoryHandler.ValidateTemplateFile(path, open)
  {
    var ext := ToLower(Extension(path));
    var a := open(path).value;
    assert TestedEntries(ext)[0] in TestedEntries(ext) && TestedEntries(ext)[1] in TestedEntries(ext);
  }

  /**
   * The converse fails for ODT: a package with a manifest and a content
   * stream but no `styles.xml` passes the directory handler's validator and
   * fails the template test, which names the missing entry.
   */
  lemma OdtWithoutStyles(path: string, fileExists: string -> bool, open: string -> Option<Archive>, isXml: string -> bool)
    requires fileExists(path) && ToLower(Extension(path)) == "odt"
    requires open(path).Some? && "META-INF/manifest.xml" in open(path).value && "content.xml" in open(path).value
    requires "styles.xml" !in open(path).value
    ensures DirectoryHandler.ValidateTemplateFile(path, open)
    ensures TestTemplate(path, fileExists, open, isXml) == Err(MissingEntry("ODT", "styles.xml"))
  {
    var a := open(path).value;
    var names := TestedEntries("odt");
    assert names[0] in a && names[1] in a && names[2] !in a;
    assert FirstMissing(names, a) == Some(2);
  }

  /** For DOCX the two checks agree on every archive whose document part parses as XML. */
  lemma DocxTestAgrees(path: string, fileExists: string -> bool, open: string -> Option<Archive>, isXml: string -> bool)
    requires fileExists(path) && ToLower(Extension(path)) == "docx"
    requires open(path).Some? && "word/document.xml" in open(path).value ==> isXml(open(path).value["word/document.xml"])
    ensures TestTemplate(path, fileExists, open, isXml).Ok? <==> DirectoryHandler.ValidateTemplateFile(path, open)
  {
    var names := TestedEntries("docx");
    assert forall n :: n in names <==> n == names[0] || n == names[1];
  }

  // ---------------------------------------------------------------------------
  // save_settings
  // ---------------------------------------------------------------------------

  /** The directory both folders are placed in: `<content dir>/docgen-templates`. */
  function LegacyBase(contentDir: string): string {
    TrailingSlashIt(contentDir) + "docgen-templates"
  }

  /** A path with no trailing separator is left alone by `untrailingslashit`. */
  lemma UntrailingslashitNoSlash(s: string)
    requires |s| > 0 && !IsSlash(s[|s| - 1])
    ensures Untrailingslashit(s) == s
  {
  }

  /**
   * `save_settings`: each folder name (defaulting to `docgen-temp` and
   * `docgen-templates`) is sanitized and cut to its base name without
   * further validation, and both directories are placed in
   * `<content dir>/docgen-templates/`.
   */
  function SaveSettings(data: Form, contentDir: string, sanitizeFile: string -> string, sanitizeText: string -> string): (s: FlatSettings)
    ensures var prefix := Untrailingslashit(contentDir) + "/docgen-templates/";
      && prefix <= s.tempDir && s.tempDir[|prefix|..] == Basename(sanitizeFile(Field(data, "temp_dir", "docgen-temp")))
      && prefix <= s.templateDir && s.templateDir[|prefix|..] == Basename(sanitizeFile(Field(data, "template_dir", "docgen-templates")))
    ensures s.outputFormat == sanitizeText(Field(data, "output_format", "docx"))
    ensures s.debugMode <==> "debug_mode" in data
  {
    var base := LegacyBase(contentDir);
    var u := Untrailingslashit(contentDir);
    assert base == u + "/docgen-templates";
    UntrailingslashitNoSlash(base);
    var tempFolder := Basename(sanitizeFile(Field(data, "temp_dir", "docgen-temp")));
    var templateFolder := Basename(sanitizeFile(Field(data, "template_dir", "docgen-templates")));
    var prefix := u + "/docgen-templates/";
    assert TrailingSlashIt(base) == prefix;
    assert (prefix + tempFolder)[|prefix|..] == tempFolder;
    assert (prefix + templateFolder)[|prefix|..] == templateFolder;
    FlatSettings(
      TrailingSlashIt(base) + tempFolder,
      TrailingSlashIt(base) + templateFolder,
      sanitizeText(Field(data, "output_format", "docx")),
      "debug_mode" in data)
  }

  /** The default folder names are single components. */
  lemma DefaultFolderNames()
    ensures Basename("docgen-temp") == "docgen-temp" && Basename("docgen-templates") == "docgen-templates"
  {
    AdminPage.BasenameOfPlain("docgen-temp");
    AdminPage.BasenameOfPlain("docgen-templates");
  }

  /** With the fields absent and a sanitizer that keeps the default names, the folders are the defaults. */
  lemma SaveSettingsDefaults(data: Form, contentDir: string, sanitizeFile: string -> string, sanitizeText: string -> string)
    requires "temp_dir" !in data && "template_dir" !in data
    requires sanitizeFile("docgen-temp") == "docgen-temp" && sanitizeFile("docgen-templates") == "docgen-templates"
    ensures var s := SaveSettings(data, contentDir, sanitizeFile, sanitizeText);
      && s.tempDir == Untrailingslashit(contentDir) + "/docgen-templates/" + "docgen-temp"
      && s.templateDir == Untrailingslashit(contentDir) + "/docgen-templates/" + "docgen-templates"
  {
    var s := SaveSettings(data, contentDir, sanitizeFile, sanitizeText);
    var prefix := Untrailingslashit(contentDir) + "/docgen-templates/";
    DefaultFolderNames();
    PrefixThenRest(s.tempDir, prefix);
    PrefixThenRest(s.templateDir, prefix);
  }

  lemma PrefixThenRest(path: string, prefix: string)
    requires prefix <= path
    ensures path == prefix + path[|prefix|..]
  {
  }

  // ---------------------------------------------------------------------------
  // create_secure_temp_dir and validate_temp_dir
  // ---------------------------------------------------------------------------

  datatype TempDirError = InvalidTempDir | TempDirCreateFailed | HtaccessCreateFailed | IndexCreateFailed

  const HtaccessRules: string := "Order deny,allow\nDeny from all\n"
  const IndexStub: string := "<?php\n// Silence is golden."

  /**
   * `create_secure_temp_dir`: an existing directory is returned as it is.
   * Otherwise it is created, then a deny-all `.htaccess` and a silent
   * `index.php` are written into it, each failure stopping with its own
   * error. The second component lists the files written, in order.
   */
  function CreateSecureTempDir(uploadBase: string, dirName: string, fileExists: string -> bool,
                               mkdir: string -> bool, put: (string, string) -> bool): (r: (Result<string, TempDirError>, seq<string>))
    ensures var dir := TrailingSlashIt(uploadBase) + dirName;
      && (fileExists(dir) ==> r == (Ok(dir), []))
      && (!fileExists(dir) && !mkdir(dir) ==> r == (Err(TempDirCreateFailed), []))
      && (r.0.Ok? ==> r.0.value == dir)
      && (r.0.Ok? && !fileExists(dir) ==> r.1 == [dir + "/.htaccess", dir + "/index.php"])
    ensures forall f :: f in r.1 ==> IsSystemFile(f)
  {
    var dir := TrailingSlashIt(uploadBase) + dirName;
    var htaccess := dir + "/.htaccess";
    var index := dir + "/index.php";
    assert htaccess == dir + "/" + ".htaccess" && index == dir + "/" + "index.php";
    BasenameOfChild(dir, ".htaccess");
    BasenameOfChild(dir, "index.php");
    if fileExists(dir) then (Ok(dir), [])
    else if !mkdir(dir) then (Err(TempDirCreateFailed), [])
    else if !put(htaccess, HtaccessRules) then (Err(HtaccessCreateFailed), [])
    else if !put(index, IndexStub) then (Err(IndexCreateFailed), [htaccess])
    else (Ok(dir), [htaccess, index])
  }

  /**
   * `validate_temp_dir`: the sanitized base name must be a plain name;
   * otherwise `invalid_temp_dir` is returned before anything is created.
   * A plain name is handed to `create_secure_temp_dir`.
   */
  function ValidateTempDir(folder: string, sanitize: string -> string, uploadBase: string, fileExists: string -> bool,
                           mkdir: string -> bool, put: (string, string) -> bool): (r: (Result<string, TempDirError>, seq<string>))
    ensures !AdminPage.IsPlainName(Basename(sanitize(folder))) ==> r == (Err(InvalidTempDir), [])
    ensures r.0.Ok? ==> AdminPage.IsPlainName(Basename(sanitize(folder))) && r.0.value == TrailingSlashIt(uploadBase) + Basename(sanitize(folder))
    ensures AdminPage.IsPlainName(Basename(sanitize(folder))) ==> r == CreateSecureTempDir(uploadBase, Basename(sanitize(folder)), fileExists, mkdir, put)
  {
    var name := Basename(sanitize(folder));
    StrPosFindsSubstrings(name, "..");
    if PhpEmpty(name) || StrPos(name, "..").Some? then (Err(InvalidTempDir), [])
    else CreateSecureTempDir(uploadBase, name, fileExists, mkdir, put)
  }

  /** The temporary-directory check accepts exactly the names the current admin page's directory-name check accepts. */
  lemma ValidateTempDirAgreesWithAdminPage(folder: string, sanitize: string -> string, uploadBase: string, fileExists: string -> bool,
                                           mkdir: string -> bool, put: (string, string) -> bool)
    ensures ValidateTempDir(folder, sanitize, uploadBase, fileExists, mkdir, put).0 != Err(InvalidTempDir) <==> AdminPage.ValidateDirectoryName(folder, sanitize).Ok?
  {
  }

  // ---------------------------------------------------------------------------
  // cleanup_temp_files
  // ---------------------------------------------------------------------------

  /** The age limit `schedule_temp_cleanup` passes, in hours. */
  const ScheduledMaxAge: int := 24

  /** A regular file strictly older than `maxAge` hours at time `now`. */
  predicate Expired(e: Entry, now: int, maxAge: int) {
    e.isFile && now - e.mtime > maxAge * 3600
  }

  /** The paths of the listing handed to `unlink`, in listing order: expired files other than the two system files. */
  function ExpiredPaths(listing: seq<Entry>, now: int, maxAge: int): (r: seq<string>)
    ensures |r| <= |listing|
    ensures forall p :: p in r ==> !IsSystemFile(p)
    ensures forall i :: 0 <= i < |listing| && Expired(listing[i], now, maxAge) && !IsSystemFile(listing[i].path) ==> listing[i].path in r
  {
    if |listing| == 0 then []
    else
      var e := listing[0];
      var rest := ExpiredPaths(listing[1..], now, maxAge);
      assert forall i :: 1 <= i < |listing| ==> listing[i] == listing[1..][i - 1];
      if !IsSystemFile(e.path) && Expired(e, now, maxAge) then [e.path] + rest else rest
  }

  /** Soundness of the selection: each unlinked path is an expired, non-system file of the listing. */
  lemma {:induction false} ExpiredPathsSound(listing: seq<Entry>, now: int, maxAge: int, p: string)
    requires p in ExpiredPaths(listing, now, maxAge)
    ensures exists i :: 0 <= i < |listing| && listing[i].path == p && Expired(listing[i], now, maxAge)
  {
    var e := listing[0];
    if !IsSystemFile(e.path) && Expired(e, now, maxAge) && p == e.path {
    } else {
      ExpiredPathsSound(listing[1..], now, maxAge, p);
      var i :| 0 <= i < |listing[1..]| && listing[1..][i].path == p && Expired(listing[1..][i], now, maxAge);
      assert listing[i + 1] == listing[1..][i];
    }
  }

  /**
   * `cleanup_temp_files`: nothing is deleted when the stored `temp_dir` is
   * missing, PHP-empty or not a directory; otherwise every expired file the
   * `glob` of the directory lists is unlinked, except `.htaccess` and
   * `index.php`. Failures of `unlink` are ignored, so the result is the
   * list of paths handed to it.
   */
  function CleanupTempFiles(stored: Option<FlatSettings>, isDir: string -> bool, glob: string -> seq<Entry>, now: int, maxAge: int): (r: seq<string>)
    ensures var dir := if stored.Some? then stored.value.tempDir else "";
      PhpEmpty(dir) || !isDir(dir) ==> r == []
    ensures forall p :: p in r ==> !IsSystemFile(p)
    ensures stored.Some? && !PhpEmpty(stored.value.tempDir) && isDir(stored.value.tempDir) ==>
      var listing := glob(stored.value.tempDir + "/*");
      forall i :: 0 <= i < |listing| && Expired(listing[i], now, maxAge) && !IsSystemFile(listing[i].path) ==> listing[i].path in r
  {
    var dir := if stored.Some? then stored.value.tempDir else "";
    if PhpEmpty(dir) || !isDir(dir) then [] else ExpiredPaths(glob(dir + "/*"), now, maxAge)
  }

  /** The two files the secured directory is created with are never among those the cleanup deletes. */
  lemma SecuredFilesSurviveCleanup(uploadBase: string, dirName: string, fileExists: string -> bool, mkdir: string -> bool,
                                   put: (string, string) -> bool, stored: Option<FlatSettings>, isDir: string -> bool,
                                   glob: string -> seq<Entry>, now: int, maxAge: int)
    ensures forall f :: f in CreateSecureTempDir(uploadBase, dirName, fileExists, mkdir, put).1 ==>
      f !in CleanupTempFiles(stored, isDir, glob, now, maxAge)
  {
  }

  /**
   * The age rules differ at the boundary: a file exactly `maxAge` hours old
   * is kept by the cleanup, whose comparison is strict, while the directory
   * handler's `clean_directory` with the same age, no extension filter and
   * nothing protected deletes it.
   */
  lemma BoundaryAgeContrast(walk: seq<Entry>, e: Entry, now: int, maxAge: int, unlink: string -> bool, stored: Option<FlatSettings>, isDir: string -> bool, glob: string -> seq<Entry>)
    requires e in walk && e.isFile && now - e.mtime == maxAge * 3600
    requires stored.Some? && glob(stored.value.tempDir + "/*") == walk
    requires forall i :: 0 <= i < |walk| && walk[i].path == e.path ==> walk[i] == e
    ensures e.path in DirectoryHandler.CleanDirectory(Some(walk), DirectoryHandler.CleanArgs(Some(maxAge), None, Some(0), None), now, unlink).value.unlinked
    ensures e.path !in CleanupTempFiles(stored, isDir, glob, now, maxAge)
  {
    var args := DirectoryHandler.CleanArgs(Some(maxAge), None, Some(0), None);
    var c := DirectoryHandler.Candidate(e.path, e.mtime);
    DirectoryHandler.MatchedUnfiltered(walk, e);
    DirectoryHandler.CleanDirectoryDeletesOld(walk, args, now, unlink, c);
    var dir := stored.value.tempDir;
    if !PhpEmpty(dir) && isDir(dir) && e.path in ExpiredPaths(walk, now, maxAge) {
      ExpiredPathsSound(walk, now, maxAge, e.path);
    }
  }
}
