/**
 * The base class of the plugin's admin pages (admin/class-admin-page.php):
 * whether a page's assets are enqueued for an admin hook, the content base
 * directory, and the check a submitted directory name must pass.
 *
 * `sanitize_file_name` is a parameter; `WP_CONTENT_DIR` is an argument.
 */
module AdminPage {
  import opened Results
  import opened PhpStrings

  /** The `WP_Error` code `validate_directory_name` returns. */
  datatype DirectoryNameError = InvalidDirectory

  /** A single path component that is not PHP-empty and has no `..` in it. */
  ghost predicate IsPlainName(d: string) {
    !PhpEmpty(d) && '/' !in d && !Contains(d, "..")
  }

  /**
   * `enqueue_assets`: the page's assets are enqueued exactly when the page
   * slug occurs somewhere in the hook name.
   */
  function ShouldEnqueue(hook: string, slug: string): (r: bool)
    ensures r <==> Contains(hook, slug)
    ensures slug == "" ==> r
  {
    StrPosFindsSubstrings(hook, slug);
    OccursAtStart(hook, slug);
    StrPos(hook, slug).Some?
  }

  /**
   * `get_content_base_dir`: the content directory with exactly one trailing
   * slash, whatever slashes it ended with.
   */
  function ContentBaseDir(contentDir: string): (r: string)
    ensures |r| > 0 && r[|r| - 1] == '/'
    ensures |r| == 1 || !IsSlash(r[|r| - 2])
    ensures Untrailingslashit(contentDir) + "/" == r
    ensures TrailingSlashIt(r) == r
  {
    TrailingSlashItIdempotent(contentDir);
    TrailingSlashIt(contentDir)
  }

  /**
   * `validate_directory_name`: the sanitized name is cut to its base name;
   * the result is accepted only when it is a plain name, and is otherwise
   * the `invalid_directory` error.
   */
  function ValidateDirectoryName(name: string, sanitize: string -> string): (r: Result<string, DirectoryNameError>)
    ensures r.Ok? ==> IsPlainName(r.value) && r.value == Basename(sanitize(name))
    ensures r.Err? ==> !IsPlainName(Basename(sanitize(name)))
  {
    var d := Basename(sanitize(name));
    StrPosFindsSubstrings(d, "..");
    if PhpEmpty(d) || StrPos(d, "..").Some? then Err(InvalidDirectory) else Ok(d)
  }

  /** A name without slashes is its own base name. */
  lemma BasenameOfPlain(d: string)
    requires |d| > 0 && '/' !in d
    ensures Basename(d) == d
  {
    BasenameOfSuffix("", d);
    assert "" + d == d;
  }

  /** A sanitizer that already yields a plain name has it accepted unchanged. */
  lemma ValidateDirectoryNameAcceptsPlain(name: string, sanitize: string -> string)
    requires IsPlainName(sanitize(name))
    ensures ValidateDirectoryName(name, sanitize) == Ok(sanitize(name))
  {
    BasenameOfPlain(sanitize(name));
  }

  /** Whatever the sanitizer does, an accepted name is one path component: placing it under a directory adds exactly one level. */
  lemma ValidateDirectoryNameIsOneLevel(name: string, sanitize: string -> string, dir: string)
    requires ValidateDirectoryName(name, sanitize).Ok?
    ensures Basename(TrailingSlashIt(dir) + ValidateDirectoryName(name, sanitize).value) == ValidateDirectoryName(name, sanitize).value
  {
    var d := ValidateDirectoryName(name, sanitize).value;
    var base := TrailingSlashIt(dir);
    assert base == Untrailingslashit(dir) + "/";
    BasenameOfChild(Untrailingslashit(dir), d);
  }
}
