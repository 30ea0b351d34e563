/**
 * The settings page (admin/class-settings-page.php): the form handler that
 * validates the two folder names and stores the flat settings option, and
 * the template count reported after a template-directory scan.
 *
 * The stored option is the argument `store` and the second half of the
 * result; the upload base, `WP_CONTENT_DIR`, `sanitize_file_name` and
 * `sanitize_text_field` are parameters, and whether `check_admin_referer`
 * accepts the nonce is the flag `nonceValid`.
 */
module SettingsPage {
  import opened Results
  import opened PhpStrings
  import opened FormData
  import DirectoryHandler
  import opened AdminPage

  /** The form field whose presence marks a settings submission. */
  const NonceField: string := "docgen_implementation_settings_nonce"

  /**
   * What a request leads to: no submission (`false`), a request ended by
   * `check_admin_referer` for a bad nonce, a rejected folder name, or the
   * saved settings (`true`).
   */
  datatype Submission = NotSubmitted | Stopped | Rejected(error: DirectoryNameError) | Saved(settings: FlatSettings)

  /**
   * `validate_and_save_settings`: the temporary folder name is validated
   * first, then the template folder name; either failure is returned and
   * nothing is stored. Otherwise the temporary directory is placed under the
   * upload base, the template directory under the content base, and the
   * settings are stored and returned.
   */
  function ValidateAndSaveSettings(data: Form, uploadBase: string, contentDir: string,
                                   sanitizeFile: string -> string, sanitizeText: string -> string,
                                   store: Option<FlatSettings>): (r: (Result<FlatSettings, DirectoryNameError>, Option<FlatSettings>))
    ensures r.0.Err? ==> r.1 == store
    ensures r.0.Ok? ==> r.1 == Some(r.0.value)
    ensures ValidateDirectoryName(Field(data, "temp_dir", ""), sanitizeFile).Err? ==> r.0 == Err(InvalidDirectory)
    ensures r.0.Ok? <==>
      ValidateDirectoryName(Field(data, "temp_dir", ""), sanitizeFile).Ok? &&
      ValidateDirectoryName(Field(data, "template_dir", ""), sanitizeFile).Ok?
    ensures r.0.Ok? ==>
      var s := r.0.value;
      && s.tempDir == Untrailingslashit(uploadBase) + "/" + Basename(sanitizeFile(Field(data, "temp_dir", "")))
      && s.templateDir == Untrailingslashit(contentDir) + "/" + Basename(sanitizeFile(Field(data, "template_dir", "")))
      && s.outputFormat == sanitizeText(Field(data, "output_format", "docx"))
      && (s.debugMode <==> "debug_mode" in data)
  {
    match ValidateDirectoryName(Field(data, "temp_dir", ""), sanitizeFile)
    case Err(e) => (Err(e), store)
    case Ok(tempFolder) =>
      match ValidateDirectoryName(Field(data, "template_dir", ""), sanitizeFile)
      case Err(e) => (Err(e), store)
      case Ok(templateFolder) =>
        var contentBase := ContentBaseDir(contentDir);
        var s := FlatSettings(
          TrailingSlashIt(uploadBase) + tempFolder,
          TrailingSlashIt(contentBase) + templateFolder,
          sanitizeText(Field(data, "output_format", "docx")),
          "debug_mode" in data);
        (Ok(s), Some(s))
  }

  /** The stored folders are one level below their bases: their base names are the validated folder names. */
  lemma SavedFoldersAreChildren(data: Form, uploadBase: string, contentDir: string,
                                sanitizeFile: string -> string, sanitizeText: string -> string, store: Option<FlatSettings>)
    requires ValidateAndSaveSettings(data, uploadBase, contentDir, sanitizeFile, sanitizeText, store).0.Ok?
    ensures var s := ValidateAndSaveSettings(data, uploadBase, contentDir, sanitizeFile, sanitizeText, store).0.value;
      && Basename(s.tempDir) == ValidateDirectoryName(Field(data, "temp_dir", ""), sanitizeFile).value
      && Basename(s.templateDir) == ValidateDirectoryName(Field(data, "template_dir", ""), sanitizeFile).value
  {
    var temp := ValidateDirectoryName(Field(data, "temp_dir", ""), sanitizeFile).value;
    var tmpl := ValidateDirectoryName(Field(data, "template_dir", ""), sanitizeFile).value;
    BasenameOfChild(Untrailingslashit(uploadBase), temp);
    BasenameOfChild(Untrailingslashit(contentDir), tmpl);
  }

  /**
   * Applying `trailingslashit` to the content base, which already ends in
   * one slash, adds nothing: the template folder follows the content
   * directory after exactly one slash.
   */
  lemma TemplateDirSingleSlash(contentDir: string, folder: string)
    ensures TrailingSlashIt(ContentBaseDir(contentDir)) + folder == Untrailingslashit(contentDir) + "/" + folder
  {
    TrailingSlashItIdempotent(contentDir);
  }

  /**
   * `handle_submissions`: without the nonce field nothing happens; a bad
   * nonce ends the request inside `check_admin_referer`, so the
   * `invalid_nonce` error below it is never returned; otherwise the outcome
   * of `validate_and_save_settings`.
   */
  function HandleSubmissions(data: Form, nonceValid: bool, uploadBase: string, contentDir: string,
                             sanitizeFile: string -> string, sanitizeText: string -> string,
                             store: Option<FlatSettings>): (r: (Submission, Option<FlatSettings>))
    ensures NonceField !in data ==> r == (NotSubmitted, store)
    ensures NonceField in data && !nonceValid ==> r == (Stopped, store)
    ensures r.0.Saved? <==> NonceField in data && nonceValid && ValidateAndSaveSettings(data, uploadBase, contentDir, sanitizeFile, sanitizeText, store).0.Ok?
    ensures r.0.Saved? ==> r.1 == Some(r.0.settings)
    ensures !r.0.Saved? ==> r.1 == store
  {
    if NonceField !in data then (NotSubmitted, store)
    else if !nonceValid then (Stopped, store)
    else
      match ValidateAndSaveSettings(data, uploadBase, contentDir, sanitizeFile, sanitizeText, store)
      case (Err(e), st) => (Rejected(e), st)
      case (Ok(s), st) => (Saved(s), st)
  }

  /** `valid_count`: the number of scanned templates whose `is_valid` is set. */
  function ValidCount(templates: seq<DirectoryHandler.Template>): (n: nat)
    ensures n <= |templates|
    ensures n == |templates| <==> forall i :: 0 <= i < |templates| ==> templates[i].isValid
    ensures n == 0 <==> forall i :: 0 <= i < |templates| ==> !templates[i].isValid
  {
    if |templates| == 0 then 0
    else
      var rest := ValidCount(templates[1..]);
      assert forall i :: 1 <= i < |templates| ==> templates[i] == templates[1..][i - 1];
      (if templates[0].isValid then 1 else 0) + rest
  }

  /** Counting is additive over a concatenation of scan results. */
  lemma {:induction false} ValidCountAppend(a: seq<DirectoryHandler.Template>, b: seq<DirectoryHandler.Template>)
    ensures ValidCount(a + b) == ValidCount(a) + ValidCount(b)
  {
    if |a| == 0 {
      assert a + b == b;
    } else {
      assert (a + b)[0] == a[0] && (a + b)[1..] == a[1..] + b;
      ValidCountAppend(a[1..], b);
    }
  }
}
