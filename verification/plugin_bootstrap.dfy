/**
 * The plugin's main file (docgen-implementation.php): the class autoloader,
 * which maps a class name to a file name and looks for it in three
 * directories, and the default settings the activation hook adds.
 *
 * `file_exists` is a parameter; the upload base directory and
 * `WP_CONTENT_DIR` are arguments.
 */
module PluginBootstrap {
  import opened Results
  import opened PhpStrings
  import opened FormData

  /** The class-name prefix the autoloader serves. */
  const Namespace := "DocGen_Implementation_"

  /**
   * The file name for a class: every occurrence of the prefix removed,
   * underscores turned into dashes, lower-cased, between `class-` and
   * `.php`. `None` when the class name does not start with the prefix.
   */
  function AutoloadFileName(cls: string): (r: Option<string>)
    ensures r.None? <==> !(Namespace <= cls)
    ensures r.Some? ==> |r.value| >= 10 && r.value[..6] == "class-" && r.value[|r.value| - 4..] == ".php"
    ensures r.Some? ==> '_' !in r.value && forall i :: 0 <= i < |r.value| ==> !('A' <= r.value[i] <= 'Z')
  {
    StrPosZeroIsPrefix(cls, Namespace);
    if StrPos(cls, Namespace) != Some(0) then None
    else
      var stem := Replace(Replace(cls, Namespace, ""), "_", "-");
      ReplaceCharRemoves(Replace(cls, Namespace, ""), '_', "-");
      var lower := ToLower(stem);
      var file := "class-" + lower + ".php";
      assert file[..6] == "class-" && file[|file| - 4..] == ".php";
      assert forall i :: 6 <= i < |file| - 4 ==> file[i] == lower[i - 6];
      Some(file)
  }

  /** For a class name made of the prefix and a remainder free of it, the file name is built from the remainder alone. */
  lemma AutoloadFileNameOfSuffix(rest: string)
    requires forall j: nat :: !OccursAt(rest, Namespace, j)
    ensures AutoloadFileName(Namespace + rest) == Some("class-" + ToLower(Replace(rest, "_", "-")) + ".php")
  {
    var cls := Namespace + rest;
    assert Namespace <= cls;
    StrPosZeroIsPrefix(cls, Namespace);
    ReplacePrefix(Namespace, rest, "");
    ReplaceAbsent(rest, Namespace, "");
    assert Replace(cls, Namespace, "") == rest;
  }

  /**
   * For any class name that starts with the prefix, the file name is built
   * from the remainder with every further occurrence of the prefix removed.
   */
  lemma AutoloadFileNameStripsAll(rest: string)
    ensures AutoloadFileName(Namespace + rest) == Some("class-" + ToLower(Replace(Replace(rest, Namespace, ""), "_", "-")) + ".php")
  {
    var cls := Namespace + rest;
    assert Namespace <= cls;
    StrPosZeroIsPrefix(cls, Namespace);
    ReplacePrefix(Namespace, rest, "");
    assert "" + Replace(rest, Namespace, "") == Replace(rest, Namespace, "");
  }

  /** Two underscore-free words joined by one underscore are joined by one dash in the file name. */
  lemma DashedPair(x: string, y: string)
    requires '_' !in x && '_' !in y
    ensures Replace(x + "_" + y, "_", "-") == x + "-" + y
  {
    ReplaceCharSkip(x, "_" + y, '_', "-");
    ReplacePrefix("_", y, "-");
    ReplaceCharSkip(y, "", '_', "-");
    assert y + "" == y;
    assert x + "_" + y == x + ("_" + y);
  }

  lemma AdminPageLower()
    ensures "class-" + ToLower("Admin-Page") + ".php" == "class-admin-page.php"
  {
    assert ToLower("Admin-Page") == "admin-page";
  }

  /** `DocGen_Implementation_Admin_Page` is looked for as `class-admin-page.php`. */
  lemma AutoloadAdminPage(cls: string)
    requires cls == "DocGen_Implementation_Admin_Page"
    ensures AutoloadFileName(cls) == Some("class-admin-page.php")
  {
    var x, y := "Admin", "Page";
    assert cls == Namespace + (x + "_" + y);
    assert forall j: nat :: !OccursAt(x + "_" + y, Namespace, j);
    AutoloadFileNameOfSuffix(x + "_" + y);
    DashedPair(x, y);
    assert x + "-" + y == "Admin-Page";
    AdminPageLower();
  }

  /** `Foo-Bar` lower-cased. */
  lemma FooBarLower()
    ensures "class-" + ToLower("Foo-Bar") + ".php" == "class-foo-bar.php"
  {
    assert ToLower("Foo-Bar") == "foo-bar";
  }

  /** A second occurrence of a prefix between two words is removed entirely. */
  lemma StripRecurringPrefix(x: string, y: string, p: string)
    requires |p| > 0 && p[0] != '_' && p[0] !in x && p[0] !in y
    ensures Replace(x + "_" + (p + y), p, "") == x + "_" + y
  {
    var head := x + "_";
    assert x + "_" + (p + y) == head + (p + y);
    ReplaceSkipHead(head, p + y, p, "");
    ReplacePrefix(p, y, "");
    ReplaceAbsent(y, p, "");
    assert "" + y == y;
  }

  /** Two words with the prefix repeated between them map to the file of the two words alone. */
  lemma AutoloadRecurring(x: string, y: string)
    requires 'D' !in x && 'D' !in y && '_' !in x && '_' !in y
    ensures AutoloadFileName(Namespace + (x + "_" + (Namespace + y))) == Some("class-" + ToLower(x + "-" + y) + ".php")
  {
    AutoloadFileNameStripsAll(x + "_" + (Namespace + y));
    assert Namespace[0] == 'D';
    StripRecurringPrefix(x, y, Namespace);
    DashedPair(x, y);
  }

  /**
   * The prefix is stripped wherever it recurs, not only at the start:
   * `DocGen_Implementation_Foo_DocGen_Implementation_Bar` is looked for as
   * `class-foo-bar.php`.
   */
  lemma AutoloadRecurringPrefix()
    ensures AutoloadFileName(Namespace + "Foo_" + Namespace + "Bar") == Some("class-foo-bar.php")
  {
    var x, y := "Foo", "Bar";
    assert Namespace + "Foo_" + Namespace + "Bar" == Namespace + (x + "_" + (Namespace + y));
    AutoloadRecurring(x, y);
    assert x + "-" + y == "Foo-Bar";
    FooBarLower();
  }

  /** The three directories the autoloader tries, in order. */
  function CandidatePaths(pluginDir: string, file: string): seq<string> {
    [pluginDir + "admin/" + file, pluginDir + "includes/" + file, pluginDir + "modules/" + file]
  }

  /** The first candidate that exists, which is the only one loaded; `None` when none exists. */
  function FirstExisting(paths: seq<string>, fileExists: string -> bool): (r: Option<string>)
    ensures r.None? <==> forall i :: 0 <= i < |paths| ==> !fileExists(paths[i])
    ensures r.Some? ==>
      exists i :: 0 <= i < |paths| && paths[i] == r.value && fileExists(r.value) && (forall j :: 0 <= j < i ==> !fileExists(paths[j]))
  {
    if |paths| == 0 then None
    else if fileExists(paths[0]) then Some(paths[0])
    else
      var r := FirstExisting(paths[1..], fileExists);
      assert forall i :: 1 <= i < |paths| ==> paths[i] == paths[1..][i - 1];
      if r.Some? then
        var k :| 0 <= k < |paths[1..]| && paths[1..][k] == r.value && fileExists(r.value) && forall j :: 0 <= j < k ==> !fileExists(paths[1..][j]);
        assert paths[k + 1] == r.value;
        r
      else r
  }

  /** The autoloader: the file it loads for a class, if any. */
  function Autoload(cls: string, pluginDir: string, fileExists: string -> bool): (r: Option<string>)
    ensures !(Namespace <= cls) ==> r.None?
    ensures r.Some? ==> fileExists(r.value)
    ensures r.Some? ==> r.value in CandidatePaths(pluginDir, AutoloadFileName(cls).value)
    ensures Namespace <= cls && fileExists(pluginDir + "admin/" + AutoloadFileName(cls).value) ==>
      r == Some(pluginDir + "admin/" + AutoloadFileName(cls).value)
  {
    match AutoloadFileName(cls)
    case None => None
    case Some(file) => FirstExisting(CandidatePaths(pluginDir, file), fileExists)
  }

  // ---------------------------------------------------------------------------
  // Activation
  // ---------------------------------------------------------------------------

  /** The flat defaults the activation hook adds. */
  function ActivationDefaults(uploadBase: string, contentDir: string): (d: FlatSettings)
    ensures Basename(d.tempDir) == "docgen-temp" && uploadBase + "/" <= d.tempDir
    ensures Basename(d.templateDir) == "docgen-templates" && Untrailingslashit(contentDir) + "/" <= d.templateDir
    ensures d.outputFormat == "docx" && !d.debugMode
  {
    BasenameOfChild(uploadBase, "docgen-temp");
    assert uploadBase + "/docgen-temp" == uploadBase + "/" + "docgen-temp";
    assert (uploadBase + "/" + "docgen-temp")[..|uploadBase| + 1] == uploadBase + "/";
    BasenameOfChild(Untrailingslashit(contentDir), "docgen-templates");
    FlatSettings(uploadBase + "/docgen-temp", TrailingSlashIt(contentDir) + "docgen-templates", "docx", false)
  }

  /** `add_option` only when no settings are stored: existing settings are never replaced. */
  function ActivateSettings(stored: Option<FlatSettings>, uploadBase: string, contentDir: string): (r: FlatSettings)
    ensures stored.Some? ==> r == stored.value
    ensures stored.None? ==> r == ActivationDefaults(uploadBase, contentDir)
  {
    match stored
    case Some(s) => s
    case None => ActivationDefaults(uploadBase, contentDir)
  }
}
