/**
 * The module loader (includes/class-module-loader.php): the list of module
 * files it discovers and registers, lookups in the module list that the
 * `docgen_implementation_modules` filter supplies, and the list of active
 * module slugs kept in the option `docgen_implementation_active_modules`.
 *
 * `file_exists` and `is_dir` are parameters, `scandir` is the listing it
 * returns, and the filtered module list is an argument of each lookup.
 */
module ModuleLoader {
  import opened Results

  /** One element of the filtered module list; `slug` or `instance` may be unset. */
  datatype ModuleInfo = ModuleInfo(slug: Option<string>, instance: Option<nat>)

  // ---------------------------------------------------------------------------
  // register_module and discover_modules
  // ---------------------------------------------------------------------------

  /** `register_module`: the path is appended only when the file exists. */
  function RegisterModule(files: seq<string>, file: string, fileExists: string -> bool): (r: (seq<string>, bool))
    ensures r.1 <==> fileExists(file)
    ensures r.1 ==> r.0 == files + [file]
    ensures !r.1 ==> r.0 == files
  {
    if fileExists(file) then (files + [file], true) else (files, false)
  }

  /** The main file a module directory must hold. */
  function ModuleFile(modulesDir: string, d: string): string {
    modulesDir + "/" + d + "/class-module.php"
  }

  /** Whether the listed name `d` is a module: not `.` or `..`, a directory, and holding its main file. */
  predicate IsModuleDir(modulesDir: string, d: string, isDir: string -> bool, fileExists: string -> bool) {
    d != "." && d != ".." && isDir(modulesDir + "/" + d) && fileExists(ModuleFile(modulesDir, d))
  }

  /** The registrations made for a listing, in listing order. */
  function Discovered(modulesDir: string, names: seq<string>, isDir: string -> bool, fileExists: string -> bool): (r: seq<string>)
    ensures |r| <= |names|
    ensures forall f :: f in r <==> exists d :: d in names && IsModuleDir(modulesDir, d, isDir, fileExists) && f == ModuleFile(modulesDir, d)
  {
    if |names| == 0 then []
    else
      var d := names[0];
      var rest := Discovered(modulesDir, names[1..], isDir, fileExists);
      assert forall x :: x in names <==> x == d || x in names[1..];
      if IsModuleDir(modulesDir, d, isDir, fileExists) then
        [ModuleFile(modulesDir, d)] + rest
      else rest
  }

  /**
   * `discover_modules`: nothing happens when `<plugin dir>modules` is not a
   * directory; otherwise every listed module directory has its main file
   * registered, in listing order, after the files registered before.
   */
  function DiscoverModules(files: seq<string>, pluginDir: string, listing: seq<string>, isDir: string -> bool, fileExists: string -> bool): (r: seq<string>)
    ensures !isDir(pluginDir + "modules") ==> r == files
    ensures isDir(pluginDir + "modules") ==> |r| >= |files| && r[..|files|] == files
    ensures isDir(pluginDir + "modules") ==> forall f :: f in r[|files|..] <==>
      exists d :: d in listing && d != "." && d != ".." && isDir(pluginDir + "modules/" + d) && f == pluginDir + "modules/" + d + "/class-module.php" && fileExists(f)
  {
    var modulesDir := pluginDir + "modules";
    if !isDir(modulesDir) then files
    else
      var found := Discovered(modulesDir, listing, isDir, fileExists);
      var r := files + found;
      assert r[..|files|] == files && r[|files|..] == found;
      forall d ensures modulesDir + "/" + d == pluginDir + "modules/" + d
        && ModuleFile(modulesDir, d) == pluginDir + "modules/" + d + "/class-module.php"
      {
        assert modulesDir + "/" + d == pluginDir + "modules/" + d;
      }
      r
  }

  // ---------------------------------------------------------------------------
  // get_module and module_exists
  // ---------------------------------------------------------------------------

  /** The index of the first module whose slug is `slug`. */
  function FirstWithSlug(modules: seq<ModuleInfo>, slug: string): (r: Option<nat>)
    ensures r.Some? ==> r.value < |modules| && modules[r.value].slug == Some(slug)
    ensures r.Some? ==> forall j :: 0 <= j < r.value ==> modules[j].slug != Some(slug)
    ensures r.None? ==> forall j :: 0 <= j < |modules| ==> modules[j].slug != Some(slug)
  {
    if |modules| == 0 then None
    else if modules[0].slug == Some(slug) then Some(0)
    else
      match FirstWithSlug(modules[1..], slug)
      case None => None
      case Some(k) => Some(k + 1)
  }

  /**
   * `get_module`: the instance of the first module with that slug (which
   * may itself be unset), or `null` when no module has it.
   */
  function GetModule(modules: seq<ModuleInfo>, slug: string): (r: Option<nat>)
    ensures r.Some? ==> exists i :: 0 <= i < |modules| && modules[i].slug == Some(slug) && modules[i].instance == r
    ensures (forall i :: 0 <= i < |modules| ==> modules[i].slug != Some(slug)) ==> r.None?
    ensures forall i :: 0 <= i < |modules| && modules[i].slug == Some(slug) && (forall j :: 0 <= j < i ==> modules[j].slug != Some(slug)) ==> r == modules[i].instance
  {
    match FirstWithSlug(modules, slug)
    case None => None
    case Some(i) => modules[i].instance
  }

  /** `module_exists`: `get_module` is not `null`. */
  predicate ModuleExists(modules: seq<ModuleInfo>, slug: string) {
    GetModule(modules, slug).Some?
  }

  /** Only the first module carrying a slug decides `module_exists`: an instance-less first match hides later ones. */
  lemma ModuleExistsFirstMatch(modules: seq<ModuleInfo>, slug: string)
    ensures ModuleExists(modules, slug) <==>
      exists i :: 0 <= i < |modules| && modules[i].slug == Some(slug) && modules[i].instance.Some? &&
        forall j :: 0 <= j < i ==> modules[j].slug != Some(slug)
  {
    match FirstWithSlug(modules, slug)
    case None =>
    case Some(i) =>
      forall k | 0 <= k < |modules| && modules[k].slug == Some(slug) && (forall j :: 0 <= j < k ==> modules[j].slug != Some(slug))
        ensures k == i
      {
      }
  }

  // ---------------------------------------------------------------------------
  // Active modules
  // ---------------------------------------------------------------------------

  /** Whether a module is active: its slug is set and listed in `active`. */
  predicate IsActive(m: ModuleInfo, active: seq<string>) {
    m.slug.Some? && m.slug.value in active
  }

  /** `get_active_modules`: the modules whose slug is active, in list order. */
  function GetActiveModules(modules: seq<ModuleInfo>, active: seq<string>): (r: seq<ModuleInfo>)
    ensures |r| <= |modules|
    ensures forall m :: m in r <==> m in modules && IsActive(m, active)
  {
    if |modules| == 0 then []
    else
      var rest := GetActiveModules(modules[1..], active);
      assert forall x :: x in modules <==> x == modules[0] || x in modules[1..];
      if IsActive(modules[0], active) then [modules[0]] + rest else rest
  }

  /** The filter keeps the order of the list: filtering a concatenation concatenates the filtered parts. */
  lemma {:induction false} GetActiveModulesAppend(a: seq<ModuleInfo>, b: seq<ModuleInfo>, active: seq<string>)
    ensures GetActiveModules(a + b, active) == GetActiveModules(a, active) + GetActiveModules(b, active)
  {
    if |a| == 0 {
      assert a + b == b;
    } else {
      assert (a + b)[0] == a[0] && (a + b)[1..] == a[1..] + b;
      GetActiveModulesAppend(a[1..], b, active);
    }
  }

  /** No slug appears twice. */
  predicate NoDuplicates(s: seq<string>) {
    forall i, j :: 0 <= i < j < |s| ==> s[i] != s[j]
  }

  /**
   * `activate_module`: an unknown module returns false and leaves the list
   * alone; a known one is appended only when it is not already active.
   */
  function ActivateModule(active: seq<string>, slug: string, modules: seq<ModuleInfo>): (r: (seq<string>, bool))
    ensures r.1 <==> ModuleExists(modules, slug)
    ensures !r.1 ==> r.0 == active
    ensures r.1 ==> slug in r.0 && forall x :: x in r.0 <==> x in active || x == slug
    ensures r.1 && slug in active ==> r.0 == active
    ensures r.1 && slug !in active ==> r.0 == active + [slug]
    ensures NoDuplicates(active) ==> NoDuplicates(r.0)
  {
    if !ModuleExists(modules, slug) then (active, false)
    else if slug in active then (active, true)
    else (active + [slug], true)
  }

  /** Activating twice is activating once. */
  lemma ActivateIdempotent(active: seq<string>, slug: string, modules: seq<ModuleInfo>)
    ensures ActivateModule(ActivateModule(active, slug, modules).0, slug, modules) == ActivateModule(active, slug, modules)
  {
  }

  /** The index `array_search` finds: the first position holding `slug`. */
  function IndexOf(s: seq<string>, slug: string): (r: Option<nat>)
    ensures r.None? <==> slug !in s
    ensures r.Some? ==> r.value < |s| && s[r.value] == slug && slug !in s[..r.value]
  {
    if |s| == 0 then None
    else if s[0] == slug then Some(0)
    else
      match IndexOf(s[1..], slug)
      case None => None
      case Some(k) =>
        assert s[..k + 1] == [s[0]] + s[1..][..k];
        Some(k + 1)
  }

  /**
   * `deactivate_module`: the first occurrence of the slug is removed and the
   * list reindexed, returning true; an absent slug returns false and
   * leaves the list alone.
   */
  function DeactivateModule(active: seq<string>, slug: string): (r: (seq<string>, bool))
    ensures r.1 <==> slug in active
    ensures !r.1 ==> r.0 == active
    ensures r.1 ==> |r.0| == |active| - 1
    ensures r.1 ==> exists k :: 0 <= k < |active| && active[k] == slug && slug !in active[..k] && r.0 == active[..k] + active[k + 1..]
    ensures NoDuplicates(active) ==> NoDuplicates(r.0) && slug !in r.0
  {
    match IndexOf(active, slug)
    case None => (active, false)
    case Some(k) =>
      var r := active[..k] + active[k + 1..];
      assert forall i :: 0 <= i < |r| ==> r[i] == (if i < k then active[i] else active[i + 1]);
      (r, true)
  }

  /** Deactivating a module just activated (and not active before) restores the list. */
  lemma DeactivateUndoesActivate(active: seq<string>, slug: string, modules: seq<ModuleInfo>)
    requires slug !in active && ModuleExists(modules, slug)
    ensures DeactivateModule(ActivateModule(active, slug, modules).0, slug) == (active, true)
  {
    var a := active + [slug];
    assert a[..|active|] == active;
    assert IndexOf(a, slug) == Some(|active|);
    assert a[..|active|] + a[|active| + 1..] == active;
  }
}
