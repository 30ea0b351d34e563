/**
 * The settings registry (includes/class-settings-manager.php): one nested
 * option holding the core settings, the registered plugins and the
 * registered modules, plus the in-memory module table of the singleton.
 *
 * `get_option`/`update_option` become the `option` field of the manager
 * state; `update_option` reports whether the stored value changed, as
 * WordPress does. The validation filters are parameters: `None` stands for
 * a `WP_Error`.
 */
module SettingsManager {
  import opened Results
  import opened PhpStrings

  /** The `core` array. */
  datatype CoreSettings = CoreSettings(tempDir: string, templateDir: string, outputFormat: string, cleanUninstall: bool)

  /** One entry of the `plugins` array. */
  datatype PluginEntry = PluginEntry(name: string, tempSubdir: string, modules: seq<string>, settings: map<string, string>)

  /** One entry of the `modules` array (the stored copy of a module). */
  datatype ModuleEntry = ModuleEntry(name: string, description: string, version: string, instance: nat)

  /** The array a caller passes to `register_plugin`; absent optional keys are `None`. */
  datatype PluginData = PluginData(slug: string, name: string, modules: Option<seq<string>>, settings: Option<map<string, string>>)

  /** The array a caller passes to `register_module`; `instance` identifies the module object. */
  datatype ModuleData = ModuleData(slug: string, name: string, description: string, version: string, instance: nat)

  /** The option `docgen_implementation_settings` in the manager's shape. */
  datatype Blob = Blob(core: CoreSettings, plugins: map<string, PluginEntry>, modules: map<string, ModuleEntry>)

  /** The stored option and the singleton's `$modules` table. */
  datatype Manager = Manager(option: Blob, modules: map<string, ModuleData>)

  // ---------------------------------------------------------------------------
  // Defaults and initialisation
  // ---------------------------------------------------------------------------

  /** The default structure built from the upload base directory. */
  function Defaults(uploadBase: string): Blob {
    Blob(
      CoreSettings(TrailingSlashIt(uploadBase) + "docgen-temp", TrailingSlashIt(uploadBase) + "docgen-templates", "docx", false),
      map[], map[])
  }

  /**
   * Both default directories are direct children of the upload base: each
   * starts with the base and one slash, and its base name is the plugin's
   * folder name. The format is DOCX, clean-uninstall is off, and nothing
   * is registered.
   */
  lemma DefaultsUnderUploadBase(uploadBase: string)
    ensures var d := Defaults(uploadBase);
      && Untrailingslashit(uploadBase) + "/" <= d.core.tempDir
      && Untrailingslashit(uploadBase) + "/" <= d.core.templateDir
      && Basename(d.core.tempDir) == "docgen-temp"
      && Basename(d.core.templateDir) == "docgen-templates"
      && d.core.outputFormat == "docx" && !d.core.cleanUninstall
      && d.plugins == map[] && d.modules == map[]
  {
    var u := Untrailingslashit(uploadBase);
    BasenameOfChild(u, "docgen-temp");
    BasenameOfChild(u, "docgen-templates");
  }

  /**
   * `maybe_init_settings` on construction: the defaults are written only
   * when no option is stored; an existing option is kept as it is.
   */
  function Init(stored: Option<Blob>, uploadBase: string): (m: Manager)
    ensures stored.None? ==> m.option == Defaults(uploadBase)
    ensures stored.Some? ==> m.option == stored.value
    ensures m.modules == map[]
  {
    Manager(stored.GetOr(Defaults(uploadBase)), map[])
  }

  /** `get_core_settings`. */
  function GetCoreSettings(m: Manager): CoreSettings {
    m.option.core
  }

  // ---------------------------------------------------------------------------
  // update_core_settings
  // ---------------------------------------------------------------------------

  /**
   * `update_core_settings`: the filter's rejection returns false and writes
   * nothing; otherwise `core` is replaced by the filtered value, and the
   * result is whether the stored option changed.
   */
  function UpdateCoreSettings(m: Manager, newCore: CoreSettings, validate: CoreSettings -> Option<CoreSettings>): (r: (Manager, bool))
    ensures validate(newCore).None? ==> r == (m, false)
    ensures validate(newCore).Some? ==> r.0.option == m.option.(core := validate(newCore).value)
    ensures r.0.option.plugins == m.option.plugins && r.0.option.modules == m.option.modules && r.0.modules == m.modules
    ensures r.1 <==> r.0.option != m.option
  {
    match validate(newCore)
    case None => (m, false)
    case Some(v) =>
      var blob := m.option.(core := v);
      (m.(option := blob), blob != m.option)
  }

  // ---------------------------------------------------------------------------
  // Plugins
  // ---------------------------------------------------------------------------

  /** The entry `register_plugin` stores for the caller's (unfiltered) data. */
  function EntryOf(d: PluginData): (e: PluginEntry)
    ensures e.tempSubdir == d.slug
    ensures d.modules.None? ==> e.modules == []
    ensures d.settings.None? ==> e.settings == map[]
  {
    PluginEntry(d.name, d.slug, d.modules.GetOr([]), d.settings.GetOr(map[]))
  }

  /**
   * `register_plugin`: an empty slug (`""` or `"0"`, which PHP's `empty`
   * also treats as empty) or a rejected validation returns false and
   * writes nothing. Otherwise `plugins[slug]` is set (overwriting an
   * earlier entry) from the caller's original data.
   */
  function RegisterPlugin(m: Manager, d: PluginData, validate: PluginData -> bool): (r: (Manager, bool))
    ensures PhpEmpty(d.slug) || !validate(d) ==> r == (m, false)
    ensures !PhpEmpty(d.slug) && validate(d) ==> r.0.option.plugins == m.option.plugins[d.slug := EntryOf(d)]
    ensures r.0.option.core == m.option.core && r.0.option.modules == m.option.modules && r.0.modules == m.modules
    ensures r.1 <==> r.0.option != m.option
  {
    if PhpEmpty(d.slug) || !validate(d) then (m, false)
    else
      var blob := m.option.(plugins := m.option.plugins[d.slug := EntryOf(d)]);
      (m.(option := blob), blob != m.option)
  }

  /** `is_plugin_registered`. */
  predicate IsPluginRegistered(m: Manager, slug: string) {
    slug in m.option.plugins
  }

  /**
   * `get_plugin_settings`: the stored entry (`None` for the empty array an
   * unknown slug gives) passed through the plugin's own filter.
   */
  function GetPluginSettings(m: Manager, slug: string, filter: (string, Option<PluginEntry>) -> Option<PluginEntry>): (r: Option<PluginEntry>)
    ensures !IsPluginRegistered(m, slug) ==> r == filter(slug, None)
    ensures IsPluginRegistered(m, slug) ==> r == filter(slug, Some(m.option.plugins[slug]))
  {
    filter(slug, if slug in m.option.plugins then Some(m.option.plugins[slug]) else None)
  }

  /**
   * `update_plugin_settings`: an unregistered slug returns false and writes
   * nothing; otherwise only that plugin's `settings` are replaced.
   */
  function UpdatePluginSettings(m: Manager, slug: string, settings: map<string, string>): (r: (Manager, bool))
    ensures !IsPluginRegistered(m, slug) ==> r == (m, false)
    ensures IsPluginRegistered(m, slug) ==> r.0.option.plugins == m.option.plugins[slug := m.option.plugins[slug].(settings := settings)]
    ensures r.0.option.core == m.option.core && r.0.option.modules == m.option.modules && r.0.modules == m.modules
    ensures r.1 <==> r.0.option != m.option
  {
    if slug !in m.option.plugins then (m, false)
    else
      var blob := m.option.(plugins := m.option.plugins[slug := m.option.plugins[slug].(settings := settings)]);
      (m.(option := blob), blob != m.option)
  }

  /**
   * A registered plugin reads back its own entry (seen through the identity
   * filter), and every other plugin's entry is the one stored before.
   */
  lemma RegisterPluginReadBack(m: Manager, d: PluginData, validate: PluginData -> bool, other: string)
    requires !PhpEmpty(d.slug) && validate(d)
    ensures var m' := RegisterPlugin(m, d, validate).0;
      && IsPluginRegistered(m', d.slug)
      && GetPluginSettings(m', d.slug, (s, e) => e) == Some(EntryOf(d))
      && (other != d.slug ==> GetPluginSettings(m', other, (s, e) => e) == GetPluginSettings(m, other, (s, e) => e))
  {
  }

  /**
   * Updating a registered plugin's settings keeps its name, temporary
   * sub-directory and module list, and reads back the new settings.
   */
  lemma UpdatePluginSettingsPreserves(m: Manager, slug: string, settings: map<string, string>)
    requires IsPluginRegistered(m, slug)
    ensures var e := UpdatePluginSettings(m, slug, settings).0.option.plugins[slug];
      && e.settings == settings
      && e.name == m.option.plugins[slug].name
      && e.tempSubdir == m.option.plugins[slug].tempSubdir
      && e.modules == m.option.plugins[slug].modules
  {
  }

  // ---------------------------------------------------------------------------
  // Modules
  // ---------------------------------------------------------------------------

  /**
   * `register_module`: an empty slug returns false and changes nothing.
   * Otherwise the stored `modules[slug]` and the in-memory table are both
   * set; the in-memory table is updated even when `update_option` reports
   * no change.
   */
  function RegisterModule(m: Manager, mod: ModuleData): (r: (Manager, bool))
    ensures PhpEmpty(mod.slug) ==> r == (m, false)
    ensures !PhpEmpty(mod.slug) ==>
      && r.0.modules == m.modules[mod.slug := mod]
      && r.0.option.modules == m.option.modules[mod.slug := ModuleEntry(mod.name, mod.description, mod.version, mod.instance)]
    ensures r.0.option.core == m.option.core && r.0.option.plugins == m.option.plugins
    ensures r.1 <==> r.0.option != m.option
  {
    if PhpEmpty(mod.slug) then (m, false)
    else
      var blob := m.option.(modules := m.option.modules[mod.slug := ModuleEntry(mod.name, mod.description, mod.version, mod.instance)]);
      (Manager(blob, m.modules[mod.slug := mod]), blob != m.option)
  }

  /** `get_module`: the registered module data, or `None` for `null`. */
  function GetModule(m: Manager, slug: string): (r: Option<ModuleData>)
    ensures r.Some? <==> slug in m.modules
    ensures r.Some? ==> r.value == m.modules[slug]
  {
    if slug in m.modules then Some(m.modules[slug]) else None
  }

  /** After registering a module under a non-empty slug, `get_module` returns it; other slugs are unaffected. */
  lemma RegisterModuleGet(m: Manager, mod: ModuleData, other: string)
    requires !PhpEmpty(mod.slug)
    ensures GetModule(RegisterModule(m, mod).0, mod.slug) == Some(mod)
    ensures other != mod.slug ==> GetModule(RegisterModule(m, mod).0, other) == GetModule(m, other)
  {
  }
}
