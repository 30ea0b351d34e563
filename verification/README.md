# DocGen Implementation — a Dafny model of its decision rules

DocGen Implementation is a WordPress plugin. It keeps a temporary directory and a template directory for document generation. It also keeps a registry of the plugins and modules built on it, and it ships a company-profile module that turns a JSON company record into template placeholders. This project models the parts of the plugin that make decisions, as pure Dafny functions over abstract data, and proves what those decisions guarantee:

- the directory handler: path validation, the DOCX/ODT structure check, size and statistics folds, the template scan, and the retention rule of `clean_directory`;
- the directory migration: change detection, file counting, and the per-file copy accounting;
- the settings manager: one nested option plus the in-memory module table;
- the module loader: discovery, lookup, and the active-module list;
- the company-profile data provider: placeholders, bullet lists, and the output file name;
- the class autoloader and the activation defaults in the main plugin file;
- the admin page base class, the settings page form handler, and the older admin page kept in `admin/__class-admin-page.php`.

How the outside world appears in the model:

- A directory walk is a sequence of `Files.Entry` records, in iteration order. Each record has a kind: a regular file (`isFile()`), a directory (`isDir()`), or neither, such as a broken symbolic link, a FIFO or a socket.
- A ZIP archive is a map from entry names to contents.
- Stored options are values passed in and returned.
- Each of the following is a function parameter: `file_exists`, `is_dir`, `copy`, `unlink`, `wp_mkdir_p`, `file_put_contents`, ZipArchive's `open`, `simplexml_load_string`, the WordPress sanitizers, and the validation filters.
- The clock and the upload and content directories are arguments.

PHP behaviour the model reproduces on purpose:

- `strpos` finds the empty needle at 0, as in PHP 8.
- `empty("0")` holds.
- `str_replace` removes every occurrence of its needle. So the autoloader strips the namespace wherever it occurs: `PluginBootstrap.AutoloadRecurringPrefix` shows that `DocGen_Implementation_Foo_DocGen_Implementation_Bar` is looked for as `class-foo-bar.php`. The migration likewise removes the source path wherever it recurs inside a file's path: `DirectoryMigration.MigrationTargetRepeated` shows that `/a/b/a/c` migrated from `/a` lands at `<to>/b/c`.
- `update_option` reports `false` when the stored value does not change.

The code has two admin-page classes with the same name. Their functions are modelled in separate modules, `AdminPage` and `LegacyAdminPage`.

The two template checks differ in two ways:

- For ODT, the older page's test also requires `styles.xml`. `LegacyAdminPage.OdtWithoutStyles` exhibits a package that the directory handler accepts and the older test rejects.
- The older page's cleanup compares ages strictly. `LegacyAdminPage.BoundaryAgeContrast` exhibits a file exactly at the age limit: `clean_directory` deletes it, and the older cleanup keeps it.

## Model

| member | source | states |
|---|---|---|
| DirectoryHandler.ValidateDirectoryPath | admin/class-directory-handler.php:61-88 | a path containing `..` is `invalid_path` whatever else holds; otherwise a non-absolute path is `relative_path`; otherwise a path not starting with ABSPATH minus its trailing slash is `outside_wordpress`; it passes exactly when none of these holds |
| DirectoryHandler.ValidateTemplateFile | admin/class-directory-handler.php:233-260 | true exactly when the file opens as an archive that has the required entries of its lower-cased extension: `[Content_Types].xml` and `word/document.xml` for DOCX, `META-INF/manifest.xml` and `content.xml` for ODT; any other extension is false |
| DirectoryHandler.AllLocated | admin/class-directory-handler.php:249-257 | the `locateName` loop succeeds exactly when every required name is an entry of the archive |
| DirectoryHandler.Latest | admin/class-directory-handler.php:177-181 | the latest modification time is at least every file's mtime, and it is 0 or the mtime of some file |
| DirectoryHandler.LookupPresent | admin/class-directory-handler.php:183-187 | in a tally with distinct keys, an extension's count is positive exactly when the extension has an entry |
| DirectoryHandler.Bump | admin/class-directory-handler.php:183-187 | counting one more file of an extension keeps the keys distinct, adds one to that extension's count only, and adds one to the total |
| DirectoryHandler.Tally | admin/class-directory-handler.php:177-189 | the `by_extension` tally has distinct keys, gives every extension the number of files with it, and its counts add up to the number of files |
| DirectoryHandler.GetDirectorySize | admin/class-directory-handler.php:129-149 | `invalid_directory` for a non-directory, otherwise the sum of the regular files' sizes, the same sum `get_directory_stats` reports as `total_size` |
| DirectoryHandler.GetDirectoryStats | admin/class-directory-handler.php:156-192 | `invalid_directory` for a non-directory; otherwise `total_files` counts the regular files, `total_size` sums their sizes, `last_modified` is the largest mtime (0 with no files), and the `by_extension` counts add up to `total_files` |
| DirectoryHandler.TemplateOf | admin/class-directory-handler.php:212-220 | a scanned record's name is the listed name, and its size and time are the file's |
| DirectoryHandler.Collect | admin/class-directory-handler.php:210-222 | each record of one `glob` call comes from a listed name matching the pattern |
| DirectoryHandler.CollectComplete | admin/class-directory-handler.php:210-222 | every listed name matching the pattern has its record |
| DirectoryHandler.GlobbedExtension | admin/class-directory-handler.php:209-219 | a name matched by `*.docx` or `*.odt` has that extension once joined to its directory |
| DirectoryHandler.ScanValidity | admin/class-directory-handler.php:219 | a scanned record's `is_valid` is the structure check for the kind it was globbed as |
| DirectoryHandler.ScanTemplateFiles | admin/class-directory-handler.php:199-226 | `invalid_directory` for a non-directory; otherwise every DOCX record precedes every ODT record, and each record comes from a listed name matching its pattern |
| DirectoryHandler.ScanTemplateFilesRecords | admin/class-directory-handler.php:207-225 | every record has kind docx or odt, its name matches its pattern, its path is the directory joined with its name, and `is_valid` holds exactly when that archive has the required entries |
| DirectoryHandler.ScanTemplateFilesComplete | admin/class-directory-handler.php:207-225 | every listed `*.docx` or `*.odt` name appears in the scan |
| DirectoryHandler.ParseCleanArgs | admin/class-directory-handler.php:268-276 | missing options default to 24 hours, all extensions, keep 5, not recursive; given options are kept |
| DirectoryHandler.MatchedUnfiltered | admin/class-directory-handler.php:296-304 | without an extension filter, every regular file is a candidate of `clean_directory` |
| DirectoryHandler.MatchedSound | admin/class-directory-handler.php:296-304 | every candidate is a regular file of the walk, with that file's path and modification time |
| DirectoryHandler.InsertByAge | admin/class-directory-handler.php:307 | inserting a file into a newest-first list keeps it newest first and adds exactly that file |
| DirectoryHandler.SortNewestFirst | admin/class-directory-handler.php:306-307 | `arsort` yields a newest-first list of the same length and elements |
| DirectoryHandler.SortNewestFirstPermutes | admin/class-directory-handler.php:306-307 | the sort is a permutation: no file is lost or duplicated |
| DirectoryHandler.CountWhereSort | admin/class-directory-handler.php:306-307 | sorting does not change how many files satisfy any condition |
| DirectoryHandler.SortedPositionBelow | admin/class-directory-handler.php:306-312 | in a newest-first list, at least `j+1` files are as new as the file at position `j` |
| DirectoryHandler.SortedPositionAbove | admin/class-directory-handler.php:306-312 | in a newest-first list, at most `j` files are strictly newer than the file at position `j` |
| DirectoryHandler.AfterKeep | admin/class-directory-handler.php:310-312 | with a positive `keep_latest`, the `max(0, n - keep)` oldest files remain, as a suffix of the sorted list; otherwise all remain |
| DirectoryHandler.ProcessOld | admin/class-directory-handler.php:315-327 | deleted, failed and skipped add up to the files processed; `deleted + failed` is the number of `unlink` calls, and `deleted` counts its successes |
| DirectoryHandler.ProcessOldSound | admin/class-directory-handler.php:315-327 | only a file at least `older_than` hours old is handed to `unlink` |
| DirectoryHandler.ProcessOldComplete | admin/class-directory-handler.php:315-327 | every file at least `older_than` hours old is handed to `unlink` |
| DirectoryHandler.AfterKeepSound | admin/class-directory-handler.php:306-327 | in a newest-first list, a path handed to `unlink` after the `keep_latest` slice belongs to an old enough file with more than `keep_latest` files as new as it |
| DirectoryHandler.AfterKeepComplete | admin/class-directory-handler.php:306-327 | in a newest-first list, an old enough file with at least `keep_latest` files strictly newer survives the slice and is handed to `unlink` |
| DirectoryHandler.CleanDirectoryAccounting | admin/class-directory-handler.php:309-333 | `deleted + failed + skipped` equals the matched files minus `keep_latest` (at least 0; all matched when `keep_latest` is not positive), and `failed` is the unlink attempts that did not succeed |
| DirectoryHandler.CleanDirectoryKeepsNewest | admin/class-directory-handler.php:294-322 | a deleted file passed the extension filter, is at least `older_than` hours old, and has more than `keep_latest` matched files at least as new as it, so none of the newest `keep_latest` is deleted |
| DirectoryHandler.CleanDirectoryDeletesOld | admin/class-directory-handler.php:294-322 | a matched file at least `older_than` hours old with at least `keep_latest` matched files strictly newer is always handed to `unlink` |
| DirectoryHandler.CleanDirectory | admin/class-directory-handler.php:278-283 | a non-directory gives `invalid_directory`, and any directory gives a report |
| DirectoryMigration.FilesSplit | admin/class-directory-migration.php:133-150 | every regular file of a tree is either a data file or one of the system files `.htaccess` and `index.php` |
| DirectoryMigration.CountFiles | admin/class-directory-migration.php:133-150 | 0 for a non-directory or a missing setting; otherwise the regular files other than `.htaccess` and `index.php`, never more than all the regular files |
| DirectoryMigration.CheckMigrationNeeded | admin/class-directory-migration.php:103-128 | the `template` change is present exactly when the template directory differs, and the `temp` change exactly when the temporary directory does; each records the old value, the new value and the files at the old location; `has_changes` holds exactly when either differs |
| DirectoryMigration.Successes | admin/class-directory-migration.php:199-203 | the successful copies are at most the copy calls |
| DirectoryMigration.MigrateWalk | admin/class-directory-migration.php:184-205 | only directories (`isDir()`) get a target directory; every other item not named `.htaccess` or `index.php`, special items included, is copied once and either counted as migrated or given one error; items with those names are counted as skipped and never copied; each copy goes to `to` plus the path with every occurrence of `from` removed |
| DirectoryMigration.CopiedSplit | admin/class-directory-migration.php:143-203 | the items handed to `copy` are exactly the files `count_files` counts plus the special items (neither file nor directory) it leaves out |
| DirectoryMigration.MigrateWalkSound | admin/class-directory-migration.php:188-204 | only items of the tree that are not directories and not named like a system file are copied |
| DirectoryMigration.MigrateWalkComplete | admin/class-directory-migration.php:188-204 | every item that is not a directory and not named like a system file is copied to its target |
| DirectoryMigration.MigrateWalkDirs | admin/class-directory-migration.php:188-191 | every directory of the tree has its target directory made |
| DirectoryMigration.MigrateWalkDirsSound | admin/class-directory-migration.php:188-191 | a target directory is made only for a directory of the tree, at that directory's target path |
| DirectoryMigration.MigrateWalkOneFailure | admin/class-directory-migration.php:192-203 | a single copied item whose copy fails gives one `Failed to copy: <relative path>` error and nothing migrated |
| DirectoryMigration.MigrateDirectory | admin/class-directory-migration.php:158-212 | a missing source fails with `Source directory not found: <from>` and copies nothing; otherwise the destination is made first, and migrated plus errors equals the files `count_files` reports for the source plus the special items of the source tree |
| DirectoryMigration.SpecialItemCountedOnlyByMigration | admin/class-directory-migration.php:143-203 | a source holding only a special item at `from + rel` is counted as 0 files, yet its migration is attempted and records the error `Failed to copy: <rel>` when the copy fails |
| DirectoryMigration.BrokenLinkExample | admin/class-directory-migration.php:143-203 | a source `/src` holding only a broken link `/src/x` counts 0 files, while its migration reports `Failed to copy: /x` |
| DirectoryMigration.MigrationTarget | admin/class-directory-migration.php:185-186 | a file at `from + rel` is copied to `to + rel` when `from` is non-empty and does not recur inside `rel` |
| DirectoryMigration.MigrationTargetRepeated | admin/class-directory-migration.php:185-186 | when the source path recurs below itself, every occurrence is removed: `/a/b/a/c` under `/a` goes to `<to>/b/c` |
| DirectoryMigration.MigrateChanged | admin/class-directory-migration.php:250-266 | a directory is migrated exactly when its setting changed, under the key `template` or `temp` |
| DirectoryMigration.MigrationMatchesCheck | admin/class-directory-migration.php:253-266 | given the same filesystem, the migration runs exactly the moves the check reports, and in each the copies plus the errors are the files the check counted plus the special items it did not count |
| SettingsManager.DefaultsUnderUploadBase | includes/class-settings-manager.php:102-111 | both default directories sit directly under the upload base, as `docgen-temp` and `docgen-templates`; the format is `docx`, clean-uninstall is off, and no plugin or module is registered |
| SettingsManager.Init | includes/class-settings-manager.php:130-134 | the defaults are written only when no option is stored; a stored option is kept |
| SettingsManager.UpdateCoreSettings | includes/class-settings-manager.php:150-174 | a rejected validation returns false and changes nothing; otherwise only `core` is replaced, by the validated value, and the result is whether the option changed |
| SettingsManager.EntryOf | includes/class-settings-manager.php:198-203 | the stored plugin entry has `temp_subdir` equal to the slug, and its modules and settings default to empty |
| SettingsManager.RegisterPlugin | includes/class-settings-manager.php:181-212 | an empty slug or a rejected validation returns false and changes nothing; otherwise `plugins[slug]` is set, overwriting any earlier entry, and nothing else changes |
| SettingsManager.RegisterPluginReadBack | includes/class-settings-manager.php:197-203 | after registering, the plugin is registered and reads back its entry, and every other plugin reads back what it did before |
| SettingsManager.GetPluginSettings | includes/class-settings-manager.php:265-274 | an unknown slug hands the empty array to the filter; a known one hands its stored entry |
| SettingsManager.UpdatePluginSettings | includes/class-settings-manager.php:282-291 | an unregistered slug returns false and changes nothing; otherwise only that plugin's `settings` are replaced |
| SettingsManager.UpdatePluginSettingsPreserves | includes/class-settings-manager.php:287-290 | the updated plugin keeps its name, temporary sub-directory and modules, and reads back the new settings |
| SettingsManager.RegisterModule | includes/class-settings-manager.php:220-241 | an empty slug returns false and changes nothing; otherwise the stored `modules[slug]` and the in-memory table are both set, and the rest of the option is unchanged |
| SettingsManager.GetModule | includes/class-settings-manager.php:256-258 | a registered slug gives its module data, and any other slug gives `null` |
| SettingsManager.RegisterModuleGet | includes/class-settings-manager.php:220-258 | after registering a module under a non-empty slug, `get_module` returns it, and other slugs are unaffected |
| ModuleLoader.RegisterModule | includes/class-module-loader.php:107-114 | the file is appended exactly when it exists, and the result says so |
| ModuleLoader.Discovered | includes/class-module-loader.php:127-143 | the registered files are exactly `<modules>/<d>/class-module.php` for the listed directories `d` other than `.` and `..` that hold that file |
| ModuleLoader.DiscoverModules | includes/class-module-loader.php:119-144 | nothing changes without a `modules` directory; otherwise earlier registrations stay first, followed by exactly the module files of the listing |
| ModuleLoader.FirstWithSlug | includes/class-module-loader.php:152-160 | the first position whose slug matches, or none when no module has the slug |
| ModuleLoader.GetModule | includes/class-module-loader.php:152-160 | the instance of the first module with the slug, or `null` when no module has it |
| ModuleLoader.ModuleExistsFirstMatch | includes/class-module-loader.php:168-170 | a module exists exactly when the first module with the slug has an instance |
| ModuleLoader.GetActiveModules | includes/class-module-loader.php:176-183 | the active modules are exactly the modules whose slug is in the active list |
| ModuleLoader.GetActiveModulesAppend | includes/class-module-loader.php:176-183 | the filter keeps list order |
| ModuleLoader.ActivateModule | includes/class-module-loader.php:191-203 | an unknown module returns false and leaves the list alone; a known one is appended only when not already active, so the list never gains a duplicate |
| ModuleLoader.IndexOf | includes/class-module-loader.php:213 | `array_search` finds the first position holding exactly the slug, or nothing when it is absent |
| ModuleLoader.DeactivateModule | includes/class-module-loader.php:211-219 | an absent slug returns false and leaves the list alone; otherwise its first occurrence is removed and the list closes up; in a duplicate-free list the slug is then gone |
| ModuleLoader.DeactivateUndoesActivate | includes/class-module-loader.php:191-219 | deactivating a module just activated restores the list |
| CompanyProfile.CompleteAddressLines | modules/company-profile/includes/class-provider.php:79-86 | for fields without newlines, the address layout has exactly three lines: the street, then `city, province postal_code`, then the country |
| CompanyProfile.Bullet | modules/company-profile/includes/class-provider.php:139-141 | a bullet line starts with `• ` and adds no newline |
| CompanyProfile.FormatBulletPoints | modules/company-profile/includes/class-provider.php:134-142 | a non-array or an empty array gives the empty string |
| CompanyProfile.FormatBulletPointsLines | modules/company-profile/includes/class-provider.php:139-141 | n newline-free items give exactly n lines, line i being `• ` plus the trimmed item i |
| CompanyProfile.CertLine | modules/company-profile/includes/class-provider.php:153-158 | a certificate line starts with the bullet |
| CompanyProfile.FormatCertifications | modules/company-profile/includes/class-provider.php:148-161 | missing or non-array certifications, or none, give the empty string |
| CompanyProfile.FormatCertificationsLines | modules/company-profile/includes/class-provider.php:153-160 | one line per certificate, each `• name - description (Valid until: ${tanggal:valid_until:j F Y})` |
| CompanyProfile.GetData | modules/company-profile/includes/class-provider.php:60-127 | empty data gives the empty array; otherwise plain fields are copied, the address is laid out, the lists become bullets, and the dates become `${tanggal:…}` placeholders |
| CompanyProfile.OutputFilename | modules/company-profile/includes/class-provider.php:175-181 | `company-profile-<date>` without data, and the sanitized company name, a dash, then that, with data |
| CompanyProfile.OutputFilenameSuffix | modules/company-profile/includes/class-provider.php:175-181 | whatever the data, the file name ends with `company-profile-<date>` |
| PluginBootstrap.AutoloadFileName | docgen-implementation.php:39-54 | a class not starting with `DocGen_Implementation_` is ignored; otherwise the file name starts with `class-`, ends with `.php`, and has no underscore and no upper-case letter |
| PluginBootstrap.AutoloadFileNameOfSuffix | docgen-implementation.php:49-54 | for the prefix followed by a remainder free of it, the file name is `class-` plus the lower-cased remainder with dashes for underscores plus `.php` |
| PluginBootstrap.AutoloadFileNameStripsAll | docgen-implementation.php:44-54 | for the prefix followed by any remainder, the file name is built from the remainder with every further occurrence of the prefix removed |
| PluginBootstrap.AutoloadRecurring | docgen-implementation.php:44-54 | two underscore-free words with the prefix repeated between them map to the file of the two words joined by a dash |
| PluginBootstrap.AutoloadRecurringPrefix | docgen-implementation.php:44-54 | `DocGen_Implementation_Foo_DocGen_Implementation_Bar` is looked for as `class-foo-bar.php` |
| PluginBootstrap.DashedPair | docgen-implementation.php:53 | two words joined by one underscore come out joined by one dash |
| PluginBootstrap.AutoloadAdminPage | docgen-implementation.php:39-54 | `DocGen_Implementation_Admin_Page` is looked up as `class-admin-page.php` |
| PluginBootstrap.FirstExisting | docgen-implementation.php:64-69 | the first existing candidate is loaded and no earlier one exists; nothing is loaded when none exists |
| PluginBootstrap.Autoload | docgen-implementation.php:39-70 | only prefixed classes load; a loaded file exists and is one of the `admin/`, `includes/`, `modules/` candidates; an existing `admin/` file wins |
| PluginBootstrap.ActivationDefaults | docgen-implementation.php:126-147 | the default temporary directory is `docgen-temp` under the upload base, the template directory is `docgen-templates` under the content directory, the format is `docx`, and debug is off |
| PluginBootstrap.ActivateSettings | docgen-implementation.php:149-151 | the defaults are added only when no option is stored |
| AdminPage.ShouldEnqueue | admin/class-admin-page.php:45-51 | the page's assets are enqueued exactly when the page slug occurs in the hook name |
| AdminPage.ContentBaseDir | admin/class-admin-page.php:74-76 | the content base ends in exactly one slash, is the content directory without its trailing slashes plus one, and is unchanged by another `trailingslashit` |
| AdminPage.ValidateDirectoryName | admin/class-admin-page.php:83-95 | an accepted name is `basename(sanitize(name))` and is a single component that is neither empty nor `0` and contains no `..`; a rejected one is `invalid_directory` and fails one of those |
| AdminPage.ValidateDirectoryNameAcceptsPlain | admin/class-admin-page.php:83-95 | a sanitized name that is already a single component, non-empty and free of `..` is accepted unchanged |
| AdminPage.ValidateDirectoryNameIsOneLevel | admin/class-admin-page.php:83-95 | an accepted name placed under any directory is the base name of the result |
| SettingsPage.ValidateAndSaveSettings | admin/class-settings-page.php:249-275 | an invalid temporary or template folder name returns `invalid_directory` and stores nothing; otherwise the temporary directory is the folder under the upload base, the template directory is the folder under the content directory, the format defaults to `docx`, debug holds exactly when the field is present, and the settings are stored |
| SettingsPage.SavedFoldersAreChildren | admin/class-settings-page.php:266-268 | the stored directories' base names are the validated folder names |
| SettingsPage.TemplateDirSingleSlash | admin/class-settings-page.php:268 | `trailingslashit` on the content base adds no second slash: the template folder follows the content directory after exactly one slash |
| SettingsPage.HandleSubmissions | admin/class-settings-page.php:220-242 | without the nonce field nothing happens and the result is false; a bad nonce ends the request; settings are saved exactly when the nonce is present and valid and both names pass; nothing is stored otherwise |
| SettingsPage.ValidCount | admin/class-settings-page.php:186-187 | `valid_count` is at most `template_count`; it equals it exactly when every template is valid, and it is 0 exactly when none is |
| SettingsPage.ValidCountAppend | admin/class-settings-page.php:187 | valid templates are counted additively over the DOCX and ODT parts of a scan |
| LegacyAdminPage.FirstMissing | admin/__class-admin-page.php:173-182 | the reported entry is the first required one missing from the archive, and none is reported exactly when all are present |
| LegacyAdminPage.TestArchive | admin/__class-admin-page.php:160-244 | the archive test passes exactly when the archive opens, has every tested entry, and its main document parses as XML; an unopenable file is reported with its format; a reported missing entry is one of the tested entries and absent |
| LegacyAdminPage.TestTemplate | admin/__class-admin-page.php:119-138 | a missing file is `not found`; a lower-cased extension other than `docx` or `odt` is rejected; a success reports that extension, exactly when the archive test for it passes |
| LegacyAdminPage.TestTemplateStricter | admin/__class-admin-page.php:168-227 | a template passing the older test also passes the directory handler's structure check |
| LegacyAdminPage.OdtWithoutStyles | admin/__class-admin-page.php:212-227 | an ODT package with a manifest and content but no `styles.xml` passes the directory handler's check and fails the older test on `styles.xml` |
| LegacyAdminPage.DocxTestAgrees | admin/__class-admin-page.php:168-199 | for DOCX files whose document part parses as XML, the two checks agree |
| LegacyAdminPage.SaveSettings | admin/__class-admin-page.php:384-401 | both folders are placed under `<content dir>/docgen-templates/` as the base name of the sanitized field; the format defaults to `docx`; debug holds exactly when the field is present |
| LegacyAdminPage.SaveSettingsDefaults | admin/__class-admin-page.php:390-398 | with both fields absent, the folders are `docgen-temp` and `docgen-templates` under that directory |
| LegacyAdminPage.CreateSecureTempDir | admin/__class-admin-page.php:420-461 | an existing directory is returned untouched; a failed creation writes nothing; on success, a new directory receives `.htaccess` then `index.php`; any file written is a system file |
| LegacyAdminPage.ValidateTempDir | admin/__class-admin-page.php:504-524 | an empty or `..`-containing sanitized base name is `invalid_temp_dir` and nothing is created; a valid one is created under the upload base |
| LegacyAdminPage.ValidateTempDirAgreesWithAdminPage | admin/__class-admin-page.php:504-515 | the older temporary-directory check accepts exactly the names the current directory-name check accepts |
| LegacyAdminPage.ExpiredPaths | admin/__class-admin-page.php:478-488 | every regular file strictly older than the limit is unlinked, except `.htaccess` and `index.php`, which never are |
| LegacyAdminPage.ExpiredPathsSound | admin/__class-admin-page.php:478-488 | each unlinked path is a listed regular file strictly older than the limit |
| LegacyAdminPage.CleanupTempFiles | admin/__class-admin-page.php:467-489 | nothing is deleted without a stored, non-empty temporary directory that exists; the system files are never deleted; every other expired file is |
| LegacyAdminPage.BoundaryAgeContrast | admin/__class-admin-page.php:485-487 | a file exactly at the age limit is deleted by `clean_directory` with nothing protected, and kept by the older cleanup |

## Left out

- Request plumbing is not modelled. This covers the AJAX handlers, nonce and capability checks, `wp_send_json_*`, the settings, dashboard and menu rendering, and the view templates. `ajax_migrate_files` is modelled through `DirectoryMigration.MigrateChanged`, and the scan response's counts through `SettingsPage.ValidCount`.
- SettingsPage.HandleSubmissions: `check_admin_referer` ends the request itself when the nonce is bad. The `invalid_nonce` error written after it therefore cannot be returned, and the model has no such outcome.
- Real filesystem effects are parameters whose results are taken as given: `wp_mkdir_p`, `chmod`, `copy`, `unlink`, `file_put_contents`, `disk_free_space` and `is_writable`.
- `create_directory` of the directory handler (admin/class-directory-handler.php:96-122) only creates a directory and an `index.php`, with no decision beyond what `validate_directory_path` already makes.
- The activation hook (docgen-implementation.php:132-139) calls `create_secure_directory` on the directory handler, but that class defines no such method. PHP would stop with a fatal error before the defaults are added, so only the defaults step is modelled.
- The handler's constructor hooks a `cleanup_temp_files` method the handler class does not define. The only cleanup modelled is the older admin page's.
- There are two option shapes. The settings manager writes a nested option (`core`, `plugins`, `modules`). The activation hook, the settings page and the migration read and write flat keys (`temp_dir`, `template_dir`). The model gives each its own shape and does not model their interaction.
- DirectoryMigration.MigrationMatchesCheck: the check and the migration run in separate AJAX requests. The model gives both the same filesystem, so the count it relates them by holds only if nothing changes in between.
- DirectoryMigration.MigrateDirectory: exceptions thrown by the directory iterator are not modelled. A readable tree is assumed, so `success` stays true whenever the source exists.
- DirectoryHandler.CleanDirectory: the extension filter uses exact string equality. PHP's loose `in_array` would also equate numeric-looking strings such as `"1e1"` and `"10"`.
- ModuleLoader.ActivateModule: the check for an already active slug uses exact equality, where PHP's `in_array` is loose.
- ModuleLoader.IndexOf: `array_search` compares loosely, so in PHP 8 the slug `"10"` would also find `"1e1"`. The model compares exactly.
- ModuleLoader.DeactivateModule: the removed position is found by the loose `array_search`, and the model finds it by exact equality.
- ModuleLoader.GetActiveModules: membership in the active list uses exact equality, where PHP's `in_array` is loose.
- ModuleLoader.GetActiveModules returns a reindexed list. PHP's `array_filter` keeps the original keys; the order is the same.
- SettingsManager.Init: any stored option counts as present. PHP's `!get_option(...)` also treats a stored empty array or empty string as absent.
- PluginBootstrap.ActivateSettings: any stored option counts as present. PHP's `!get_option(...)` also treats a stored empty array or empty string as absent.
- CompanyProfile.GetData: decoding the JSON file (`load_data`) is not modelled. The decoded record is an argument, with `None` for the empty array kept when the file is missing or does not decode. Fields missing from the JSON are not modelled.
- The provider getters `get_template_path`, `get_output_format` and `get_temp_dir` only read settings and are left out.
- LegacyAdminPage.TestArchive: the archive is a map from entry names to contents, so reading a located entry cannot fail. The `Could not read document content` branch is never taken. XML well-formedness is the parameter `isXml`.
- LegacyAdminPage.TestTemplate: the size and modification time in the success response are formatting only and are left out.
- `get_default_temp_folder` in the older admin page depends only on the site id and is used nowhere. It is left out.
- PHP strings are byte strings, and the model's strings are sequences of characters. Lengths and indices count characters: the bullet `• ` has length 2 here and 4 bytes in PHP. The needles searched for, the trimmed characters and the case mapping are all ASCII, so `strpos`, `trim` and `strtolower` give the same results.
- DirectoryHandler.GlobMatches: `glob` is modelled only for the patterns `*.docx` and `*.odt`. It matches case-sensitively and skips names that start with a dot.
- DirectoryHandler.Collect: the records follow the order of the directory listing passed in. PHP's `glob` sorts its matches by name, and the model does not, so within one kind the scan's order may differ.
- DirectoryHandler.ScanTemplateFiles: DOCX records precede ODT records as in PHP, but within each kind the order is that of the listing, not `glob`'s sorted order.
- The sanitizers (`sanitize_file_name`, `sanitize_text_field`, `sanitize_title`) and the validation filters are arbitrary functions. No property of theirs is assumed.
