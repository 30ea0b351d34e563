/**
 * The directory migration of the admin area (admin/class-directory-migration.php):
 * deciding which of the two plugin directories changed, counting the files a
 * move would carry, and copying the files of one directory tree into another.
 *
 * The filesystem is the function `fs` from a path to the walk of the
 * directory there (`None` when `is_dir` is false); `copy` says whether
 * `@copy(source, target)` succeeds. The stored option is a map because a key
 * the form expects may be missing from it, which PHP reads as `null`.
 */
module DirectoryMigration {
  import opened Results
  import opened PhpStrings
  import opened Files
  import DirectoryHandler

  /** The two keys of the stored option the migration compares. */
  const TemplateKey := "template_dir"
  const TempKey := "temp_dir"

  /** `$array[$key]`, with `None` for the `null` PHP reads for a missing key. */
  function Get(m: map<string, string>, key: string): (r: Option<string>)
    ensures r.Some? <==> key in m
    ensures r.Some? ==> r.value == m[key]
  {
    if key in m then Some(m[key]) else None
  }

  // ---------------------------------------------------------------------------
  // count_files
  // ---------------------------------------------------------------------------

  /** Whether an item of a walk is a data file: a regular file other than the two system files. */
  predicate IsDataFile(e: Entry) {
    e.isFile && !IsSystemFile(e.path)
  }

  /** The data files of a walk. */
  function DataFiles(walk: seq<Entry>): nat {
    if |walk| == 0 then 0
    else DataFiles(walk[..|walk| - 1]) + (if IsDataFile(walk[|walk| - 1]) then 1 else 0)
  }

  /** The system files of a walk. */
  function SystemFiles(walk: seq<Entry>): nat {
    if |walk| == 0 then 0
    else SystemFiles(walk[..|walk| - 1]) + (if walk[|walk| - 1].isFile && IsSystemFile(walk[|walk| - 1].path) then 1 else 0)
  }

  /**
   * Whether `migrate_directory` hands an item of a walk to `@copy`: anything
   * that is not a directory and is not named like a system file, so a broken
   * link, a FIFO or a socket is copied too.
   */
  predicate IsCopied(e: Entry) {
    !e.isDir && !IsSystemFile(e.path)
  }

  /** Items `migrate_directory` hands to `@copy`. */
  function CopiedItems(walk: seq<Entry>): nat {
    if |walk| == 0 then 0
    else CopiedItems(walk[..|walk| - 1]) + (if IsCopied(walk[|walk| - 1]) then 1 else 0)
  }

  /** Items `migrate_directory` skips: non-directories named like a system file. */
  function SkippedItems(walk: seq<Entry>): nat {
    if |walk| == 0 then 0
    else SkippedItems(walk[..|walk| - 1]) + (if !walk[|walk| - 1].isDir && IsSystemFile(walk[|walk| - 1].path) then 1 else 0)
  }

  /** Items that are neither regular files nor directories and are not named like a system file. */
  function SpecialItems(walk: seq<Entry>): nat {
    if |walk| == 0 then 0
    else SpecialItems(walk[..|walk| - 1]) + (if walk[|walk| - 1].kind == Special && !IsSystemFile(walk[|walk| - 1].path) then 1 else 0)
  }

  /** The items handed to `@copy` are the data files `count_files` counts plus the special items it leaves out. */
  lemma {:induction false} CopiedSplit(walk: seq<Entry>)
    ensures CopiedItems(walk) == DataFiles(walk) + SpecialItems(walk)
  {
    if |walk| > 0 {
      CopiedSplit(walk[..|walk| - 1]);
    }
  }

  /** Every regular file of a walk is either a data file or a system file. */
  lemma {:induction false} FilesSplit(walk: seq<Entry>)
    ensures DataFiles(walk) + SystemFiles(walk) == DirectoryHandler.FileCount(walk)
  {
    if |walk| > 0 {
      FilesSplit(walk[..|walk| - 1]);
    }
  }

  /** `count_files`: 0 for a path that is not a directory (or `null`), otherwise its data files. */
  function CountFiles(dir: Option<string>, fs: string -> Option<seq<Entry>>): (n: nat)
    ensures dir.None? || fs(dir.value).None? ==> n == 0
    ensures dir.Some? && fs(dir.value).Some? ==> n == DataFiles(fs(dir.value).value)
    ensures dir.Some? && fs(dir.value).Some? ==> n <= DirectoryHandler.FileCount(fs(dir.value).value)
  {
    match dir
    case None => 0
    case Some(d) =>
      match fs(d)
      case None => 0
      case Some(walk) =>
        FilesSplit(walk);
        DataFiles(walk)
  }

  // ---------------------------------------------------------------------------
  // check_migration_needed
  // ---------------------------------------------------------------------------

  /** One entry of the `changes` array: the old and new directory and the files at the old one. */
  datatype Change = Change(from: Option<string>, to: string, files: nat)

  /** The array `check_migration_needed` returns. */
  datatype MigrationCheck = MigrationCheck(hasChanges: bool, changes: map<string, Change>)

  /** The change recorded under `key` when the stored directory differs from the new one. */
  function ChangeOf(stored: map<string, string>, setting: string, newDir: string, fs: string -> Option<seq<Entry>>): Change {
    Change(Get(stored, setting), newDir, CountFiles(Get(stored, setting), fs))
  }

  /**
   * `check_migration_needed`: a `template` change when the template
   * directory differs (strictly) from the stored one, a `temp` change when
   * the temporary directory does, each with the data files at the old
   * location.
   */
  function CheckMigrationNeeded(stored: map<string, string>, newTemplate: string, newTemp: string, fs: string -> Option<seq<Entry>>): (r: MigrationCheck)
    ensures "template" in r.changes <==> Get(stored, TemplateKey) != Some(newTemplate)
    ensures "temp" in r.changes <==> Get(stored, TempKey) != Some(newTemp)
    ensures forall k :: k in r.changes ==> k == "template" || k == "temp"
    ensures "template" in r.changes ==>
      r.changes["template"].from == Get(stored, TemplateKey) && r.changes["template"].to == newTemplate &&
      r.changes["template"].files == CountFiles(Get(stored, TemplateKey), fs)
    ensures "temp" in r.changes ==>
      r.changes["temp"].from == Get(stored, TempKey) && r.changes["temp"].to == newTemp &&
      r.changes["temp"].files == CountFiles(Get(stored, TempKey), fs)
    ensures r.hasChanges <==> Get(stored, TemplateKey) != Some(newTemplate) || Get(stored, TempKey) != Some(newTemp)
  {
    var c1: map<string, Change> := if Get(stored, TemplateKey) != Some(newTemplate) then map["template" := ChangeOf(stored, TemplateKey, newTemplate, fs)] else map[];
    var c2 := if Get(stored, TempKey) != Some(newTemp) then c1["temp" := ChangeOf(stored, TempKey, newTemp, fs)] else c1;
    assert "template" in c2 ==> "template" in c1;
    MigrationCheck(|c2| > 0, c2)
  }

  // ---------------------------------------------------------------------------
  // migrate_directory
  // ---------------------------------------------------------------------------

  /** One `@copy` call: the source path and its target. */
  datatype CopyOp = CopyOp(source: string, target: string)

  /**
   * The array `migrate_directory` returns when the source exists, with the
   * `copy` calls made and the target directories made to exist, in order.
   */
  datatype MigrationReport = MigrationReport(migrated: nat, skipped: nat, errors: seq<string>, copies: seq<CopyOp>, dirs: seq<string>)

  /** `migrate_directory`'s result: the failure array, or the report (`success` stays true). */
  datatype MigrationOutcome = SourceMissing(message: string) | Migrated(report: MigrationReport)

  /** `$to . str_replace($from, '', $pathname)`: every occurrence of `from` is removed from the path. */
  function TargetOf(path: string, from: string, to: string): string {
    to + Replace(path, from, "")
  }

  /** Number of copy calls that succeed. */
  function Successes(ops: seq<CopyOp>, copy: (string, string) -> bool): (n: nat)
    ensures n <= |ops|
  {
    if |ops| == 0 then 0
    else Successes(ops[..|ops| - 1], copy) + (if copy(ops[|ops| - 1].source, ops[|ops| - 1].target) then 1 else 0)
  }

  /**
   * The loop of `migrate_directory` over a `SELF_FIRST` walk: a directory's
   * target is made to exist; any other item named like a system file is
   * skipped; any other item is copied to its target, counting a success or
   * recording `Failed to copy: <relative path>`.
   */
  function MigrateWalk(walk: seq<Entry>, from: string, to: string, copy: (string, string) -> bool): (r: MigrationReport)
    ensures |r.copies| == r.migrated + |r.errors| == CopiedItems(walk)
    ensures r.skipped == SkippedItems(walk)
    ensures r.migrated == Successes(r.copies, copy)
    ensures forall k :: 0 <= k < |r.copies| ==> r.copies[k].target == TargetOf(r.copies[k].source, from, to)
    ensures forall k :: 0 <= k < |r.copies| ==> !IsSystemFile(r.copies[k].source)
  {
    if |walk| == 0 then MigrationReport(0, 0, [], [], [])
    else
      var init := walk[..|walk| - 1];
      var e := walk[|walk| - 1];
      var r := MigrateWalk(init, from, to, copy);
      assert forall i :: 0 <= i < |init| ==> walk[i] == init[i];
      var target := TargetOf(e.path, from, to);
      if e.isDir then r.(dirs := r.dirs + [target])
      else if IsSystemFile(e.path) then r.(skipped := r.skipped + 1)
      else
        var op := CopyOp(e.path, target);
        var copies := r.copies + [op];
        assert copies[..|copies| - 1] == r.copies;
        if copy(e.path, target) then r.(migrated := r.migrated + 1, copies := copies)
        else r.(errors := r.errors + ["Failed to copy: " + Replace(e.path, from, "")], copies := copies)
  }

  /** Only items of the walk that are not directories and not system files are copied. */
  lemma {:induction false} MigrateWalkSound(walk: seq<Entry>, from: string, to: string, copy: (string, string) -> bool, op: CopyOp)
    requires op in MigrateWalk(walk, from, to, copy).copies
    ensures exists i :: 0 <= i < |walk| && IsCopied(walk[i]) && walk[i].path == op.source
  {
    var init := walk[..|walk| - 1];
    var e := walk[|walk| - 1];
    if op in MigrateWalk(init, from, to, copy).copies {
      MigrateWalkSound(init, from, to, copy, op);
      var i :| 0 <= i < |init| && IsCopied(init[i]) && init[i].path == op.source;
      assert walk[i] == init[i];
    } else {
      assert op.source == e.path;
    }
  }

  /** Every data file of the walk, and every special item not named like a system file, is copied to its target. */
  lemma {:induction false} MigrateWalkComplete(walk: seq<Entry>, from: string, to: string, copy: (string, string) -> bool, i: nat)
    requires i < |walk| && IsCopied(walk[i])
    ensures CopyOp(walk[i].path, TargetOf(walk[i].path, from, to)) in MigrateWalk(walk, from, to, copy).copies
  {
    var init := walk[..|walk| - 1];
    if i < |init| {
      assert init[i] == walk[i];
      MigrateWalkComplete(init, from, to, copy, i);
    }
  }

  /** Every directory of the walk has its target made to exist. */
  lemma {:induction false} MigrateWalkDirs(walk: seq<Entry>, from: string, to: string, copy: (string, string) -> bool, i: nat)
    requires i < |walk| && walk[i].isDir
    ensures TargetOf(walk[i].path, from, to) in MigrateWalk(walk, from, to, copy).dirs
  {
    var init := walk[..|walk| - 1];
    if i < |init| {
      assert init[i] == walk[i];
      MigrateWalkDirs(init, from, to, copy, i);
    }
  }

  /** Only directories of the walk have a target directory made. */
  lemma {:induction false} MigrateWalkDirsSound(walk: seq<Entry>, from: string, to: string, copy: (string, string) -> bool, d: string)
    requires d in MigrateWalk(walk, from, to, copy).dirs
    ensures exists i :: 0 <= i < |walk| && walk[i].isDir && d == TargetOf(walk[i].path, from, to)
  {
    var init := walk[..|walk| - 1];
    var e := walk[|walk| - 1];
    if d in MigrateWalk(init, from, to, copy).dirs {
      MigrateWalkDirsSound(init, from, to, copy, d);
      var i :| 0 <= i < |init| && init[i].isDir && d == TargetOf(init[i].path, from, to);
      assert walk[i] == init[i];
    } else {
      assert e.isDir && d == TargetOf(e.path, from, to);
    }
  }

  /**
   * `migrate_directory`: a source that is not a directory (or is `null`)
   * gives the failure message naming it; otherwise the destination is made
   * to exist and the walk is migrated.
   */
  function MigrateDirectory(from: Option<string>, to: string, fs: string -> Option<seq<Entry>>, copy: (string, string) -> bool): (r: MigrationOutcome)
    ensures (from.None? || fs(from.value).None?) <==> r.SourceMissing?
    ensures r.SourceMissing? ==> r.message == "Source directory not found: " + from.GetOr("")
    ensures r.Migrated? ==> |r.report.dirs| > 0 && r.report.dirs[0] == to
    ensures r.Migrated? ==> r.report.migrated + |r.report.errors| == CountFiles(from, fs) + SpecialItems(fs(from.value).value)
  {
    match from
    case None => SourceMissing("Source directory not found: ")
    case Some(f) =>
      match fs(f)
      case None => SourceMissing("Source directory not found: " + f)
      case Some(walk) =>
        var rep := MigrateWalk(walk, f, to, copy);
        CopiedSplit(walk);
        Migrated(rep.(dirs := [to] + rep.dirs))
  }

  /** A walk of one item that is copied and fails: one error naming its relative path, nothing counted as migrated. */
  lemma MigrateWalkOneFailure(e: Entry, from: string, to: string, copy: (string, string) -> bool)
    requires IsCopied(e) && !copy(e.path, TargetOf(e.path, from, to))
    ensures MigrateWalk([e], from, to, copy).migrated == 0
    ensures MigrateWalk([e], from, to, copy).errors == ["Failed to copy: " + Replace(e.path, from, "")]
  {
    assert [e][..0] == [];
  }

  /**
   * A special item is not counted but is copied: for a source holding only
   * one special item (a broken link, say) at relative path `rel`,
   * `count_files` reports 0 while the migration records one failed copy.
   */
  lemma SpecialItemCountedOnlyByMigration(from: string, to: string, rel: string, e: Entry,
                                          fs: string -> Option<seq<Entry>>, copy: (string, string) -> bool)
    requires e.kind == Special && e.path == from + rel && !IsSystemFile(e.path)
    requires |from| > 0 && forall j: nat :: !OccursAt(rel, from, j)
    requires fs(from) == Some([e]) && !copy(e.path, to + rel)
    ensures CountFiles(Some(from), fs) == 0
    ensures MigrateDirectory(Some(from), to, fs, copy).Migrated?
    ensures MigrateDirectory(Some(from), to, fs, copy).report.errors == ["Failed to copy: " + rel]
  {
    ReplacePrefix(from, rel, "");
    ReplaceAbsent(rel, from, "");
    assert "" + rel == rel;
    assert Replace(e.path, from, "") == rel;
    assert TargetOf(e.path, from, to) == to + rel;
    MigrateWalkOneFailure(e, from, to, copy);
    var rep := MigrateWalk([e], from, to, copy);
    assert MigrateDirectory(Some(from), to, fs, copy) == Migrated(rep.(dirs := [to] + rep.dirs));
    assert [e][..0] == [];
  }

  /** The base name of `/src/x`, and `/src` does not occur in `/x`. */
  lemma SourceItemFacts()
    ensures Basename("/src/x") == "x"
    ensures forall j: nat :: !OccursAt("/x", "/src", j)
  {
    BasenameOfChild("/src", "x");
  }

  /** `/src/x`, a special item alone under `/src`, counts as 0 files and fails to copy as `/x`. */
  lemma BrokenLinkExample(fs: string -> Option<seq<Entry>>, copy: (string, string) -> bool)
    requires fs("/src") == Some([Entry("/src/x", Special, 0, 0)])
    requires !copy("/src/x", "/dst" + "/x")
    ensures CountFiles(Some("/src"), fs) == 0
    ensures MigrateDirectory(Some("/src"), "/dst", fs, copy).report.errors == ["Failed to copy: " + "/x"]
  {
    SourceItemFacts();
    assert "/src/x" == "/src" + "/x";
    SpecialItemCountedOnlyByMigration("/src", "/dst", "/x", Entry("/src/x", Special, 0, 0), fs, copy);
  }

  /**
   * A file under the source at relative path `rel` lands at `to + rel`
   * provided `from` is not empty and does not occur again inside `rel`.
   */
  lemma MigrationTarget(from: string, to: string, rel: string)
    requires |from| > 0
    requires forall j: nat :: !OccursAt(rel, from, j)
    ensures TargetOf(from + rel, from, to) == to + rel
  {
    ReplacePrefix(from, rel, "");
    ReplaceAbsent(rel, from, "");
  }

  /**
   * When the source path occurs again below the source, every occurrence is
   * removed: the file `/a/b/a/c` under `/a` is copied to `<to>/b/c`, not to
   * `<to>/b/a/c`.
   */
  lemma MigrationTargetRepeated(to: string)
    ensures TargetOf("/a/b/a/c", "/a", to) == to + "/b/c"
  {
    var f := "/a";
    assert Replace("", f, "") == "";
    assert Replace("c", f, "") == "c";
    assert "/c"[1] != f[1];
    assert Replace("/c", f, "") == "/c";
    assert "/a/c"[..2] == f && "/a/c"[2..] == "/c";
    assert Replace("/a/c", f, "") == "/c";
    assert "b/a/c"[1..] == "/a/c";
    assert Replace("b/a/c", f, "") == "b/c";
    assert "/b/a/c"[1] != f[1] && "/b/a/c"[1..] == "b/a/c";
    assert Replace("/b/a/c", f, "") == "/b/c";
    assert "/a/b/a/c"[..2] == f && "/a/b/a/c"[2..] == "/b/a/c";
  }

  // ---------------------------------------------------------------------------
  // ajax_migrate_files
  // ---------------------------------------------------------------------------

  /**
   * `ajax_migrate_files` after its nonce and capability checks: each
   * directory that differs from the stored one is migrated under the key
   * the check uses for it.
   */
  function MigrateChanged(stored: map<string, string>, newTemplate: string, newTemp: string,
                          fs: string -> Option<seq<Entry>>, copy: (string, string) -> bool): (r: map<string, MigrationOutcome>)
    ensures forall k :: k in r ==> k == "template" || k == "temp"
    ensures "template" in r <==> Get(stored, TemplateKey) != Some(newTemplate)
    ensures "temp" in r <==> Get(stored, TempKey) != Some(newTemp)
    ensures "template" in r ==> r["template"] == MigrateDirectory(Get(stored, TemplateKey), newTemplate, fs, copy)
    ensures "temp" in r ==> r["temp"] == MigrateDirectory(Get(stored, TempKey), newTemp, fs, copy)
  {
    var r1: map<string, MigrationOutcome> := if Get(stored, TemplateKey) != Some(newTemplate) then map["template" := MigrateDirectory(Get(stored, TemplateKey), newTemplate, fs, copy)] else map[];
    var r2 := if Get(stored, TempKey) != Some(newTemp) then r1["temp" := MigrateDirectory(Get(stored, TempKey), newTemp, fs, copy)] else r1;
    assert "template" in r2 ==> "template" in r1;
    r2
  }

  /**
   * The migration does exactly the moves the check announces, and for each
   * one the copies made plus the copy errors are the files the check
   * counted plus the special items (broken links, FIFOs, sockets) it did
   * not count, provided both run against the same filesystem.
   */
  lemma MigrationMatchesCheck(stored: map<string, string>, newTemplate: string, newTemp: string,
                              fs: string -> Option<seq<Entry>>, copy: (string, string) -> bool)
    ensures MigrateChanged(stored, newTemplate, newTemp, fs, copy).Keys == CheckMigrationNeeded(stored, newTemplate, newTemp, fs).changes.Keys
    ensures forall k :: k in MigrateChanged(stored, newTemplate, newTemp, fs, copy) && MigrateChanged(stored, newTemplate, newTemp, fs, copy)[k].Migrated? ==>
      var rep := MigrateChanged(stored, newTemplate, newTemp, fs, copy)[k].report;
      rep.migrated + |rep.errors| == CheckMigrationNeeded(stored, newTemplate, newTemp, fs).changes[k].files +
        SpecialItems(fs(CheckMigrationNeeded(stored, newTemplate, newTemp, fs).changes[k].from.value).value)
  {
    var r := MigrateChanged(stored, newTemplate, newTemp, fs, copy);
    var c := CheckMigrationNeeded(stored, newTemplate, newTemp, fs);
    assert r.Keys == c.changes.Keys;
  }
}
