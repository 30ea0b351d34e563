/**
 * The abstract filesystem the plugin's PHP code inspects through
 * `RecursiveDirectoryIterator`, `glob`, `filesize`, `filemtime` and
 * `ZipArchive`. Nothing here touches a disk: a directory walk is the sequence
 * of items the iterator yields, in iteration order, and a ZIP archive is the
 * map from entry names to entry contents.
 */
module Files {
  import opened PhpStrings

  /**
   * What `SplFileInfo` reports an item to be: `isFile()`, `isDir()`, or
   * neither (a broken symbolic link, a FIFO, a socket).
   */
  datatype Kind = RegularFile | Directory | Special

  /** One item yielded by a recursive directory walk: its full path, its kind, its size in bytes and its modification time (Unix seconds). */
  datatype Entry = Entry(path: string, kind: Kind, size: nat, mtime: int) {
    const isFile: bool := kind == RegularFile
    const isDir: bool := kind == Directory
  }

  /** One name listed directly inside a directory (what `glob` matches against). */
  datatype Child = Child(name: string, size: nat, mtime: int)

  /** A ZIP archive: entry name to entry content. `locateName` is key membership. */
  type Archive = map<string, string>

  /** The two files the plugin drops into its directories and never treats as data. */
  predicate IsSystemFile(path: string) {
    Basename(path) == ".htaccess" || Basename(path) == "index.php"
  }

  /** A directory listing as the filesystem produces it: names are non-empty single components. */
  predicate WellFormedListing(children: seq<Child>) {
    forall i :: 0 <= i < |children| ==> |children[i].name| > 0 && '/' !in children[i].name
  }
}
