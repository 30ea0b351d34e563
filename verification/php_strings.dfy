/**
 * The PHP and WordPress string primitives the plugin relies on, given the
 * meaning they have in PHP 8 on a Unix host: `strpos`, `str_replace` with one
 * search string, `strtolower`, `trim`, `implode`/`explode` on one character,
 * `basename`, the extension part of `pathinfo`, `trailingslashit` and
 * `untrailingslashit`, and the string case of `empty()`.
 */
module PhpStrings {
  import opened Results

  // ---------------------------------------------------------------------------
  // Searching
  // ---------------------------------------------------------------------------

  /** `t` occurs in `s` at index `i`. */
  predicate OccursAt(s: string, t: string, i: nat) {
    i + |t| <= |s| && s[i..i + |t|] == t
  }

  /** `t` is a substring of `s`. */
  ghost predicate Contains(s: string, t: string) {
    exists i: nat :: OccursAt(s, t, i)
  }

  lemma OccursAtStart(s: string, t: string)
    ensures OccursAt(s, t, 0) <==> t <= s
  {
  }

  lemma OccursShift(s: string, t: string)
    requires |s| > 0
    ensures forall j: nat :: j > 0 ==> (OccursAt(s, t, j) <==> OccursAt(s[1..], t, j - 1))
  {
    forall j: nat | j > 0
      ensures OccursAt(s, t, j) <==> OccursAt(s[1..], t, j - 1)
    {
      if j + |t| <= |s| {
        assert s[1..][j - 1..j - 1 + |t|] == s[j..j + |t|];
      }
    }
  }

  /**
   * `strpos($s, $t)`: the index of the first occurrence of `t` in `s`, or
   * `None` for PHP's `false`. As in PHP 8, the empty needle is found at 0.
   */
  function StrPos(s: string, t: string): (r: Option<nat>)
    ensures r.Some? ==> OccursAt(s, t, r.value)
    ensures r.Some? ==> forall j: nat :: j < r.value ==> !OccursAt(s, t, j)
    ensures r.None? ==> forall j: nat :: !OccursAt(s, t, j)
    decreases |s|
  {
    OccursAtStart(s, t);
    if t <= s then Some(0)
    else if |s| == 0 then None
    else
      OccursShift(s, t);
      match StrPos(s[1..], t)
      case None => None
      case Some(k) => Some(k + 1)
  }

  /** `strpos` reports a match exactly when the needle is a substring. */
  lemma StrPosFindsSubstrings(s: string, t: string)
    ensures StrPos(s, t).Some? <==> Contains(s, t)
  {
    if StrPos(s, t).Some? {
      assert OccursAt(s, t, StrPos(s, t).value);
    }
  }

  /** `strpos($s, $t) === 0` holds exactly when `t` is a prefix of `s`. */
  lemma StrPosZeroIsPrefix(s: string, t: string)
    ensures StrPos(s, t) == Some(0) <==> t <= s
  {
    OccursAtStart(s, t);
  }

  // ---------------------------------------------------------------------------
  // Replacing and case
  // ---------------------------------------------------------------------------

  /**
   * `str_replace($from, $to, $s)`: scans left to right and replaces every
   * non-overlapping occurrence of `from`. An empty search string leaves the
   * subject unchanged.
   */
  function Replace(s: string, from: string, to: string): string
    decreases |s|
  {
    if |from| == 0 || |s| == 0 then s
    else if from <= s then to + Replace(s[|from|..], from, to)
    else [s[0]] + Replace(s[1..], from, to)
  }

  /** Replacing one character by a string that lacks it leaves no such character behind. */
  lemma {:induction false} ReplaceCharRemoves(s: string, c: char, to: string)
    requires c !in to
    ensures c !in Replace(s, [c], to)
    decreases |s|
  {
    if |s| > 0 {
      if [c] <= s {
        ReplaceCharRemoves(s[1..], c, to);
      } else {
        ReplaceCharRemoves(s[1..], c, to);
      }
    }
  }

  /** A subject in which `from` never occurs is returned unchanged. */
  lemma {:induction false} ReplaceAbsent(s: string, from: string, to: string)
    requires forall j: nat :: !OccursAt(s, from, j)
    ensures Replace(s, from, to) == s
    decreases |s|
  {
    if |from| > 0 && |s| > 0 {
      OccursAtStart(s, from);
      OccursShift(s, from);
      forall j: nat
        ensures !OccursAt(s[1..], from, j)
      {
        assert !OccursAt(s, from, j + 1);
      }
      ReplaceAbsent(s[1..], from, to);
    }
  }

  /** An occurrence at the very start is replaced, and the scan resumes right after it. */
  lemma ReplacePrefix(from: string, rest: string, to: string)
    requires |from| > 0
    ensures Replace(from + rest, from, to) == to + Replace(rest, from, to)
  {
    var s := from + rest;
    assert s[..|from|] == from;
    assert s[|from|..] == rest;
  }

  /** A prefix without the first character of the search string is kept as it is. */
  lemma {:induction false} ReplaceSkipHead(x: string, y: string, from: string, to: string)
    requires |from| > 0 && from[0] !in x
    ensures Replace(x + y, from, to) == x + Replace(y, from, to)
    decreases |x|
  {
    if |x| > 0 {
      var s := x + y;
      assert s[0] == x[0] && s[1..] == x[1..] + y;
      ReplaceSkipHead(x[1..], y, from, to);
      assert [x[0]] + x[1..] == x;
    } else {
      assert x + y == y;
    }
  }

  /** A prefix free of the one-character search string is kept as it is. */
  lemma {:induction false} ReplaceCharSkip(x: string, y: string, c: char, to: string)
    requires c !in x
    ensures Replace(x + y, [c], to) == x + Replace(y, [c], to)
    decreases |x|
  {
    if |x| > 0 {
      var s := x + y;
      assert s[0] == x[0] && s[1..] == x[1..] + y;
      ReplaceCharSkip(x[1..], y, c, to);
      assert [x[0]] + x[1..] == x;
    } else {
      assert x + y == y;
    }
  }

  /** ASCII lower-casing of one character, as `strtolower` does in PHP 8.2 and later or under the C locale. */
  function LowerChar(c: char): char {
    if 'A' <= c <= 'Z' then (c as int + 32) as char else c
  }

  function ToLower(s: string): (r: string)
    ensures |r| == |s|
    ensures forall i :: 0 <= i < |s| ==> r[i] == LowerChar(s[i])
  {
    seq(|s|, i requires 0 <= i < |s| => LowerChar(s[i]))
  }

  /** Lower-casing leaves no upper-case ASCII letter and changes no other character class. */
  lemma ToLowerHasNoUpper(s: string)
    ensures forall i :: 0 <= i < |ToLower(s)| ==> !('A' <= ToLower(s)[i] <= 'Z')
  {
  }

  // ---------------------------------------------------------------------------
  // Trimming
  // ---------------------------------------------------------------------------

  /** The characters PHP's `trim` strips by default: space, tab, LF, CR, NUL and vertical tab. */
  predicate IsTrimChar(c: char) {
    c == ' ' || c == '\t' || c == '\n' || c == '\r' || c == 0 as char || c == 11 as char
  }

  /** The first index at or after `i` that holds no trim character (`|s|` if none does). */
  function LeftStop(s: string, i: nat): (j: nat)
    requires i <= |s|
    ensures i <= j <= |s|
    ensures j < |s| ==> !IsTrimChar(s[j])
    ensures forall k :: i <= k < j ==> IsTrimChar(s[k])
    decreases |s| - i
  {
    if i < |s| && IsTrimChar(s[i]) then LeftStop(s, i + 1) else i
  }

  /** The end of the last non-trim character in `s[lo..j]` (`lo` if there is none). */
  function RightStop(s: string, lo: nat, j: nat): (e: nat)
    requires lo <= j <= |s|
    ensures lo <= e <= j
    ensures e > lo ==> !IsTrimChar(s[e - 1])
    ensures forall k :: e <= k < j ==> IsTrimChar(s[k])
    decreases j
  {
    if j > lo && IsTrimChar(s[j - 1]) then RightStop(s, lo, j - 1) else j
  }

  /** The characters of an infix are characters of the whole. */
  lemma InfixChars(s: string, k: nat, n: nat)
    requires k + n <= |s|
    ensures forall c :: c in s[k..k + n] ==> c in s
  {
    forall c | c in s[k..k + n]
      ensures c in s
    {
      var j :| 0 <= j < n && s[k..k + n][j] == c;
      assert s[k + j] == c;
    }
  }

  /**
   * `trim($s)`: `s` without its leading and trailing trim characters, that
   * is the infix from the first to the last character that is not one.
   */
  function Trim(s: string): (r: string)
    ensures exists i: nat :: OccursAt(s, r, i)
    ensures forall c :: c in r ==> c in s
    ensures |r| > 0 ==> !IsTrimChar(r[0]) && !IsTrimChar(r[|r| - 1])
  {
    var a := LeftStop(s, 0);
    var b := RightStop(s, a, |s|);
    InfixChars(s, a, b - a);
    assert OccursAt(s, s[a..b], a);
    s[a..b]
  }

  // ---------------------------------------------------------------------------
  // Joining and splitting
  // ---------------------------------------------------------------------------

  /** `implode($sep, $parts)`. */
  function Join(sep: string, parts: seq<string>): string
    decreases |parts|
  {
    if |parts| == 0 then ""
    else if |parts| == 1 then parts[0]
    else parts[0] + sep + Join(sep, parts[1..])
  }

  /** `explode($c, $s)` for a one-character delimiter. */
  function Split(s: string, c: char): (r: seq<string>)
    ensures |r| >= 1
    decreases |s|
  {
    if |s| == 0 then [""]
    else if s[0] == c then [""] + Split(s[1..], c)
    else
      var rest := Split(s[1..], c);
      [[s[0]] + rest[0]] + rest[1..]
  }

  lemma {:induction false} SplitWithout(p: string, c: char)
    requires c !in p
    ensures Split(p, c) == [p]
    decreases |p|
  {
    if |p| > 0 {
      SplitWithout(p[1..], c);
      assert [p[0]] + p[1..] == p;
    }
  }

  lemma {:induction false} SplitFirst(p: string, c: char, rest: string)
    requires c !in p
    ensures Split(p + [c] + rest, c) == [p] + Split(rest, c)
    decreases |p|
  {
    var s := p + [c] + rest;
    if |p| == 0 {
      assert s[0] == c && s[1..] == rest;
    } else {
      assert s[0] == p[0] && s[1..] == p[1..] + [c] + rest;
      SplitFirst(p[1..], c, rest);
      assert [p[0]] + p[1..] == p;
    }
  }

  /** Splitting a joined list of delimiter-free parts gives the parts back. */
  lemma {:induction false} SplitJoin(parts: seq<string>, c: char)
    requires |parts| > 0
    requires forall i :: 0 <= i < |parts| ==> c !in parts[i]
    ensures Split(Join([c], parts), c) == parts
    decreases |parts|
  {
    if |parts| == 1 {
      SplitWithout(parts[0], c);
    } else {
      SplitJoin(parts[1..], c);
      SplitFirst(parts[0], c, Join([c], parts[1..]));
      assert [parts[0]] + parts[1..] == parts;
    }
  }

  // ---------------------------------------------------------------------------
  // Paths
  // ---------------------------------------------------------------------------

  function StripTrailingSlashes(s: string): (r: string)
    ensures |r| <= |s| && r == s[..|r|]
    ensures |r| == 0 || r[|r| - 1] != '/'
  {
    if |s| > 0 && s[|s| - 1] == '/' then StripTrailingSlashes(s[..|s| - 1]) else s
  }

  /** The part of `s` after its last `/` (all of `s` when it has none). */
  function AfterLastSlash(s: string): (r: string)
    ensures '/' !in r
  {
    if |s| == 0 || s[|s| - 1] == '/' then ""
    else AfterLastSlash(s[..|s| - 1]) + [s[|s| - 1]]
  }

  /** PHP `basename($p)` on a Unix host: trailing slashes are ignored, then the last component is kept. */
  function Basename(p: string): (r: string)
    ensures '/' !in r
  {
    AfterLastSlash(StripTrailingSlashes(p))
  }

  lemma {:induction false} AfterLastSlashAppend(x: string, y: string)
    requires '/' !in y
    ensures AfterLastSlash(x + y) == AfterLastSlash(x) + y
    decreases |y|
  {
    if |y| > 0 {
      var s := x + y;
      var y' := y[..|y| - 1];
      var last := y[|y| - 1];
      assert last in y;
      assert s[|s| - 1] == last && last != '/';
      assert s[..|s| - 1] == x + y';
      assert AfterLastSlash(s) == AfterLastSlash(x + y') + [last];
      assert forall c :: c in y' ==> c in y;
      AfterLastSlashAppend(x, y');
      assert y' + [last] == y;
      calc {
        AfterLastSlash(s);
        AfterLastSlash(x) + y' + [last];
        AfterLastSlash(x) + (y' + [last]);
      }
    } else {
      assert x + y == x;
      assert AfterLastSlash(x) + y == AfterLastSlash(x);
    }
  }

  /** The base name of `dir/name` is `name` whenever `name` is a non-empty single component. */
  lemma BasenameOfChild(dir: string, name: string)
    requires |name| > 0 && '/' !in name
    ensures Basename(dir + "/" + name) == name
  {
    var s := dir + "/" + name;
    assert s[|s| - 1] == name[|name| - 1];
    AfterLastSlashAppend(dir + "/", name);
    assert (dir + "/")[|dir + "/"| - 1] == '/';
  }

  /** The text after the last `.` of `s`, or `None` when `s` has no `.`. */
  function AfterLastDot(s: string): (r: Option<string>)
    ensures r.None? <==> '.' !in s
    ensures r.Some? ==> '.' !in r.value
    ensures r.Some? ==> |r.value| < |s| && r.value == s[|s| - |r.value|..]
  {
    if |s| == 0 then None
    else if s[|s| - 1] == '.' then Some("")
    else match AfterLastDot(s[..|s| - 1])
      case None =>
        assert s == s[..|s| - 1] + [s[|s| - 1]];
        None
      case Some(e) => Some(e + [s[|s| - 1]])
  }

  lemma {:induction false} AfterLastDotAppend(x: string, y: string)
    requires '.' !in y
    ensures AfterLastDot(x + "." + y) == Some(y)
    decreases |y|
  {
    var s := x + "." + y;
    if |y| > 0 {
      assert s[..|s| - 1] == x + "." + y[..|y| - 1];
      AfterLastDotAppend(x, y[..|y| - 1]);
      assert y[..|y| - 1] + [y[|y| - 1]] == y;
    }
  }

  /** `pathinfo($p, PATHINFO_EXTENSION)` (also `SplFileInfo::getExtension`): "" when the base name has no dot. */
  function Extension(p: string): (r: string)
    ensures '.' !in r && '/' !in r
  {
    match AfterLastDot(Basename(p))
    case None => ""
    case Some(e) => e
  }

  /** A path ending in `.ext`, with `ext` a plain word, has extension `ext`. */
  lemma BasenameOfSuffix(stem: string, tail: string)
    requires |tail| > 0 && '/' !in tail
    ensures Basename(stem + tail) == AfterLastSlash(stem) + tail
  {
    var p := stem + tail;
    assert tail[|tail| - 1] in tail;
    assert p[|p| - 1] == tail[|tail| - 1];
    assert StripTrailingSlashes(p) == p;
    AfterLastSlashAppend(stem, tail);
  }

  lemma ExtensionOfSuffix(stem: string, ext: string)
    requires |ext| > 0 && '.' !in ext && '/' !in ext
    ensures Extension(stem + "." + ext) == ext
  {
    var dotExt := "." + ext;
    assert '/' !in dotExt by {
      assert dotExt[0] == '.' && dotExt[1..] == ext;
    }
    assert stem + "." + ext == stem + dotExt;
    BasenameOfSuffix(stem, dotExt);
    var b := AfterLastSlash(stem);
    assert b + dotExt == b + "." + ext;
    AfterLastDotAppend(b, ext);
  }

  predicate IsSlash(c: char) {
    c == '/' || c == '\\'
  }

  /** WordPress `untrailingslashit`: removes every trailing `/` and `\`. */
  function Untrailingslashit(s: string): (r: string)
    ensures |r| <= |s| && r == s[..|r|]
    ensures |r| == 0 || !IsSlash(r[|r| - 1])
    ensures forall i :: |r| <= i < |s| ==> IsSlash(s[i])
  {
    if |s| > 0 && IsSlash(s[|s| - 1]) then Untrailingslashit(s[..|s| - 1]) else s
  }

  /** WordPress `trailingslashit`: exactly one trailing `/`. */
  function TrailingSlashIt(s: string): (r: string)
    ensures |r| > 0 && r[|r| - 1] == '/'
    ensures |r| == 1 || !IsSlash(r[|r| - 2])
    ensures r[..|r| - 1] <= s
  {
    Untrailingslashit(s) + "/"
  }

  lemma {:induction false} UntrailingslashitAppendSlash(s: string)
    ensures Untrailingslashit(Untrailingslashit(s) + "/") == Untrailingslashit(s)
  {
    var u := Untrailingslashit(s);
    var t := u + "/";
    assert t[..|t| - 1] == u;
  }

  /** Applying `trailingslashit` twice is the same as applying it once. */
  lemma TrailingSlashItIdempotent(s: string)
    ensures TrailingSlashIt(TrailingSlashIt(s)) == TrailingSlashIt(s)
  {
    UntrailingslashitAppendSlash(s);
  }

  /** PHP `empty()` on a string: true for "" and for "0". */
  predicate PhpEmpty(s: string) {
    s == "" || s == "0"
  }
}
