/** The packaging rules of the distribution script (package_plugin.py):
    which directories are pruned and which files are left out of the
    archive, the version read from the metadata lines, the archive name,
    the directory walk that fills the archive and the name checks run on
    the finished archive. The file system is a tree value given as input;
    writing the archive is left out. */
module Packaging {
  import opened Wrappers
  import opened Text
  import opened Seqs

  /** An exclusion regular expression of the shape `^P.*S$` (`Affix`) or a
      literal name (`Exact`). */
  datatype Pattern = Affix(prefix: string, suffix: string) | Exact(name: string)

  /** `re.match(pattern, name)` for names without a newline. */
  predicate Matches(p: Pattern, name: string) {
    match p
    case Affix(pre, suf) => |pre| + |suf| <= |name| && StartsWith(name, pre) && EndsWith(name, suf)
    case Exact(n) => name == n
  }

  /** `EXCLUDE_PATTERNS`, in source order. */
  const ExcludePatterns: seq<Pattern> := [
    Affix("ui_", ".py"),
    Exact("resources_rc.py"),
    Affix("", "_rc.py"),
    Affix("", ".pyc"),
    Affix("", ".pyo"),
    Affix("", ".bak"),
    Affix("", "~"),
    Affix(".", ".swp"),
    Affix("", ".orig")
  ]

  /** `EXCLUDE_DIRS`; "*.egg-info" is compared as a literal name. */
  const ExcludeDirs: set<string> := {
    "__pycache__", "__MACOSX", ".git", ".svn", ".hg", ".idea", ".vscode",
    ".pytest_cache", ".mypy_cache", ".tox", ".eggs", "*.egg-info",
    "build", "dist", "node_modules", "help"
  }

  /** Some pattern of `ps` matches `name` (the loop over the patterns). */
  predicate AnyMatches(ps: seq<Pattern>, name: string) {
    |ps| > 0 && (Matches(ps[0], name) || AnyMatches(ps[1..], name))
  }

  predicate ShouldExcludeFile(name: string) {
    AnyMatches(ExcludePatterns, name)
  }

  lemma {:induction false} AnyMatchesAt(ps: seq<Pattern>, name: string)
    ensures AnyMatches(ps, name) <==> exists i :: 0 <= i < |ps| && Matches(ps[i], name)
  {
    if |ps| > 0 {
      AnyMatchesAt(ps[1..], name);
      if exists i :: 0 <= i < |ps| && Matches(ps[i], name) {
        var i :| 0 <= i < |ps| && Matches(ps[i], name);
        if i > 0 {
          assert ps[1..][i - 1] == ps[i];
        }
      }
    }
  }

  predicate ShouldExcludeDir(name: string) {
    StartsWith(name, ".") || name in ExcludeDirs || EndsWith(name, ".egg-info")
  }

  /** The exclusion table read as one condition. The literal
      "resources_rc.py" entry is already covered by the `_rc.py` suffix. */
  lemma ShouldExcludeFileIff(name: string)
    ensures ShouldExcludeFile(name) <==>
      || (|name| >= 6 && StartsWith(name, "ui_") && EndsWith(name, ".py"))
      || EndsWith(name, "_rc.py")
      || EndsWith(name, ".pyc")
      || EndsWith(name, ".pyo")
      || EndsWith(name, ".bak")
      || EndsWith(name, "~")
      || (|name| >= 5 && StartsWith(name, ".") && EndsWith(name, ".swp"))
      || EndsWith(name, ".orig")
  {
    var ps := ExcludePatterns;
    ExcludeByIndex(name);
    PatternMeanings(name);
    if name == "resources_rc.py" {
      assert name[|name| - 6..] == "_rc.py";
    }
  }

  /** The pattern loop tries each of the nine entries. */
  lemma ExcludeByIndex(name: string)
    ensures var ps := ExcludePatterns;
      ShouldExcludeFile(name) <==>
        Matches(ps[0], name) || Matches(ps[1], name) || Matches(ps[2], name) || Matches(ps[3], name) ||
        Matches(ps[4], name) || Matches(ps[5], name) || Matches(ps[6], name) || Matches(ps[7], name) ||
        Matches(ps[8], name)
  {
    var ps := ExcludePatterns;
    AnyMatchesAt(ps, name);
    if ShouldExcludeFile(name) {
      var i :| 0 <= i < |ps| && Matches(ps[i], name);
      assert i in {0, 1, 2, 3, 4, 5, 6, 7, 8};
    }
  }

  /** Each table entry read as a condition on the name. */
  lemma PatternMeanings(name: string)
    ensures var ps := ExcludePatterns;
      && (Matches(ps[0], name) <==> |name| >= 6 && StartsWith(name, "ui_") && EndsWith(name, ".py"))
      && (Matches(ps[1], name) <==> name == "resources_rc.py")
      && (Matches(ps[2], name) <==> EndsWith(name, "_rc.py"))
      && (Matches(ps[3], name) <==> EndsWith(name, ".pyc"))
      && (Matches(ps[4], name) <==> EndsWith(name, ".pyo"))
      && (Matches(ps[5], name) <==> EndsWith(name, ".bak"))
      && (Matches(ps[6], name) <==> EndsWith(name, "~"))
      && (Matches(ps[7], name) <==> |name| >= 5 && StartsWith(name, ".") && EndsWith(name, ".swp"))
      && (Matches(ps[8], name) <==> EndsWith(name, ".orig"))
  {
    var ps := ExcludePatterns;
    assert Matches(ps[0], name) <==> |name| >= 6 && StartsWith(name, "ui_") && EndsWith(name, ".py") by {
      assert ps[0] == Affix("ui_", ".py");
    }
    assert Matches(ps[1], name) <==> name == "resources_rc.py" by {
      assert ps[1] == Exact("resources_rc.py");
    }
    assert Matches(ps[2], name) <==> EndsWith(name, "_rc.py") by {
      assert ps[2] == Affix("", "_rc.py");
      SuffixMeaning("_rc.py", name);
    }
    assert Matches(ps[3], name) <==> EndsWith(name, ".pyc") by {
      assert ps[3] == Affix("", ".pyc");
      SuffixMeaning(".pyc", name);
    }
    assert Matches(ps[4], name) <==> EndsWith(name, ".pyo") by {
      assert ps[4] == Affix("", ".pyo");
      SuffixMeaning(".pyo", name);
    }
    assert Matches(ps[5], name) <==> EndsWith(name, ".bak") by {
      assert ps[5] == Affix("", ".bak");
      SuffixMeaning(".bak", name);
    }
    assert Matches(ps[6], name) <==> EndsWith(name, "~") by {
      assert ps[6] == Affix("", "~");
      SuffixMeaning("~", name);
    }
    assert Matches(ps[7], name) <==> |name| >= 5 && StartsWith(name, ".") && EndsWith(name, ".swp") by {
      assert ps[7] == Affix(".", ".swp");
    }
    assert Matches(ps[8], name) <==> EndsWith(name, ".orig") by {
      assert ps[8] == Affix("", ".orig");
      SuffixMeaning(".orig", name);
    }
  }

  /** A `^.*S$` pattern holds exactly for the names ending in `S`. */
  lemma SuffixMeaning(suf: string, name: string)
    ensures Matches(Affix("", suf), name) <==> EndsWith(name, suf)
  {
    assert StartsWith(name, "");
  }

  /** The directory rule read as one condition: the dot-names listed in
      `EXCLUDE_DIRS` are already pruned as hidden, and the "*.egg-info"
      entry only matters through the suffix test. */
  lemma ShouldExcludeDirIff(name: string)
    ensures ShouldExcludeDir(name) <==>
      StartsWith(name, ".")
      || name in {"__pycache__", "__MACOSX", "build", "dist", "node_modules", "help"}
      || EndsWith(name, ".egg-info")
  {
    if name == "*.egg-info" {
      assert name[|name| - 9..] == ".egg-info";
    }
    if name in {".git", ".svn", ".hg", ".idea", ".vscode", ".pytest_cache", ".mypy_cache", ".tox", ".eggs"} {
      assert name[..1] == ".";
    }
  }

  // ---------------------------------------------------------------------
  // Version and archive name
  // ---------------------------------------------------------------------

  /** `line.split("=", 1)[1]`: the text after the first "=". */
  function AfterFirstEquals(line: string): (r: string)
    requires '=' in line
    ensures EndsWith(line, r) && |r| < |line|
    ensures line[|line| - |r| - 1] == '=' && '=' !in line[..|line| - |r| - 1]
  {
    line[IndexOf(line, '=') + 1..]
  }

  /** Index of the first metadata line starting with "version=". */
  function VersionLine(lines: seq<string>): (r: Option<nat>)
    ensures r.Some? ==> r.value < |lines| && StartsWith(lines[r.value], "version=")
    ensures r.Some? ==> forall j :: 0 <= j < r.value ==> !StartsWith(lines[j], "version=")
    ensures r.None? ==> forall j :: 0 <= j < |lines| ==> !StartsWith(lines[j], "version=")
  {
    if |lines| == 0 then None
    else if StartsWith(lines[0], "version=") then Some(0)
    else match VersionLine(lines[1..])
      case None => None
      case Some(k) => Some(k + 1)
  }

  /** `get_version_from_metadata`: `metadata` is the lines of metadata.txt
      (each with its line terminator), or None when the file is absent. */
  function VersionFromMetadata(metadata: Option<seq<string>>): (r: string)
    ensures metadata.None? ==> r == "unknown"
    ensures metadata.Some? && VersionLine(metadata.value).None? ==> r == "unknown"
    ensures metadata.Some? && VersionLine(metadata.value).Some? ==>
      var line := metadata.value[VersionLine(metadata.value).value];
      r == Strip(line[8..])
  {
    match metadata
    case None => "unknown"
    case Some(lines) =>
      match VersionLine(lines)
      case None => "unknown"
      case Some(k) =>
        assert lines[k][7] == '=';
        VersionAfterKey(lines[k]);
        Strip(AfterFirstEquals(lines[k]))
  }

  /** On a "version=" line the first "=" is the one after the key, so the
      split keeps everything after "version=", further "=" included. */
  lemma VersionAfterKey(line: string)
    requires StartsWith(line, "version=")
    ensures '=' in line && AfterFirstEquals(line) == line[8..]
  {
    assert line[..8] == "version=";
    assert line[7] == '=';
  }

  /** The default archive name. */
  function ZipName(target: string, version: string, includeVersion: bool): (r: string)
    ensures StartsWith(r, target) && EndsWith(r, ".zip")
    ensures includeVersion ==> |r| == |target| + 1 + |version| + 4 && r[|target|] == '-'
                               && r[|target| + 1..|r| - 4] == version
    ensures !includeVersion ==> |r| == |target| + 4
  {
    if includeVersion then target + "-" + version + ".zip" else target + ".zip"
  }

  // ---------------------------------------------------------------------
  // The packaging walk
  // ---------------------------------------------------------------------

  /** A directory as `os.walk` lists it: file names and named
      sub-directories, in listing order. */
  datatype Tree = Tree(files: seq<string>, dirs: seq<(string, Tree)>)

  /** What one walk produced: archive entries as path components relative
      to the source directory, and the two counters. */
  datatype Walked = Walked(entries: seq<seq<string>>, added: nat, excluded: nat)

  function Concat(a: Walked, b: Walked): Walked {
    Walked(a.entries + b.entries, a.added + b.added, a.excluded + b.excluded)
  }

  /** The two rules the walk applies: the directory names it prunes and
      the file names it skips. The walk below is stated for any rules;
      the script applies `PluginRules`. */
  datatype Rules = Rules(prune: string -> bool, skip: string -> bool)

  /** A file name the script skips (and counts as excluded). */
  predicate FileSkipped(name: string) {
    ShouldExcludeFile(name) || StartsWith(name, ".")
  }

  /** The rules of `package_plugin`: prune by `should_exclude_dir`, skip by
      `should_exclude_file` and hidden names. */
  const PluginRules: Rules := Rules(ShouldExcludeDir, FileSkipped)

  /** A relative path the walk may place in the archive: every directory
      component survives pruning and the basename is not skipped. */
  predicate Admitted(path: seq<string>, r: Rules) {
    |path| > 0 && DirsKept(path, 0, r) && !r.skip(path[|path| - 1])
  }

  /** The files of one directory, each counted once: every file that is
      not skipped becomes the entry `rel + [file]`, and the skipped ones
      are counted as excluded. */
  function WalkFiles(files: seq<string>, rel: seq<string>, r: Rules): (w: Walked)
    ensures w.added == |w.entries| && w.added + w.excluded == |files|
    ensures w.excluded == Count(files, r.skip)
    ensures forall k :: 0 <= k < |files| && !r.skip(files[k]) ==> rel + [files[k]] in w.entries
    ensures forall e :: e in w.entries ==> exists k :: 0 <= k < |files| && !r.skip(files[k]) && e == rel + [files[k]]
    ensures EntriesUnder(w.entries, rel, r)
  {
    if |files| == 0 then Walked([], 0, 0)
    else
      var rest := WalkFiles(files[1..], rel, r);
      assert forall k :: 0 < k < |files| ==> files[k] == files[1..][k - 1];
      if r.skip(files[0]) then Walked(rest.entries, rest.added, rest.excluded + 1)
      else Walked([rel + [files[0]]] + rest.entries, rest.added + 1, rest.excluded)
  }

  /** Files under `t` that the walk visits: those of `t` and of every
      sub-directory that is not pruned, at any depth. */
  function VisitedFiles(t: Tree, r: Rules): nat
    decreases t, 1
  {
    |t.files| + VisitedFilesIn(t, 0, r)
  }

  function VisitedFilesIn(t: Tree, i: nat, r: Rules): nat
    requires i <= |t.dirs|
    decreases t, 0, |t.dirs| - i
  {
    if i == |t.dirs| then 0
    else
      assert t.dirs[i] in t.dirs;
      (if r.prune(t.dirs[i].0) then 0 else VisitedFiles(t.dirs[i].1, r))
      + VisitedFilesIn(t, i + 1, r)
  }

  /** Entries whose directory part extends `rel` by admitted components. */
  predicate EntriesUnder(entries: seq<seq<string>>, rel: seq<string>, r: Rules) {
    forall e :: e in entries ==> Under(e, rel, r)
  }

  /** `e` is `rel` extended by surviving directories and a kept file. */
  predicate Under(e: seq<string>, rel: seq<string>, r: Rules) {
    |e| > |rel| && e[..|rel|] == rel && DirsKept(e, |rel|, r) && !r.skip(e[|e| - 1])
  }

  /** No directory component of `e` from position `from` on is pruned. */
  predicate DirsKept(e: seq<string>, from: nat, r: Rules) {
    forall i :: from <= i < |e| - 1 ==> !r.prune(e[i])
  }

  /** Entries under an admitted sub-directory are entries under its parent. */
  lemma EntriesUnderParent(entries: seq<seq<string>>, rel: seq<string>, name: string, r: Rules)
    requires EntriesUnder(entries, rel + [name], r) && !r.prune(name)
    ensures EntriesUnder(entries, rel, r)
  {
    forall e | e in entries
      ensures Under(e, rel, r)
    {
      UnderParent(e, rel, name, r);
    }
  }

  lemma UnderParent(e: seq<string>, rel: seq<string>, name: string, r: Rules)
    requires Under(e, rel + [name], r) && !r.prune(name)
    ensures Under(e, rel, r)
  {
    PrefixParts(e, rel, name);
    DirsKeptStepBack(e, |rel|, r);
  }

  lemma PrefixParts(e: seq<string>, rel: seq<string>, name: string)
    requires |e| > |rel| + 1 && e[..|rel| + 1] == rel + [name]
    ensures e[..|rel|] == rel && e[|rel|] == name
  {
    assert e[..|rel|] == e[..|rel| + 1][..|rel|];
    assert e[|rel|] == e[..|rel| + 1][|rel|];
  }

  lemma DirsKeptStepBack(e: seq<string>, from: nat, r: Rules)
    requires from < |e| && DirsKept(e, from + 1, r) && !r.prune(e[from])
    ensures DirsKept(e, from, r)
  {
  }

  lemma ConcatUnder(a: Walked, b: Walked, rel: seq<string>, r: Rules)
    requires EntriesUnder(a.entries, rel, r) && EntriesUnder(b.entries, rel, r)
    ensures EntriesUnder(Concat(a, b).entries, rel, r)
  {
  }

  /** The top-down walk of `t`, whose path from the source directory is
      `rel`: its own files first, then each surviving sub-directory. */
  function Walk(t: Tree, rel: seq<string>, r: Rules): (w: Walked)
    ensures w.added == |w.entries|
    ensures w.added + w.excluded == VisitedFiles(t, r)
    ensures EntriesUnder(w.entries, rel, r)
    decreases t, 1
  {
    var files := WalkFiles(t.files, rel, r);
    var dirs := WalkDirs(t, 0, rel, r);
    ConcatUnder(files, dirs, rel, r);
    Concat(files, dirs)
  }

  function WalkDirs(t: Tree, i: nat, rel: seq<string>, r: Rules): (w: Walked)
    requires i <= |t.dirs|
    ensures w.added == |w.entries|
    ensures w.added + w.excluded == VisitedFilesIn(t, i, r)
    ensures EntriesUnder(w.entries, rel, r)
    decreases t, 0, |t.dirs| - i
  {
    if i == |t.dirs| then Walked([], 0, 0)
    else
      assert t.dirs[i] in t.dirs;
      var (name, sub) := t.dirs[i];
      var here := if r.prune(name) then Walked([], 0, 0) else Walk(sub, rel + [name], r);
      if !r.prune(name) then
        EntriesUnderParent(here.entries, rel, name, r);
        ConcatUnder(here, WalkDirs(t, i + 1, rel, r), rel, r);
        Concat(here, WalkDirs(t, i + 1, rel, r))
      else
        Concat(here, WalkDirs(t, i + 1, rel, r))
  }

  /** `t` holds a file at the relative path `p` and the walk visits it:
      every directory on the way survives pruning. */
  predicate HasFile(t: Tree, p: seq<string>, r: Rules)
    decreases |p|, 1
  {
    |p| > 0 && (if |p| == 1 then p[0] in t.files else SubdirHasFile(t, 0, p, r))
  }

  /** A sub-directory of `t` from position `i` on is named `p[0]`, survives
      pruning and holds `p[1..]`. */
  predicate SubdirHasFile(t: Tree, i: nat, p: seq<string>, r: Rules)
    requires |p| > 1
    decreases |p|, 0
  {
    && !r.prune(p[0])
    && exists j :: i <= j < |t.dirs| && t.dirs[j].0 == p[0] && HasFile(t.dirs[j].1, p[1..], r)
  }

  /** A file the walk adds: visited, and its name not skipped. */
  predicate Packs(t: Tree, p: seq<string>, r: Rules) {
    HasFile(t, p, r) && !r.skip(p[|p| - 1])
  }

  /** Every file the walk visits and does not skip is added. */
  lemma {:induction false} WalkComplete(t: Tree, rel: seq<string>, p: seq<string>, r: Rules)
    requires Packs(t, p, r)
    ensures rel + p in Walk(t, rel, r).entries
    decreases t
  {
    if |p| == 1 {
      assert rel + p == rel + [p[0]];
    } else {
      assert SubdirHasFile(t, 0, p, r);
      var j :| 0 <= j < |t.dirs| && t.dirs[j].0 == p[0] && HasFile(t.dirs[j].1, p[1..], r);
      assert t.dirs[j] in t.dirs;
      LastOfTail(p);
      WalkComplete(t.dirs[j].1, rel + [p[0]], p[1..], r);
      AppendTail(rel, p);
      WalkDirsHere(t, j, rel, rel + p, r);
      WalkDirsContains(t, 0, rel, j, rel + p, r);
    }
  }

  /** The walk of the sub-directories from `i` on keeps every entry of the
      walk from `j >= i` on. */
  lemma {:induction false} WalkDirsContains(t: Tree, i: nat, rel: seq<string>, j: nat, e: seq<string>, r: Rules)
    requires i <= j <= |t.dirs| && e in WalkDirs(t, j, rel, r).entries
    ensures e in WalkDirs(t, i, rel, r).entries
    decreases j - i
  {
    if i < j {
      WalkDirsLater(t, j - 1, rel, e, r);
      WalkDirsContains(t, i, rel, j - 1, e, r);
    }
  }

  /** An entry of a surviving sub-directory's walk is an entry of the walk
      of the sub-directories from that one on. */
  lemma WalkDirsHere(t: Tree, i: nat, rel: seq<string>, e: seq<string>, r: Rules)
    requires i < |t.dirs| && !r.prune(t.dirs[i].0)
    requires e in Walk(t.dirs[i].1, rel + [t.dirs[i].0], r).entries
    ensures e in WalkDirs(t, i, rel, r).entries
  {
    WalkDirsStep(t, i, rel, r);
  }

  /** The walk from sub-directory `i` keeps every entry of the walk from
      `i + 1`. */
  lemma WalkDirsLater(t: Tree, i: nat, rel: seq<string>, e: seq<string>, r: Rules)
    requires i < |t.dirs| && e in WalkDirs(t, i + 1, rel, r).entries
    ensures e in WalkDirs(t, i, rel, r).entries
  {
    WalkDirsStep(t, i, rel, r);
  }

  lemma AppendTail(rel: seq<string>, p: seq<string>)
    requires |p| > 0
    ensures (rel + [p[0]]) + p[1..] == rel + p
  {
  }

  /** One sub-directory of the walk, unfolded: a surviving one contributes
      its own walk, and the rest follow. */
  lemma WalkDirsStep(t: Tree, i: nat, rel: seq<string>, r: Rules)
    requires i < |t.dirs|
    ensures t.dirs[i] in t.dirs
    ensures WalkDirs(t, i, rel, r).entries ==
      (if r.prune(t.dirs[i].0) then [] else Walk(t.dirs[i].1, rel + [t.dirs[i].0], r).entries)
      + WalkDirs(t, i + 1, rel, r).entries
  {
    assert t.dirs[i] in t.dirs;
  }

  lemma LastOfTail(p: seq<string>)
    requires |p| > 1
    ensures p[1..][|p[1..]| - 1] == p[|p| - 1]
  {
  }

  /** Every entry the walk adds is a visited file that is not skipped. */
  lemma {:induction false} WalkSound(t: Tree, rel: seq<string>, e: seq<string>, r: Rules)
    requires e in Walk(t, rel, r).entries
    ensures |e| > |rel| && e[..|rel|] == rel && Packs(t, e[|rel|..], r)
    decreases t, 1
  {
    var files := WalkFiles(t.files, rel, r);
    if e in files.entries {
      var k :| 0 <= k < |t.files| && !r.skip(t.files[k]) && e == rel + [t.files[k]];
      assert e[..|rel|] == rel;
      assert e[|rel|..] == [t.files[k]];
    } else {
      WalkDirsSound(t, 0, rel, e, r);
      var p := e[|rel|..];
      assert p[|p| - 1] == e[|e| - 1];
    }
  }

  lemma {:induction false} WalkDirsSound(t: Tree, i: nat, rel: seq<string>, e: seq<string>, r: Rules)
    requires i <= |t.dirs| && e in WalkDirs(t, i, rel, r).entries
    ensures |e| > |rel| + 1 && e[..|rel|] == rel
    ensures SubdirHasFile(t, i, e[|rel|..], r) && !r.skip(e[|e| - 1])
    decreases t, 0, |t.dirs| - i
  {
    if i < |t.dirs| {
      WalkDirsStep(t, i, rel, r);
      var name := t.dirs[i].0;
      var sub := t.dirs[i].1;
      if !r.prune(name) && e in Walk(sub, rel + [name], r).entries {
        WalkSound(sub, rel + [name], e, r);
        EntryBelow(e, rel, name, sub, r);
      } else {
        WalkDirsSound(t, i + 1, rel, e, r);
        var p := e[|rel|..];
        var j :| i + 1 <= j < |t.dirs| && t.dirs[j].0 == p[0] && HasFile(t.dirs[j].1, p[1..], r);
      }
    }
  }

  /** An entry of a sub-directory's walk, seen from its parent. */
  lemma EntryBelow(e: seq<string>, rel: seq<string>, name: string, sub: Tree, r: Rules)
    requires |e| > |rel + [name]| && e[..|rel + [name]|] == rel + [name]
    requires Packs(sub, e[|rel + [name]|..], r)
    ensures |e| > |rel| + 1 && e[..|rel|] == rel
    ensures var p := e[|rel|..]; p[0] == name && HasFile(sub, p[1..], r) && !r.skip(e[|e| - 1])
  {
    PrefixParts(e, rel, name);
    var p := e[|rel|..];
    assert p[1..] == e[|rel| + 1..];
    assert e[|rel| + 1..][|e[|rel| + 1..]| - 1] == e[|e| - 1];
  }

  lemma DirsKeptDrop(e: seq<string>, r: Rules)
    requires |e| > 0 && DirsKept(e, 1, r)
    ensures DirsKept(e[1..], 0, r)
  {
    forall i | 0 <= i < |e[1..]| - 1
      ensures !r.prune(e[1..][i])
    {
      assert e[1..][i] == e[i + 1];
    }
  }

  /** The walk of the source directory under `target` with any rules:
      every visited file is counted once, as added or as excluded, and
      the entries are exactly `target` followed by the relative path of a
      file the walk visits and does not skip, each admitted. */
  lemma PackageWith(source: Tree, target: string, r: Rules)
    ensures var w := Walk(source, [target], r);
      && w.added == |w.entries|
      && w.added + w.excluded == VisitedFiles(source, r)
      && (forall e :: e in w.entries ==> |e| > 1 && e[0] == target && Admitted(e[1..], r))
      && (forall e :: e in w.entries <==> |e| > 1 && e[0] == target && Packs(source, e[1..], r))
  {
    var w := Walk(source, [target], r);
    forall e | e in w.entries
      ensures |e| > 1 && e[0] == target && Admitted(e[1..], r) && Packs(source, e[1..], r)
    {
      UnderTarget(e, target, r);
      WalkSound(source, [target], e, r);
    }
    forall e | |e| > 1 && e[0] == target && Packs(source, e[1..], r)
      ensures e in w.entries
    {
      WalkComplete(source, [target], e[1..], r);
      assert [target] + e[1..] == e;
    }
  }

  /** `package_plugin`'s walk over the source directory with its own
      rules: every file it visits is counted once, as added or as
      excluded, and it adds exactly the visited files that are not
      skipped, each as `target` followed by an admitted relative path. */
  function Package(source: Tree, target: string): (w: Walked)
    ensures w.added == |w.entries|
    ensures w.added + w.excluded == VisitedFiles(source, PluginRules)
    ensures forall e :: e in w.entries ==> |e| > 1 && e[0] == target && Admitted(e[1..], PluginRules)
    ensures forall e :: e in w.entries <==> |e| > 1 && e[0] == target && Packs(source, e[1..], PluginRules)
  {
    PackageWith(source, target, PluginRules);
    Walk(source, [target], PluginRules)
  }

  /** An entry under `[target]` is `target` followed by an admitted path. */
  lemma UnderTarget(e: seq<string>, target: string, r: Rules)
    requires Under(e, [target], r)
    ensures |e| > 1 && e[0] == target && Admitted(e[1..], r)
  {
    assert e[..1] == [target];
    DirsKeptDrop(e, r);
    assert e[1..][|e[1..]| - 1] == e[|e| - 1];
  }

  // ---------------------------------------------------------------------
  // Archive verification
  // ---------------------------------------------------------------------

  /** The warnings `verify_zip` prints. */
  datatype Warning = FoundPycache | FoundMacosx | FoundGit | FoundUiFile | FoundResourcesRc

  /** The warnings raised by one archive name, given as its components
      (file-system names contain no "/", so splitting the joined name on
      "/" gives the components back). */
  function NameWarnings(comps: seq<string>): (ws: seq<Warning>)
    requires |comps| > 0
    ensures FoundUiFile in ws <==> StartsWith(comps[|comps| - 1], "ui_") && EndsWith(comps[|comps| - 1], ".py")
    ensures FoundResourcesRc in ws <==> comps[|comps| - 1] == "resources_rc.py"
    ensures FoundGit in ws <==> ".git" in comps
  {
    var name := Join(comps, "/");
    var base := comps[|comps| - 1];
    (if Contains(name, "__pycache__") then [FoundPycache] else [])
    + (if Contains(name, "__MACOSX") then [FoundMacosx] else [])
    + (if ".git" in comps then [FoundGit] else [])
    + (if StartsWith(base, "ui_") && EndsWith(base, ".py") then [FoundUiFile] else [])
    + (if base == "resources_rc.py" then [FoundResourcesRc] else [])
  }

  /** "ui_" and ".py" cannot overlap, so the `ui_*.py` check of the
      verifier and the `^ui_.*\.py$` pattern agree. */
  lemma UiNameLength(base: string)
    requires StartsWith(base, "ui_") && EndsWith(base, ".py")
    ensures |base| >= 6
  {
    assert base[..3] == "ui_";
    assert base[|base| - 3..] == ".py";
    assert base[|base| - 3] == '.';
  }

  /** A basename the walk admits is neither a generated UI module nor the
      compiled resource file. */
  lemma AdmittedBasenameIsNotGenerated(base: string)
    requires !FileSkipped(base)
    ensures !(StartsWith(base, "ui_") && EndsWith(base, ".py"))
    ensures base != "resources_rc.py"
  {
    GeneratedNamesSkipped(base);
  }

  /** The two generated-file names are skipped by the file patterns. */
  lemma GeneratedNamesSkipped(base: string)
    ensures StartsWith(base, "ui_") && EndsWith(base, ".py") ==> FileSkipped(base)
    ensures base == "resources_rc.py" ==> FileSkipped(base)
  {
    ShouldExcludeFileIff(base);
    if StartsWith(base, "ui_") && EndsWith(base, ".py") {
      UiNameLength(base);
    }
    if base == "resources_rc.py" {
      assert base[|base| - 6..] == "_rc.py";
    }
  }

  /** The name checks on one admitted entry stored under `target`. */
  lemma AdmittedEntryPassesNameChecks(e: seq<string>, target: string)
    requires |e| > 1 && e[0] == target && Admitted(e[1..], PluginRules)
    ensures FoundUiFile !in NameWarnings(e)
    ensures FoundResourcesRc !in NameWarnings(e)
    ensures target != ".git" ==> FoundGit !in NameWarnings(e)
  {
    var rel := e[1..];
    assert !FileSkipped(e[|e| - 1]) by {
      assert rel[|rel| - 1] == e[|e| - 1];
    }
    AdmittedBasenameIsNotGenerated(e[|e| - 1]);
    assert ".git" !in rel by {
      AdmittedHasNoGit(rel);
    }
    assert e == [target] + rel;
  }

  /** A hidden name never survives the walk, so ".git" is no component of
      an admitted path. */
  lemma AdmittedHasNoGit(rel: seq<string>)
    requires Admitted(rel, PluginRules)
    ensures ".git" !in rel
  {
    forall k | 0 <= k < |rel|
      ensures rel[k] != ".git"
    {
      HiddenNamesRejected(rel[k]);
      assert StartsWith(".git", ".");
    }
  }

  /** A hidden name is both pruned as a directory and skipped as a file. */
  lemma HiddenNamesRejected(name: string)
    ensures StartsWith(name, ".") ==> PluginRules.prune(name) && PluginRules.skip(name)
  {
  }

  /** The checks on generated files never fire on an archive the walk
      produced, and the ".git" check fires only if the target name is
      ".git" itself. */
  lemma PackagedArchivePassesNameChecks(source: Tree, target: string, e: seq<string>)
    requires e in Package(source, target).entries
    ensures FoundUiFile !in NameWarnings(e)
    ensures FoundResourcesRc !in NameWarnings(e)
    ensures target != ".git" ==> FoundGit !in NameWarnings(e)
  {
    AdmittedEntryPassesNameChecks(e, target);
  }
}
